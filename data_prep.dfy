/**
 * scripts/data_prep.py: the cleaning pass that re-encodes every raw image of
 * one class as `0000.jpg`, `0001.jpg`, ... and the per-class train/test split.
 *
 * The PIL work (open, convert to RGB, LANCZOS resize, JPEG save) is an oracle
 * `convert` from the file's bytes to the encoded result, `None` when PIL
 * raises. The shuffle is a draw of all positions (see module Sampling).
 */
module DataPrep {
  import opened Text
  import opened Sampling
  import opened Files

  /** `img_name.lower().endswith(('.jpg', '.jpeg', '.png', '.bmp'))`. */
  predicate IsImageName(name: string)
  {
    EndsWithAny(Lower(name), CleanExtensions)
  }

  const CleanExtensions := [".jpg", ".jpeg", ".png", ".bmp"]

  /** `str.endswith` with a tuple of suffixes. */
  predicate EndsWithAny(s: string, suffixes: seq<string>)
  {
    if suffixes == [] then false else EndsWith(s, suffixes[0]) || EndsWithAny(s, suffixes[1..])
  }

  /** The tuple test is the four one-suffix tests: a name is attempted exactly when, in lower
      case, it ends in `.jpg`, `.jpeg`, `.png` or `.bmp`. */
  lemma ImageNameCases(name: string)
    ensures IsImageName(name) <==>
      var l := Lower(name);
      EndsWith(l, ".jpg") || EndsWith(l, ".jpeg") || EndsWith(l, ".png") || EndsWith(l, ".bmp")
  {
    var l, e := Lower(name), CleanExtensions;
    assert e[1..] == [".jpeg", ".png", ".bmp"] && e[2..] == [".png", ".bmp"] && e[3..] == [".bmp"];
    assert EndsWithAny(l, e[3..]) <==> EndsWith(l, ".bmp") by { assert e[3..][1..] == []; }
    assert EndsWithAny(l, e[2..]) <==> EndsWith(l, ".png") || EndsWithAny(l, e[3..]) by { assert e[2..][1..] == e[3..]; }
    assert EndsWithAny(l, e[1..]) <==> EndsWith(l, ".jpeg") || EndsWithAny(l, e[2..]) by { assert e[1..][1..] == e[2..]; }
  }

  /** `f"{success_count:04d}.jpg"`. */
  function CleanName(k: nat): string { Pad(k, 4) + ".jpg" }

  /** The listed names the clean step attempts. */
  function Attempted(listing: seq<string>): seq<string>
  {
    Filter(listing, IsImageName)
  }

  /** Opening, converting and saving one listed file: the encoded JPEG, or `None`
      when PIL raises (a name that is not in the folder cannot be opened either). */
  function Outcome(input: Dir, convert: Bytes -> Option<Bytes>, name: string): Option<Bytes>
  {
    if name in input then convert(input[name]) else None
  }

  /** The encoded images of the names that convert, in order. */
  function Successes(input: Dir, convert: Bytes -> Option<Bytes>, names: seq<string>): (r: seq<Bytes>)
    ensures |r| <= |names|
  {
    if names == [] then []
    else
      var o := Outcome(input, convert, names[|names| - 1]);
      Successes(input, convert, names[..|names| - 1]) + (if o.Some? then [o.value] else [])
  }

  /** What the successful conversions write: the k-th one under `CleanName(k)`. */
  function CleanOutputs(encoded: seq<Bytes>): Dir
  {
    Numbered(encoded, CleanName)
  }

  /** `resize_and_clean_images`: returns the success count, the error count and the
      output folder afterwards (a file already there under a generated name is overwritten). */
  method ResizeAndClean(input: Dir, listing: seq<string>, convert: Bytes -> Option<Bytes>, out0: Dir)
    returns (successCount: nat, errorCount: nat, out: Dir)
    ensures successCount == |Successes(input, convert, Attempted(listing))|
    ensures successCount + errorCount == |Attempted(listing)|
    ensures out == out0 + CleanOutputs(Successes(input, convert, Attempted(listing)))
  {
    successCount, errorCount, out := 0, 0, out0;
    ghost var attempted: seq<string> := [];
    ghost var encoded: seq<Bytes> := [];
    assert out0 + CleanOutputs(encoded) == out0;
    for i := 0 to |listing|
      invariant attempted == Attempted(listing[..i])
      invariant encoded == Successes(input, convert, attempted)
      invariant successCount == |encoded| && successCount + errorCount == |attempted|
      invariant out == out0 + CleanOutputs(encoded)
    {
      var name := listing[i];
      if IsImageName(name) {
        AttemptedKeeps(listing, i);
        var result := Outcome(input, convert, name);
        SuccessesSnoc(input, convert, attempted, name);
        attempted := attempted + [name];
        if result.Some? {
          CleanOutputsSnoc(out0, encoded, result.value);
          out := out[CleanName(successCount) := result.value];
          encoded := encoded + [result.value];
          assert out == out0 + CleanOutputs(encoded);
          successCount := successCount + 1;
        } else {
          errorCount := errorCount + 1;
        }
      } else {
        AttemptedSkips(listing, i);
      }
    }
    assert listing[..|listing|] == listing;
  }

  /** A listed name with an image extension is attempted after the earlier ones... */
  lemma AttemptedKeeps(listing: seq<string>, i: nat)
    requires i < |listing| && IsImageName(listing[i])
    ensures Attempted(listing[..i + 1]) == Attempted(listing[..i]) + [listing[i]]
  {
    assert listing[..i + 1] == listing[..i] + [listing[i]];
    FilterSnoc(listing[..i], listing[i], IsImageName);
  }

  /** ... and any other listed name is passed over. */
  lemma AttemptedSkips(listing: seq<string>, i: nat)
    requires i < |listing| && !IsImageName(listing[i])
    ensures Attempted(listing[..i + 1]) == Attempted(listing[..i])
  {
    assert listing[..i + 1] == listing[..i] + [listing[i]];
    FilterSnoc(listing[..i], listing[i], IsImageName);
    assert Attempted(listing[..i]) + [] == Attempted(listing[..i]);
  }

  lemma SuccessesSnoc(input: Dir, convert: Bytes -> Option<Bytes>, names: seq<string>, name: string)
    ensures var o := Outcome(input, convert, name);
      Successes(input, convert, names + [name]) == Successes(input, convert, names) + (if o.Some? then [o.value] else [])
  {
    assert (names + [name])[..|names|] == names;
  }

  lemma CleanOutputsSnoc(out0: Dir, encoded: seq<Bytes>, v: Bytes)
    ensures out0 + CleanOutputs(encoded + [v]) == (out0 + CleanOutputs(encoded))[CleanName(|encoded|) := v]
  {
    assert (encoded + [v])[..|encoded|] == encoded;
    UnionUpdate(out0, CleanOutputs(encoded), CleanName(|encoded|), v);
  }

  /** Distinct counter values give distinct output names: no output overwrites another. */
  lemma CleanNamesDistinct(j: nat, k: nat)
    ensures CleanName(j) == CleanName(k) ==> j == k
  {
    PaddedNameInjective(j, k, 4, ".jpg");
  }

  /** The outputs are exactly `CleanName(0)` ... `CleanName(n - 1)`, the k-th holding the
      k-th successful conversion: contiguous even when failures are interleaved. */
  lemma CleanOutputsExact(encoded: seq<Bytes>)
    ensures forall name :: name in CleanOutputs(encoded) <==>
      exists k :: 0 <= k < |encoded| && name == CleanName(k)
    ensures forall k :: 0 <= k < |encoded| ==> CleanOutputs(encoded)[CleanName(k)] == encoded[k]
    ensures |CleanOutputs(encoded)| == |encoded|
  {
    forall j: nat, k: nat ensures CleanName(j) == CleanName(k) ==> j == k {
      CleanNamesDistinct(j, k);
    }
    NumberedExact(encoded, CleanName);
    NumberedSize(encoded, CleanName);
  }

  /** Every attempted name counts once, as a success or as an error. */
  lemma {:induction false} SuccessesCount(input: Dir, convert: Bytes -> Option<Bytes>, names: seq<string>)
    ensures |Successes(input, convert, names)| ==
            |Filter(names, name => Outcome(input, convert, name).Some?)|
  {
    if names != [] {
      SuccessesCount(input, convert, names[..|names| - 1]);
    }
  }

  /** Below 10000 images every output name has the eight-character form `NNNN.jpg`. */
  lemma CleanNameForm(k: nat)
    ensures EndsWith(CleanName(k), ".jpg")
    ensures k < 10000 <==> |CleanName(k)| == 8
  {
    PadLength(k, 4);
    assert Pow10(4) == 10000;
  }

  /** Every file the clean step writes passes the case-sensitive `.jpg` filter of the split. */
  lemma CleanOutputsAreJpg(encoded: seq<Bytes>)
    ensures forall name :: name in CleanOutputs(encoded) ==> IsJpg(name)
  {
    CleanOutputsExact(encoded);
    forall name | name in CleanOutputs(encoded) ensures IsJpg(name) {
      var k :| 0 <= k < |encoded| && name == CleanName(k);
      CleanNameForm(k);
    }
  }

  /** Only names with one of the four extensions (in any letter case) are attempted. */
  lemma AttemptedOnlyImages(listing: seq<string>)
    ensures forall name :: name in Attempted(listing) <==> name in listing && IsImageName(name)
  {
    FilterMembers(listing, IsImageName);
  }

  // ---------------------------------------------------------------------
  // split_train_test

  /** `f.endswith('.jpg')`, case-sensitive. */
  predicate IsJpg(name: string) { EndsWith(name, ".jpg") }

  /** Python's `int()` of a float: truncation toward zero. */
  function Trunc(x: real): (t: int)
    ensures x >= 0.0 ==> t as real <= x < t as real + 1.0
    ensures x < 0.0 ==> t as real - 1.0 < x <= t as real
  {
    if x >= 0.0 then x.Floor else -((-x).Floor)
  }

  /** `split_idx = int(len(images) * (1 - test_ratio))`. */
  function SplitIndex(n: nat, testRatio: real): int
  {
    Trunc(n as real * (1.0 - testRatio))
  }

  /** Where `images[:k]` and `images[k:]` cut a list of length `n`: a negative `k`
      counts from the end, and the result is clamped to `[0, n]`. */
  function SliceBound(k: int, n: nat): (c: nat)
    ensures c <= n
    ensures 0 <= k <= n ==> c == k
  {
    if k < 0 then (if k + n < 0 then 0 else k + n) else if k > n then n else k
  }

  /** The shuffled `.jpg` images are all files of the input folder. */
  lemma ShuffledListed(input: Dir, listing: seq<string>, shuffle: seq<nat>)
    requires IsListing(listing, input)
    requires IsDraw(shuffle, |Filter(listing, IsJpg)|, |Filter(listing, IsJpg)|)
    ensures forall i :: 0 <= i < |shuffle| ==> Select(Filter(listing, IsJpg), shuffle)[i] in input
  {
    var images := Filter(listing, IsJpg);
    FilterMembers(listing, IsJpg);
    forall i | 0 <= i < |shuffle| ensures Select(images, shuffle)[i] in input {
      assert images[shuffle[i]] in images;
    }
  }

  /** `split_train_test`: returns `(len(train_images), len(test_images))` together with the
      train and test folders after the copies. `shuffle` is the order `np.random.shuffle` produced. */
  method SplitTrainTest(input: Dir, listing: seq<string>, shuffle: seq<nat>, testRatio: real,
                        train0: Dir, test0: Dir)
    returns (nTrain: nat, nTest: nat, train: Dir, test: Dir)
    requires IsListing(listing, input)
    requires IsDraw(shuffle, |Filter(listing, IsJpg)|, |Filter(listing, IsJpg)|)
    ensures var images := Filter(listing, IsJpg);
            var shuffled := Select(images, shuffle);
            var cut := SliceBound(SplitIndex(|images|, testRatio), |images|);
            && nTrain == cut && nTest == |images| - cut
            && train == CopyAll(train0, input, shuffled[..cut])
            && test == CopyAll(test0, input, shuffled[cut..])
  {
    var images := Filter(listing, IsJpg);
    var shuffled := Select(images, shuffle);
    ShuffledListed(input, listing, shuffle);
    var cut := SliceBound(SplitIndex(|images|, testRatio), |images|);
    var trainImages := shuffled[..cut];
    var testImages := shuffled[cut..];
    assert forall i :: 0 <= i < |trainImages| ==> trainImages[i] == shuffled[i];
    assert forall i :: 0 <= i < |testImages| ==> testImages[i] == shuffled[cut + i];
    train := CopyFiles(train0, input, trainImages);
    test := CopyFiles(test0, input, testImages);
    nTrain, nTest := |trainImages|, |testImages|;
  }

  /** For a ratio in [0, 1] the cut lies in [0, n], so the slices cut exactly there. */
  lemma SplitIndexInRange(n: nat, testRatio: real)
    requires 0.0 <= testRatio <= 1.0
    ensures 0 <= SplitIndex(n, testRatio) <= n
    ensures SliceBound(SplitIndex(n, testRatio), n) == SplitIndex(n, testRatio)
  {
    var x := n as real * (1.0 - testRatio);
    assert 0.0 <= x <= n as real;
  }

  /** For a ratio in [0, 1] the test part has `ceil(n * test_ratio)` images: at least
      `n * test_ratio` and less than one above it. */
  lemma TestCountBound(n: nat, testRatio: real)
    requires 0.0 <= testRatio <= 1.0
    ensures var nTest := n - SplitIndex(n, testRatio);
            n as real * testRatio <= nTest as real < n as real * testRatio + 1.0
  {
    SplitIndexInRange(n, testRatio);
  }

  /** 100 images at the default ratio 0.2 split 80 / 20. */
  lemma DefaultSplitOfHundred()
    ensures SplitIndex(100, 0.2) == 80
    ensures SliceBound(SplitIndex(100, 0.2), 100) == 80
  {
    assert 100.0 * (1.0 - 0.2) == 80.0;
  }

  /** A list is its two slices at `cut` put back together, and holds what they hold. */
  lemma SliceHalves(s: seq<string>, cut: nat)
    requires cut <= |s|
    ensures s[..cut] + s[cut..] == s
    ensures forall x :: x in s <==> x in s[..cut] || x in s[cut..]
  {
    assert s[..cut] + s[cut..] == s;
  }

  /** Shuffling the images keeps exactly the images. */
  lemma ShuffledSameImages(images: seq<string>, shuffle: seq<nat>)
    requires Distinct(images) && IsDraw(shuffle, |images|, |images|)
    ensures forall x :: x in images <==> x in Select(images, shuffle)
  {
    var shuffled := Select(images, shuffle);
    ShuffleIsPermutation(images, shuffle);
    forall x ensures x in images <==> x in shuffled {
      if x in images {
        var i :| 0 <= i < |images| && images[i] == x;
      }
      if x in shuffled {
        var i :| 0 <= i < |shuffled| && shuffled[i] == x;
      }
    }
  }

  /** The split partitions the `.jpg` images: train followed by test is the shuffled list,
      the counts add up, no name is in both parts, and together they hold every image. */
  lemma SplitPartition(listing: seq<string>, shuffle: seq<nat>, cut: nat)
    requires Distinct(listing)
    requires IsDraw(shuffle, |Filter(listing, IsJpg)|, |Filter(listing, IsJpg)|)
    requires cut <= |Filter(listing, IsJpg)|
    ensures var images := Filter(listing, IsJpg);
            var shuffled := Select(images, shuffle);
            && shuffled[..cut] + shuffled[cut..] == shuffled
            && |shuffled[..cut]| + |shuffled[cut..]| == |images|
            && (forall i, j :: 0 <= i < cut <= j < |shuffled| ==> shuffled[i] != shuffled[j])
            && (forall x :: x in images <==> x in shuffled[..cut] || x in shuffled[cut..])
  {
    var images := Filter(listing, IsJpg);
    FilterDistinct(listing, IsJpg);
    ShuffleIsPermutation(images, shuffle);
    ShuffledSameImages(images, shuffle);
    SliceHalves(Select(images, shuffle), cut);
  }

  /** No image goes to both parts. */
  lemma SlicesDisjoint(s: seq<string>, cut: nat)
    requires cut <= |s|
    requires forall i, j :: 0 <= i < cut <= j < |s| ==> s[i] != s[j]
    ensures forall x :: x in s[..cut] ==> x !in s[cut..]
  {
    forall x | x in s[..cut] ensures x !in s[cut..] {
      var i :| 0 <= i < cut && s[i] == x;
      forall j | 0 <= j < |s| - cut ensures s[cut..][j] != x {
        assert s[cut..][j] == s[cut + j];
      }
    }
  }

  /** The two destination folders receive disjoint sets of names, and between them every image. */
  lemma SplitDestinationsDisjoint(input: Dir, listing: seq<string>, shuffle: seq<nat>, cut: nat)
    requires IsListing(listing, input)
    requires IsDraw(shuffle, |Filter(listing, IsJpg)|, |Filter(listing, IsJpg)|)
    requires cut <= |Filter(listing, IsJpg)|
    ensures var images := Filter(listing, IsJpg);
            var shuffled := Select(images, shuffle);
            var train := CopyAll(map[], input, shuffled[..cut]).Keys;
            var test := CopyAll(map[], input, shuffled[cut..]).Keys;
            && train !! test
            && (forall x :: x in images <==> x in train + test)
            && |CopyAll(map[], input, shuffled[..cut])| == cut
            && |CopyAll(map[], input, shuffled[cut..])| == |images| - cut
  {
    var images := Filter(listing, IsJpg);
    var shuffled := Select(images, shuffle);
    SplitPartition(listing, shuffle, cut);
    ShuffledListed(input, listing, shuffle);
    SlicesDisjoint(shuffled, cut);
    CopyAllContents(map[], input, shuffled[..cut]);
    CopyAllContents(map[], input, shuffled[cut..]);
    FilterDistinct(listing, IsJpg);
    ShuffleIsPermutation(images, shuffle);
    SlicesDistinct(shuffled, cut);
    CopyAllSize(input, shuffled[..cut]);
    CopyAllSize(input, shuffled[cut..]);
  }

  /** Both slices of a duplicate-free list are duplicate-free. */
  lemma SlicesDistinct(s: seq<string>, cut: nat)
    requires cut <= |s| && Distinct(s)
    ensures Distinct(s[..cut]) && Distinct(s[cut..])
  {
    assert forall i :: 0 <= i < |s| - cut ==> s[cut..][i] == s[cut + i];
  }
}
