/**
 * scripts/convert-to-ima.py: unpacking the CIFAR-10 batches into one folder per
 * class, with a cap on the images kept per class, and drawing a sample of every
 * class into the `not_dinosaur` folder.
 *
 * Unpickling a batch is given: `batches` maps each batch file present in the
 * CIFAR folder to its decoded images and labels. `Image.fromarray(...).save`
 * is an oracle `encode` from an image's pixels to the saved file.
 */
module Cifar {
  import opened Text
  import opened Sampling
  import opened Files

  const ClassNames: seq<string> :=
    ["airplane", "automobile", "bird", "cat", "deer", "dog", "frog", "horse", "ship", "truck"]

  const BatchFiles: seq<string> :=
    ["data_batch_1", "data_batch_2", "data_batch_3", "data_batch_4", "data_batch_5", "test_batch"]

  /** A CIFAR-10 category indexes `ClassNames`. */
  type Label = l: nat | l < 10

  /** A decoded batch: the images' pixel data and their labels. */
  datatype Batch = Batch(images: seq<Bytes>, labels: seq<Label>)

  /** The number of `(image, category)` pairs `zip` yields. */
  function Pairs(b: Batch): (n: nat)
    ensures n <= |b.images| && n <= |b.labels|
  {
    if |b.images| < |b.labels| then |b.images| else |b.labels|
  }

  /** `f"{batch_file}_{i:04d}.jpg"`. */
  function FrameName(batch: string, i: nat): string { batch + "_" + Pad(i, 4) + ".jpg" }

  /** The per-class counters (`class_counters`; `total_extracted` always equals them),
      indexed by category, and the ten class folders. */
  datatype Progress = Progress(counters: seq<nat>, folders: seq<Dir>)

  predicate WellFormed(p: Progress) { |p.counters| == 10 && |p.folders| == 10 }

  /** One image of a batch: skipped when its class is full, otherwise saved into its class folder
      and counted. */
  function Save(p: Progress, batch: string, i: nat, img: Bytes, category: Label, max: int,
                encode: Bytes -> Bytes): (q: Progress)
    requires WellFormed(p)
    ensures WellFormed(q)
  {
    if p.counters[category] >= max then p
    else Progress(p.counters[category := p.counters[category] + 1],
                  p.folders[category := p.folders[category][FrameName(batch, i) := encode(img)]])
  }

  /** The first `m` images of a batch, in order. */
  function ScanBatch(p: Progress, batch: string, b: Batch, m: nat, max: int, encode: Bytes -> Bytes): (q: Progress)
    requires WellFormed(p) && m <= Pairs(b)
    ensures WellFormed(q)
  {
    if m == 0 then p
    else Save(ScanBatch(p, batch, b, m - 1, max, encode), batch, m - 1, b.images[m - 1], b.labels[m - 1], max, encode)
  }

  lemma ScanBatchSnoc(p: Progress, batch: string, b: Batch, m: nat, max: int, encode: Bytes -> Bytes)
    requires WellFormed(p) && m < Pairs(b)
    ensures ScanBatch(p, batch, b, m + 1, max, encode)
         == Save(ScanBatch(p, batch, b, m, max, encode), batch, m, b.images[m], b.labels[m], max, encode)
  {
  }

  predicate AllFull(counters: seq<nat>, max: int)
  {
    forall c :: 0 <= c < |counters| ==> counters[c] >= max
  }

  /** The outcome of the extraction and the positions in `BatchFiles` of the batches it read. */
  datatype Run = Run(progress: Progress, visited: seq<nat>)

  /** The batches from position `j` on: a missing one is skipped, and after reading one the
      extraction stops if every class is full. */
  function ExtractFrom(j: nat, p: Progress, visited: seq<nat>, batches: map<string, Batch>, max: int,
                       encode: Bytes -> Bytes): (r: Run)
    requires WellFormed(p)
    ensures WellFormed(r.progress)
    decreases |BatchFiles| - j
  {
    if j >= |BatchFiles| then Run(p, visited)
    else if BatchFiles[j] !in batches then ExtractFrom(j + 1, p, visited, batches, max, encode)
    else
      var b := batches[BatchFiles[j]];
      var q := ScanBatch(p, BatchFiles[j], b, Pairs(b), max, encode);
      if AllFull(q.counters, max) then Run(q, visited + [j])
      else ExtractFrom(j + 1, q, visited + [j], batches, max, encode)
  }

  function NoCounts(): (z: seq<nat>)
    ensures |z| == 10 && forall c :: 0 <= c < 10 ==> z[c] == 0
  {
    seq(10, _ => 0)
  }

  /** `extract_cifar10_images` from counters at zero and the class folders as they were. */
  function Extract(batches: map<string, Batch>, max: int, encode: Bytes -> Bytes, folders0: seq<Dir>): (r: Run)
    requires |folders0| == 10
    ensures WellFormed(r.progress)
  {
    ExtractFrom(0, Progress(NoCounts(), folders0), [], batches, max, encode)
  }

  /** `extract_cifar10_images`: returns `total_extracted`, `class_counters` and the class folders. */
  method ExtractCifar(batches: map<string, Batch>, max: int, encode: Bytes -> Bytes, folders0: seq<Dir>)
    returns (totals: seq<nat>, counters: seq<nat>, folders: seq<Dir>)
    requires |folders0| == 10
    ensures totals == counters
    ensures Progress(counters, folders) == Extract(batches, max, encode, folders0).progress
  {
    counters := NoCounts();
    totals := NoCounts();
    folders := folders0;
    ghost var visited: seq<nat> := [];
    var j := 0;
    while j < |BatchFiles|
      invariant 0 <= j <= |BatchFiles|
      invariant |counters| == 10 && |folders| == 10 && totals == counters
      invariant ExtractFrom(j, Progress(counters, folders), visited, batches, max, encode)
             == Extract(batches, max, encode, folders0)
    {
      var batchFile := BatchFiles[j];
      if batchFile !in batches {
        j := j + 1;
        continue;
      }
      totals, counters, folders := ReadBatch(totals, counters, folders, batchFile, batches[batchFile], max, encode);
      visited := visited + [j];
      if AllFull(counters, max) {
        break;
      }
      j := j + 1;
    }
  }

  /** The loop over the images of one batch (`for i, (img, label) in enumerate(...)`). */
  method ReadBatch(totals0: seq<nat>, counters0: seq<nat>, folders0: seq<Dir>, batchFile: string, b: Batch,
                   max: int, encode: Bytes -> Bytes)
    returns (totals: seq<nat>, counters: seq<nat>, folders: seq<Dir>)
    requires |counters0| == 10 && |folders0| == 10 && totals0 == counters0
    ensures totals == counters
    ensures Progress(counters, folders) == ScanBatch(Progress(counters0, folders0), batchFile, b, Pairs(b), max, encode)
  {
    totals, counters, folders := totals0, counters0, folders0;
    for i := 0 to Pairs(b)
      invariant |counters| == 10 && |folders| == 10 && totals == counters
      invariant Progress(counters, folders) == ScanBatch(Progress(counters0, folders0), batchFile, b, i, max, encode)
    {
      var category := b.labels[i];
      if counters[category] >= max {
        continue;
      }
      var filename := FrameName(batchFile, i);
      folders := folders[category := folders[category][filename := encode(b.images[i])]];
      counters := counters[category := counters[category] + 1];
      totals := totals[category := totals[category] + 1];
    }
  }

  /** The number of labels equal to `c`. */
  function Count(labels: seq<Label>, c: nat): (n: nat)
    ensures n <= |labels|
  {
    if labels == [] then 0
    else Count(labels[..|labels| - 1], c) + (if labels[|labels| - 1] == c then 1 else 0)
  }

  /** Reading a batch takes a class that is not yet full up to the cap at most, adding one per image
      of that class; a full class is left as it is. */
  lemma {:induction false} ScanBatchCounts(p: Progress, batch: string, b: Batch, m: nat, max: int,
                                           encode: Bytes -> Bytes, c: nat)
    requires WellFormed(p) && m <= Pairs(b) && c < 10
    ensures ScanBatch(p, batch, b, m, max, encode).counters[c] ==
      if p.counters[c] >= max then p.counters[c] else Min(max, p.counters[c] + Count(b.labels[..m], c))
  {
    if m > 0 {
      ScanBatchCounts(p, batch, b, m - 1, max, encode, c);
      assert b.labels[..m][..m - 1] == b.labels[..m - 1];
    }
  }

  predicate Capped(counters: seq<nat>, max: int)
  {
    forall c :: 0 <= c < |counters| ==> counters[c] <= max
  }

  lemma {:induction false} ScanBatchCapped(p: Progress, batch: string, b: Batch, m: nat, max: int, encode: Bytes -> Bytes)
    requires WellFormed(p) && m <= Pairs(b) && Capped(p.counters, max)
    ensures Capped(ScanBatch(p, batch, b, m, max, encode).counters, max)
  {
    if m > 0 {
      ScanBatchCapped(p, batch, b, m - 1, max, encode);
    }
  }

  lemma {:induction false} ExtractFromCapped(j: nat, p: Progress, visited: seq<nat>, batches: map<string, Batch>,
                                             max: int, encode: Bytes -> Bytes)
    requires WellFormed(p) && Capped(p.counters, max)
    ensures Capped(ExtractFrom(j, p, visited, batches, max, encode).progress.counters, max)
    decreases |BatchFiles| - j
  {
    if j < |BatchFiles| {
      if BatchFiles[j] !in batches {
        ExtractFromCapped(j + 1, p, visited, batches, max, encode);
      } else {
        var b := batches[BatchFiles[j]];
        ScanBatchCapped(p, BatchFiles[j], b, Pairs(b), max, encode);
        ExtractFromCapped(j + 1, ScanBatch(p, BatchFiles[j], b, Pairs(b), max, encode), visited + [j], batches, max, encode);
      }
    }
  }

  /** No class counter ever exceeds `max_per_class`. */
  lemma CountersCapped(batches: map<string, Batch>, max: int, encode: Bytes -> Bytes, folders0: seq<Dir>)
    requires |folders0| == 10 && max >= 0
    ensures forall c :: 0 <= c < 10 ==> Extract(batches, max, encode, folders0).progress.counters[c] <= max
  {
    ExtractFromCapped(0, Progress(NoCounts(), folders0), [], batches, max, encode);
  }

  lemma {:induction false} ScanBatchUnchanged(p: Progress, batch: string, b: Batch, m: nat, max: int, encode: Bytes -> Bytes)
    requires WellFormed(p) && m <= Pairs(b) && AllFull(p.counters, max)
    ensures ScanBatch(p, batch, b, m, max, encode) == p
  {
    if m > 0 {
      ScanBatchUnchanged(p, batch, b, m - 1, max, encode);
    }
  }

  lemma {:induction false} ExtractFromUnchanged(j: nat, p: Progress, visited: seq<nat>, batches: map<string, Batch>,
                                                max: int, encode: Bytes -> Bytes)
    requires WellFormed(p) && AllFull(p.counters, max)
    ensures ExtractFrom(j, p, visited, batches, max, encode).progress == p
    decreases |BatchFiles| - j
  {
    if j < |BatchFiles| {
      if BatchFiles[j] !in batches {
        ExtractFromUnchanged(j + 1, p, visited, batches, max, encode);
      } else {
        var b := batches[BatchFiles[j]];
        ScanBatchUnchanged(p, BatchFiles[j], b, Pairs(b), max, encode);
      }
    }
  }

  /** With `max_per_class <= 0` nothing is extracted: the counters stay at zero and no file is written. */
  lemma NonPositiveCapExtractsNothing(batches: map<string, Batch>, max: int, encode: Bytes -> Bytes, folders0: seq<Dir>)
    requires |folders0| == 10 && max <= 0
    ensures Extract(batches, max, encode, folders0).progress == Progress(NoCounts(), folders0)
  {
    ExtractFromUnchanged(0, Progress(NoCounts(), folders0), [], batches, max, encode);
  }

  predicate Increasing(v: seq<nat>)
  {
    forall a, b :: 0 <= a < b < |v| ==> v[a] < v[b]
  }

  /** The batches read: present ones, in list order. */
  predicate ReadInOrder(v: seq<nat>, batches: map<string, Batch>)
  {
    Increasing(v) && forall a :: 0 <= a < |v| ==> v[a] < |BatchFiles| && BatchFiles[v[a]] in batches
  }

  lemma {:induction false} ExtractFromReads(j: nat, p: Progress, visited: seq<nat>, batches: map<string, Batch>,
                                            max: int, encode: Bytes -> Bytes)
    requires WellFormed(p) && ReadInOrder(visited, batches)
    requires forall a :: 0 <= a < |visited| ==> visited[a] < j
    ensures var r := ExtractFrom(j, p, visited, batches, max, encode);
      && ReadInOrder(r.visited, batches)
      && visited <= r.visited
      && (forall a :: |visited| <= a < |r.visited| ==> j <= r.visited[a])
    decreases |BatchFiles| - j
  {
    var r := ExtractFrom(j, p, visited, batches, max, encode);
    if j < |BatchFiles| {
      if BatchFiles[j] !in batches {
        assert r == ExtractFrom(j + 1, p, visited, batches, max, encode);
        ExtractFromReads(j + 1, p, visited, batches, max, encode);
      } else {
        var b := batches[BatchFiles[j]];
        var q := ScanBatch(p, BatchFiles[j], b, Pairs(b), max, encode);
        var v := visited + [j];
        assert ReadInOrder(v, batches);
        if AllFull(q.counters, max) {
          assert r == Run(q, v);
        } else {
          assert r == ExtractFrom(j + 1, q, v, batches, max, encode);
          ExtractFromReads(j + 1, q, v, batches, max, encode);
          assert r.visited[|visited|] == j;
        }
      }
    }
  }

  lemma {:induction false} ExtractFromSkips(j: nat, p: Progress, visited: seq<nat>, batches: map<string, Batch>,
                                            max: int, encode: Bytes -> Bytes)
    requires WellFormed(p) && ReadInOrder(visited, batches)
    requires forall a :: 0 <= a < |visited| ==> visited[a] < j
    ensures var r := ExtractFrom(j, p, visited, batches, max, encode);
      forall k :: j <= k < |BatchFiles| && BatchFiles[k] in batches && k !in r.visited ==>
        AllFull(r.progress.counters, max) && forall a :: 0 <= a < |r.visited| ==> r.visited[a] < k
    decreases |BatchFiles| - j
  {
    var r := ExtractFrom(j, p, visited, batches, max, encode);
    if j < |BatchFiles| {
      if BatchFiles[j] !in batches {
        ExtractFromSkips(j + 1, p, visited, batches, max, encode);
      } else {
        var b := batches[BatchFiles[j]];
        var q := ScanBatch(p, BatchFiles[j], b, Pairs(b), max, encode);
        var v := visited + [j];
        assert ReadInOrder(v, batches);
        if AllFull(q.counters, max) {
          assert r == Run(q, v);
        } else {
          assert r == ExtractFrom(j + 1, q, v, batches, max, encode);
          ExtractFromReads(j + 1, q, v, batches, max, encode);
          ExtractFromSkips(j + 1, q, v, batches, max, encode);
          assert j in r.visited by { assert r.visited[|visited|] == j; }
        }
      }
    }
  }

  /** Batches are read in list order, only when present, and a present batch is left unread
      only because the early stop fired before it, when every class had reached the cap. */
  lemma BatchesReadInOrder(batches: map<string, Batch>, max: int, encode: Bytes -> Bytes, folders0: seq<Dir>)
    requires |folders0| == 10
    ensures var r := Extract(batches, max, encode, folders0);
      && ReadInOrder(r.visited, batches)
      && (forall k :: 0 <= k < |BatchFiles| && BatchFiles[k] in batches && k !in r.visited ==>
            AllFull(r.progress.counters, max) && forall a :: 0 <= a < |r.visited| ==> r.visited[a] < k)
  {
    ExtractFromReads(0, Progress(NoCounts(), folders0), [], batches, max, encode);
    ExtractFromSkips(0, Progress(NoCounts(), folders0), [], batches, max, encode);
  }

  /** A missing batch changes nothing: it is as if the batch list did not name it. */
  lemma MissingBatchSkipped(j: nat, p: Progress, visited: seq<nat>, batches: map<string, Batch>,
                            max: int, encode: Bytes -> Bytes)
    requires WellFormed(p) && j < |BatchFiles| && BatchFiles[j] !in batches
    ensures ExtractFrom(j, p, visited, batches, max, encode) == ExtractFrom(j + 1, p, visited, batches, max, encode)
  {
  }

  lemma JpgIsSafe()
    ensures NoDigits(".jpg") && '_' !in ".jpg"
  {
    var e := ".jpg";
    assert e[0] == '.' && e[1] == 'j' && e[2] == 'p' && e[3] == 'g';
  }

  /** Distinct (batch, index) pairs give distinct file names. */
  lemma FrameNameInjective(b1: string, i1: nat, b2: string, i2: nat)
    ensures FrameName(b1, i1) == FrameName(b2, i2) ==> b1 == b2 && i1 == i2
  {
    if FrameName(b1, i1) == FrameName(b2, i2) {
      JpgIsSafe();
      NumberedNameInjective(b1, i1, ".jpg", b2, i2, ".jpg", 4);
    }
  }

  lemma BatchFilesDistinct()
    ensures Distinct(BatchFiles)
  {
    forall a, b | 0 <= a < b < |BatchFiles| ensures BatchFiles[a] != BatchFiles[b] {
      if b < 5 {
        assert BatchFiles[a][11] != BatchFiles[b][11];
      } else {
        assert BatchFiles[a][0] != BatchFiles[b][0];
      }
    }
  }

  /** Position of `name` in the batch list, `|BatchFiles|` when it is not listed. */
  function BatchIndex(name: string): (k: nat)
    ensures k <= |BatchFiles| && (k < |BatchFiles| ==> BatchFiles[k] == name)
    ensures forall j :: 0 <= j < k ==> BatchFiles[j] != name
  {
    IndexIn(BatchFiles, name)
  }

  function IndexIn(s: seq<string>, x: string): (k: nat)
    ensures k <= |s| && (k < |s| ==> s[k] == x)
    ensures forall j :: 0 <= j < k ==> s[j] != x
  {
    if s == [] then 0
    else if s[0] == x then 0
    else
      var k := 1 + IndexIn(s[1..], x);
      assert forall j :: 1 <= j < k ==> s[j] == s[1..][j - 1];
      k
  }

  lemma BatchIndexOf(j: nat)
    requires j < |BatchFiles|
    ensures BatchIndex(BatchFiles[j]) == j
  {
    BatchFilesDistinct();
  }

  /** Reading a frame name back: the batch before the last underscore, the number after it. */
  function FrameBatch(x: string): string
  {
    var u := RFind(x, '_');
    if u < 0 then x else x[..u]
  }

  function FrameIndex(x: string): nat
  {
    var t := x[RFind(x, '_') + 1..];
    Value(t[..DigitRun(t)])
  }

  lemma FrameNameParse(b: string, i: nat)
    ensures FrameBatch(FrameName(b, i)) == b && FrameIndex(FrameName(b, i)) == i
  {
    var p := Pad(i, 4);
    var t := p + ".jpg";
    var x := FrameName(b, i);
    assert x == b + "_" + t;
    JpgIsSafe();
    PadHasNoUnderscore(i, 4);
    assert '_' !in t;
    LastUnderscoreAt(b, t);
    assert x[..|b|] == b && x[|b| + 1..] == t;
    PadRoundTrip(i, 4);
    DigitRunOfBlock(p, ".jpg");
    assert t[..|p|] == p;
  }

  /** Image `i` of batch position `b` comes before image `m` of batch position `j`. */
  predicate Before(b: nat, i: nat, j: nat, m: nat)
  {
    b < j || (b == j && i < m)
  }

  /** Every file of `d` was written for an image of an earlier batch than position `j` in the
      batch list, or for one of the first `m` images of that batch. */
  predicate WrittenBefore(d: Dir, j: nat, m: nat)
  {
    forall x :: x in d ==> Before(BatchIndex(FrameBatch(x)), FrameIndex(x), j, m)
  }

  /** Every class folder holds as many files as its counter says, all written before (`j`, `m`). */
  predicate Tally(p: Progress, j: nat, m: nat)
  {
    && WellFormed(p)
    && forall c :: 0 <= c < 10 ==> |p.folders[c]| == p.counters[c] && WrittenBefore(p.folders[c], j, m)
  }

  /** The name of image `m` of batch `j` is not among the files written before it. */
  lemma FrameIsFresh(d: Dir, j: nat, m: nat)
    requires j < |BatchFiles| && WrittenBefore(d, j, m)
    ensures FrameName(BatchFiles[j], m) !in d
  {
    FrameNameParse(BatchFiles[j], m);
    BatchIndexOf(j);
  }

  lemma WrittenBeforeStep(d: Dir, j: nat, m: nat, write: bool, v: Bytes)
    requires j < |BatchFiles| && WrittenBefore(d, j, m)
    ensures WrittenBefore(if write then d[FrameName(BatchFiles[j], m) := v] else d, j, m + 1)
  {
    FrameNameParse(BatchFiles[j], m);
    BatchIndexOf(j);
  }

  lemma SaveTally(q: Progress, j: nat, m: nat, img: Bytes, c: Label, max: int, encode: Bytes -> Bytes)
    requires j < |BatchFiles| && Tally(q, j, m)
    ensures Tally(Save(q, BatchFiles[j], m, img, c, max, encode), j, m + 1)
  {
    var r := Save(q, BatchFiles[j], m, img, c, max, encode);
    var write := q.counters[c] < max;
    forall k | 0 <= k < 10
      ensures |r.folders[k]| == r.counters[k] && WrittenBefore(r.folders[k], j, m + 1)
    {
      var w := write && k == c;
      WrittenBeforeStep(q.folders[k], j, m, w, encode(img));
      if w {
        FrameIsFresh(q.folders[k], j, m);
      }
    }
  }

  /** One more image of batch `j` keeps the tally. */
  lemma TallyStep(p: Progress, j: nat, b: Batch, m: nat, max: int, encode: Bytes -> Bytes)
    requires j < |BatchFiles| && WellFormed(p) && m < Pairs(b)
    requires Tally(ScanBatch(p, BatchFiles[j], b, m, max, encode), j, m)
    ensures Tally(ScanBatch(p, BatchFiles[j], b, m + 1, max, encode), j, m + 1)
  {
    ScanBatchSnoc(p, BatchFiles[j], b, m, max, encode);
    SaveTally(ScanBatch(p, BatchFiles[j], b, m, max, encode), j, m, b.images[m], b.labels[m], max, encode);
  }

  /** Reading no image of batch `j` changes nothing. */
  lemma TallyStart(p: Progress, j: nat, b: Batch, max: int, encode: Bytes -> Bytes)
    requires j < |BatchFiles| && Tally(p, j, 0)
    ensures Tally(ScanBatch(p, BatchFiles[j], b, 0, max, encode), j, 0)
  {
    assert ScanBatch(p, BatchFiles[j], b, 0, max, encode) == p;
  }

  /** Reading the first `m` images of batch `j` keeps the tally, image by image. */
  lemma ScanBatchTally(p: Progress, j: nat, b: Batch, m: nat, max: int, encode: Bytes -> Bytes)
    requires j < |BatchFiles| && m <= Pairs(b) && Tally(p, j, 0)
    ensures Tally(ScanBatch(p, BatchFiles[j], b, m, max, encode), j, m)
  {
    TallyStart(p, j, b, max, encode);
    var k := 0;
    while k < m
      invariant k <= m && Tally(ScanBatch(p, BatchFiles[j], b, k, max, encode), j, k)
    {
      TallyStep(p, j, b, k, max, encode);
      k := k + 1;
    }
  }

  /** Files written before image `m` of batch `j` were written before batch `j + 1`. */
  lemma TallyAdvance(p: Progress, j: nat, m: nat)
    requires j < |BatchFiles| && Tally(p, j, m)
    ensures Tally(p, j + 1, 0)
  {
  }

  lemma {:induction false} ExtractFromTally(j: nat, p: Progress, visited: seq<nat>, batches: map<string, Batch>,
                                            max: int, encode: Bytes -> Bytes)
    requires Tally(p, j, 0)
    ensures var r := ExtractFrom(j, p, visited, batches, max, encode);
      forall c :: 0 <= c < 10 ==> |r.progress.folders[c]| == r.progress.counters[c]
    decreases |BatchFiles| - j
  {
    if j < |BatchFiles| {
      if BatchFiles[j] !in batches {
        TallyAdvance(p, j, 0);
        ExtractFromTally(j + 1, p, visited, batches, max, encode);
        assert ExtractFrom(j, p, visited, batches, max, encode) == ExtractFrom(j + 1, p, visited, batches, max, encode);
      } else {
        var b := batches[BatchFiles[j]];
        ScanBatchTally(p, j, b, Pairs(b), max, encode);
        var q := ScanBatch(p, BatchFiles[j], b, Pairs(b), max, encode);
        if AllFull(q.counters, max) {
          assert ExtractFrom(j, p, visited, batches, max, encode).progress == q;
        } else {
          TallyAdvance(q, j, Pairs(b));
          ExtractFromTally(j + 1, q, visited + [j], batches, max, encode);
          assert ExtractFrom(j, p, visited, batches, max, encode) == ExtractFrom(j + 1, q, visited + [j], batches, max, encode);
        }
      }
    }
  }

  function EmptyFolders(): (f: seq<Dir>)
    ensures |f| == 10 && forall c :: 0 <= c < 10 ==> f[c] == map[]
  {
    seq(10, _ => map[])
  }

  /** Starting from empty class folders, no saved image overwrites another: each folder ends up
      with exactly as many files as its class counter (and `total_extracted`) reports. */
  lemma FolderSizesMatchCounters(batches: map<string, Batch>, max: int, encode: Bytes -> Bytes)
    ensures var r := Extract(batches, max, encode, EmptyFolders());
      forall c :: 0 <= c < 10 ==> |r.progress.folders[c]| == r.progress.counters[c]
  {
    var p := Progress(NoCounts(), EmptyFolders());
    assert Tally(p, 0, 0);
    ExtractFromTally(0, p, [], batches, max, encode);
    assert Extract(batches, max, encode, EmptyFolders()) == ExtractFrom(0, p, [], batches, max, encode);
  }

  /** `f"cifar_{cifar_class}_{i+1:03d}.jpg"` for the i-th (0-based) selected image. */
  function CifarName(cls: string, i: nat): string { "cifar_" + cls + "_" + Pad(i + 1, 3) + ".jpg" }

  function CifarNamer(cls: string): nat -> string { (i: nat) => CifarName(cls, i) }

  /** `list(class_path.glob('*.jpg'))`. */
  function ClassImages(f: Folder): seq<string> { Glob(f.listing, ".jpg") }

  /** What `select_objects_from_cifar` works on: the class folders found under the extraction
      folder, keyed by class name, the positions `random.sample` picks in each, and
      `images_per_class`. */
  datatype SelectInput = SelectInput(extracted: map<string, Folder>, draws: map<string, seq<nat>>, perClass: nat)

  /** `num_to_select` of a class: `min(images_per_class, total_available)`, and 0 for a class
      whose folder is missing (or empty). */
  function Taken(s: SelectInput, cls: string): (n: nat)
    ensures n <= s.perClass
  {
    if cls !in s.extracted then 0
    else Min(s.perClass, |ClassImages(s.extracted[cls])|)
  }

  /** The folder of `cls` is listed, and `draws` holds the positions `random.sample` picks from it. */
  predicate ClassReady(s: SelectInput, cls: string)
    requires cls in s.extracted
  {
    && ValidFolder(s.extracted[cls])
    && cls in s.draws
    && IsDraw(s.draws[cls], |ClassImages(s.extracted[cls])|, Taken(s, cls))
  }

  /** Every class folder present is ready. */
  predicate Ready(s: SelectInput)
  {
    forall k :: 0 <= k < |ClassNames| && ClassNames[k] in s.extracted ==> ClassReady(s, ClassNames[k])
  }

  type ReadyInput = s: SelectInput | Ready(s) witness SelectInput(map[], map[], 0)

  /** The files one class contributes. */
  function ClassCopies(s: ReadyInput, k: nat): Dir
    requires k < |ClassNames|
  {
    var cls := ClassNames[k];
    if cls !in s.extracted || |ClassImages(s.extracted[cls])| == 0 then map[]
    else CopyNamed(s.extracted[cls].files, Select(ClassImages(s.extracted[cls]), s.draws[cls]), CifarNamer(cls), NeverFails())
  }

  /** The sum of `num_to_select` over the first `k` classes. */
  function TotalUpTo(s: SelectInput, k: nat): nat
    requires k <= |ClassNames|
  {
    if k == 0 then 0 else TotalUpTo(s, k - 1) + Taken(s, ClassNames[k - 1])
  }

  /** The destination after the first `k` classes. */
  function DestUpTo(s: ReadyInput, dest0: Dir, k: nat): Dir
    requires k <= |ClassNames|
  {
    if k == 0 then dest0 else DestUpTo(s, dest0, k - 1) + ClassCopies(s, k - 1)
  }

  /** `select_objects_from_cifar`: returns `total_copied` and the destination folder. */
  method SelectObjects(s: ReadyInput, dest0: Dir) returns (total: nat, dest: Dir)
    ensures total == TotalUpTo(s, |ClassNames|)
    ensures dest == DestUpTo(s, dest0, |ClassNames|)
  {
    total, dest := 0, dest0;
    for k := 0 to |ClassNames|
      invariant total == TotalUpTo(s, k)
      invariant dest == DestUpTo(s, dest0, k)
    {
      var cls := ClassNames[k];
      if cls !in s.extracted {
        continue;
      }
      var images := ClassImages(s.extracted[cls]);
      if |images| == 0 {
        continue;
      }
      var num := Min(s.perClass, |images|);
      var selected := Select(images, s.draws[cls]);
      var _, d := CopySelected(s.extracted[cls].files, selected, CifarNamer(cls), NeverFails(), dest);
      dest := d;
      total := total + num;
    }
  }

  /** At most `images_per_class` images per class. */
  lemma TotalBound(s: SelectInput, k: nat)
    requires k <= |ClassNames|
    ensures TotalUpTo(s, k) <= k * s.perClass
  {
    var i := 0;
    while i < k
      invariant i <= k && TotalUpTo(s, i) <= i * s.perClass
    {
      assert TotalUpTo(s, i + 1) == TotalUpTo(s, i) + Taken(s, ClassNames[i]);
      assert (i + 1) * s.perClass == i * s.perClass + s.perClass;
      i := i + 1;
    }
  }

  lemma ClassNamesDistinct()
    ensures Distinct(ClassNames)
  {
    forall a, b | 0 <= a < b < |ClassNames| ensures ClassNames[a] != ClassNames[b] {
      var x, y := ClassNames[a], ClassNames[b];
      if x[0] == y[0] {
        assert x[1] != y[1] || |x| != |y|;
      }
    }
  }

  /** The name `cifar_<class>_NNN.jpg` determines the class and the number. */
  lemma CifarNameInjective(c1: string, i1: nat, c2: string, i2: nat)
    ensures CifarName(c1, i1) == CifarName(c2, i2) ==> c1 == c2 && i1 == i2
  {
    if CifarName(c1, i1) == CifarName(c2, i2) {
      JpgIsSafe();
      NumberedNameInjective("cifar_" + c1, i1 + 1, ".jpg", "cifar_" + c2, i2 + 1, ".jpg", 3);
      assert c1 == ("cifar_" + c1)[6..];
      assert c2 == ("cifar_" + c2)[6..];
    }
  }

  lemma CifarNamerInjective(cls: string, n: nat)
    ensures InjectiveBelow(CifarNamer(cls), n)
  {
    forall a: nat, b: nat | a < n && b < n && CifarNamer(cls)(a) == CifarNamer(cls)(b) ensures a == b {
      CifarNameInjective(cls, a, cls, b);
    }
  }

  /** The sampled images of a listed folder are files of that folder. */
  lemma SampledInFolder(f: Folder, d: seq<nat>, n: nat)
    requires ValidFolder(f) && IsDraw(d, |ClassImages(f)|, n)
    ensures forall i :: 0 <= i < |d| ==> Select(ClassImages(f), d)[i] in f.files
  {
    var images := ClassImages(f);
    FilterMembers(f.listing, (name: string) => EndsWith(name, ".jpg"));
    forall i | 0 <= i < |d| ensures Select(images, d)[i] in f.files {
      assert images[d[i]] in images;
    }
  }

  /** A class that is present and not empty contributes exactly `cifar_<class>_001.jpg` up to
      `cifar_<class>_<num_to_select>.jpg`; a missing or empty class contributes nothing. */
  lemma ClassCopiesKeys(s: ReadyInput, k: nat)
    requires k < |ClassNames|
    ensures var cls := ClassNames[k];
      forall x :: x in ClassCopies(s, k) <==> exists i :: 0 <= i < Taken(s, cls) && x == CifarNamer(cls)(i)
  {
    var cls := ClassNames[k];
    if cls in s.extracted && |ClassImages(s.extracted[cls])| > 0 {
      var f := s.extracted[cls];
      var d := s.draws[cls];
      var sel := Select(ClassImages(f), d);
      CifarNamerInjective(cls, |sel|);
      SampledInFolder(f, d, |d|);
      CopyNamedExact(f.files, sel, CifarNamer(cls), NeverFails());
    }
  }

  /** Each of those names holds a copy of a distinct sampled image, so the class writes
      `num_to_select` files. */
  lemma ClassCopiesCount(s: ReadyInput, k: nat)
    requires k < |ClassNames|
    ensures |ClassCopies(s, k)| == Taken(s, ClassNames[k])
  {
    var cls := ClassNames[k];
    if cls in s.extracted && |ClassImages(s.extracted[cls])| > 0 {
      var f := s.extracted[cls];
      var d := s.draws[cls];
      var sel := Select(ClassImages(f), d);
      CifarNamerInjective(cls, |sel|);
      SampledInFolder(f, d, |d|);
      CopyNamedExact(f.files, sel, CifarNamer(cls), NeverFails());
      CountOkAll(f.files, sel, CifarNamer(cls), NeverFails());
    }
  }

  /** Reading a copy's name back: the class between `cifar_` and the last underscore. */
  function ClassOf(x: string): string
  {
    var u := RFind(x, '_');
    if u < 6 then "" else x[6..u]
  }

  lemma CifarNameParse(cls: string, i: nat)
    ensures ClassOf(CifarName(cls, i)) == cls
  {
    var p := "cifar_" + cls;
    var t := Pad(i + 1, 3) + ".jpg";
    assert CifarName(cls, i) == p + "_" + t;
    JpgIsSafe();
    PadHasNoUnderscore(i + 1, 3);
    assert '_' !in t;
    LastUnderscoreAt(p, t);
    assert (p + "_" + t)[6..|p|] == cls;
  }

  /** Position of `name` in the class list, `|ClassNames|` when it is not a class. */
  function ClassIndex(name: string): (k: nat)
    ensures k <= |ClassNames| && (k < |ClassNames| ==> ClassNames[k] == name)
  {
    IndexIn(ClassNames, name)
  }

  lemma ClassIndexOf(k: nat)
    requires k < |ClassNames|
    ensures ClassIndex(ClassNames[k]) == k
  {
    ClassNamesDistinct();
  }

  /** Every file of `d` is named for one of the first `k` classes. */
  predicate FromClassesBelow(d: Dir, k: nat)
  {
    forall x :: x in d ==> ClassIndex(ClassOf(x)) < k
  }

  /** All the names class `k` writes are named for class `k`. */
  lemma ClassCopiesOwned(s: ReadyInput, k: nat)
    requires k < |ClassNames|
    ensures forall x :: x in ClassCopies(s, k) ==> ClassIndex(ClassOf(x)) == k
  {
    var cls := ClassNames[k];
    ClassCopiesKeys(s, k);
    ClassIndexOf(k);
    forall x | x in ClassCopies(s, k) ensures ClassIndex(ClassOf(x)) == k {
      var i :| 0 <= i < Taken(s, cls) && x == CifarNamer(cls)(i);
      CifarNameParse(cls, i);
    }
  }

  /** Class `k` writes no name an earlier class wrote. */
  lemma ClassCopiesAreNew(s: ReadyInput, a: Dir, k: nat)
    requires k < |ClassNames| && FromClassesBelow(a, k)
    ensures a.Keys !! ClassCopies(s, k).Keys
  {
    ClassCopiesOwned(s, k);
  }

  lemma ClassCopiesExtend(s: ReadyInput, a: Dir, k: nat)
    requires k < |ClassNames| && FromClassesBelow(a, k)
    ensures FromClassesBelow(a + ClassCopies(s, k), k + 1)
  {
    ClassCopiesOwned(s, k);
  }

  lemma UpToSnoc(s: ReadyInput, k: nat)
    requires 0 < k <= |ClassNames|
    ensures DestUpTo(s, map[], k) == DestUpTo(s, map[], k - 1) + ClassCopies(s, k - 1)
    ensures TotalUpTo(s, k) == TotalUpTo(s, k - 1) + Taken(s, ClassNames[k - 1])
  {
  }

  /** After the first `k` classes, every file written belongs to one of them. */
  lemma DestUpToFrom(s: ReadyInput, k: nat)
    requires k <= |ClassNames|
    ensures FromClassesBelow(DestUpTo(s, map[], k), k)
  {
    assert DestUpTo(s, map[], 0) == map[];
    var i := 0;
    while i < k
      invariant i <= k && FromClassesBelow(DestUpTo(s, map[], i), i)
    {
      UpToSnoc(s, i + 1);
      ClassCopiesExtend(s, DestUpTo(s, map[], i), i);
      i := i + 1;
    }
  }

  lemma NextClassIsNew(s: ReadyInput, k: nat)
    requires k < |ClassNames|
    ensures DestUpTo(s, map[], k).Keys !! ClassCopies(s, k).Keys
  {
    DestUpToFrom(s, k);
    ClassCopiesAreNew(s, DestUpTo(s, map[], k), k);
  }

  /** One more class, which writes as many files as it takes and none that earlier classes
      wrote, adds them all. */
  lemma SizeStep(s: ReadyInput, k: nat)
    requires k < |ClassNames|
    requires |DestUpTo(s, map[], k)| == TotalUpTo(s, k)
    ensures |DestUpTo(s, map[], k + 1)| == TotalUpTo(s, k + 1)
  {
    ClassCopiesCount(s, k);
    NextClassIsNew(s, k);
    DisjointUnionSize(DestUpTo(s, map[], k), ClassCopies(s, k));
  }

  /** Into an empty destination, the returned `total_copied` is the number of files written:
      no copy overwrites another, across classes or within one. */
  lemma TotalCountsFiles(s: ReadyInput)
    ensures |DestUpTo(s, map[], |ClassNames|)| == TotalUpTo(s, |ClassNames|)
  {
    assert DestUpTo(s, map[], 0) == map[];
    var i := 0;
    while i < |ClassNames|
      invariant i <= |ClassNames| && |DestUpTo(s, map[], i)| == TotalUpTo(s, i)
    {
      SizeStep(s, i);
      i := i + 1;
    }
  }
}
