/**
 * The file system as the scripts see it.
 *
 * A directory is a map from file name to content. The order in which
 * `os.listdir`, `Path.iterdir` and `Path.glob` enumerate a directory is not
 * specified by the operating system, so it is an input: a listing of the
 * directory's names, each exactly once. Globbing is modelled on a
 * case-sensitive file system, where `*.jpg` matches exactly the names that
 * end in `.jpg`.
 */
module Files {
  import opened Text
  import opened Sampling

  type Bytes = seq<bv8>
  type Dir = map<string, Bytes>

  datatype Option<T> = None | Some(value: T)

  /** `shutil.copy`/`copy2` of each named file of `src` into `dst` under its own name, in order
      (the copies are only ever asked for files that exist; a missing one would be left out). */
  function CopyAll(dst: Dir, src: Dir, names: seq<string>): Dir
  {
    if names == [] then dst
    else
      var last := names[|names| - 1];
      var d := CopyAll(dst, src, names[..|names| - 1]);
      if last in src then d[last := src[last]] else d
  }

  /** `for name in names: shutil.copy(src / name, dst / name)`. */
  method CopyFiles(dst: Dir, src: Dir, names: seq<string>) returns (d: Dir)
    requires forall i :: 0 <= i < |names| ==> names[i] in src
    ensures d == CopyAll(dst, src, names)
  {
    d := dst;
    for i := 0 to |names|
      invariant d == CopyAll(dst, src, names[..i])
    {
      assert names[..i + 1][..i] == names[..i];
      d := d[names[i] := src[names[i]]];
    }
    assert names[..|names|] == names;
  }

  /** A folder holding `contents[k]` under `name(k)` for every k, written in order. */
  function Numbered(contents: seq<Bytes>, name: nat -> string): Dir
  {
    if contents == [] then map[]
    else Numbered(contents[..|contents| - 1], name)[name(|contents| - 1) := contents[|contents| - 1]]
  }

  ghost predicate Injective(name: nat -> string)
  {
    forall j: nat, k: nat :: name(j) == name(k) ==> j == k
  }

  /** With an injective naming the folder holds exactly the names `name(0)` ... `name(n - 1)`,
      each with its own content: no write overwrites another. */
  lemma {:induction false} NumberedExact(contents: seq<Bytes>, name: nat -> string)
    requires Injective(name)
    ensures forall x :: x in Numbered(contents, name) <==> exists k :: 0 <= k < |contents| && x == name(k)
    ensures forall k :: 0 <= k < |contents| ==> Numbered(contents, name)[name(k)] == contents[k]
  {
    if contents != [] {
      var n := |contents| - 1;
      var init := contents[..n];
      NumberedExact(init, name);
      forall x | x in Numbered(contents, name) ensures exists k :: 0 <= k < |contents| && x == name(k) {
        if x != name(n) {
          var k :| 0 <= k < n && x == name(k);
          assert 0 <= k < |contents| && x == name(k);
        }
      }
      forall k | 0 <= k < |contents| ensures Numbered(contents, name)[name(k)] == contents[k] {
        if k < n {
          assert init[k] == contents[k];
        }
      }
    }
  }

  /** With an injective naming the folder holds one file per content. */
  lemma {:induction false} NumberedSize(contents: seq<Bytes>, name: nat -> string)
    requires Injective(name)
    ensures |Numbered(contents, name)| == |contents|
  {
    if contents != [] {
      var n := |contents| - 1;
      var init := contents[..n];
      NumberedSize(init, name);
      NumberedExact(init, name);
      assert name(n) !in Numbered(init, name);
    }
  }

  lemma UnionUpdate(a: Dir, b: Dir, k: string, v: Bytes)
    ensures (a + b)[k := v] == a + b[k := v]
  {
  }

  /** After the copies the destination holds its old files plus the copied ones,
      each copied name with the source's content. */
  lemma {:induction false} CopyAllContents(dst: Dir, src: Dir, names: seq<string>)
    requires forall i :: 0 <= i < |names| ==> names[i] in src
    ensures forall x :: x in CopyAll(dst, src, names) <==> x in dst || x in names
    ensures forall i :: 0 <= i < |names| ==> CopyAll(dst, src, names)[names[i]] == src[names[i]]
    ensures forall x :: x in dst && x !in names ==> CopyAll(dst, src, names)[x] == dst[x]
  {
    if names != [] {
      var init := names[..|names| - 1];
      CopyAllContents(dst, src, init);
      assert forall x :: x in names <==> x in init || x == names[|names| - 1];
    }
  }

  /** Copying distinct names into an empty folder writes one file per name. */
  lemma {:induction false} CopyAllSize(src: Dir, names: seq<string>)
    requires Distinct(names) && forall i :: 0 <= i < |names| ==> names[i] in src
    ensures |CopyAll(map[], src, names)| == |names|
  {
    if names != [] {
      var n := |names| - 1;
      var init := names[..n];
      assert forall i :: 0 <= i < n ==> init[i] == names[i];
      CopyAllSize(src, init);
      CopyAllContents(map[], src, init);
      assert names[n] !in init;
    }
  }

  /** Whether copying `f` out of `src` to `target` goes through: the file must exist and
      the copy oracle must not raise. */
  predicate Succeeds(src: Dir, f: string, target: string, ok: (string, string) -> bool)
  {
    f in src && ok(f, target)
  }

  /** What `for i, f in enumerate(sel): copy(src / f, dst / name(i))` writes, the i-th file
      under `name(i)`; a copy that does not go through writes nothing. */
  function CopyNamed(src: Dir, sel: seq<string>, name: nat -> string, ok: (string, string) -> bool): Dir
  {
    if sel == [] then map[]
    else
      var n := |sel| - 1;
      var d := CopyNamed(src, sel[..n], name, ok);
      if Succeeds(src, sel[n], name(n), ok) then d[name(n) := src[sel[n]]] else d
  }

  /** How many of those copies go through. */
  function CountOk(src: Dir, sel: seq<string>, name: nat -> string, ok: (string, string) -> bool): (c: nat)
    ensures c <= |sel|
  {
    if sel == [] then 0
    else
      var n := |sel| - 1;
      CountOk(src, sel[..n], name, ok) + (if Succeeds(src, sel[n], name(n), ok) then 1 else 0)
  }

  ghost predicate InjectiveBelow(name: nat -> string, n: nat)
  {
    forall j: nat, k: nat :: j < n && k < n && name(j) == name(k) ==> j == k
  }

  /** With names that do not collide, the copies hold exactly the successful files, each under
      its own name with its own content, and there are as many of them as copies went through. */
  lemma {:induction false} CopyNamedExact(src: Dir, sel: seq<string>, name: nat -> string, ok: (string, string) -> bool)
    requires InjectiveBelow(name, |sel|)
    ensures forall x :: x in CopyNamed(src, sel, name, ok) <==>
      exists i :: 0 <= i < |sel| && Succeeds(src, sel[i], name(i), ok) && x == name(i)
    ensures forall i :: 0 <= i < |sel| && Succeeds(src, sel[i], name(i), ok) ==>
      CopyNamed(src, sel, name, ok)[name(i)] == src[sel[i]]
    ensures |CopyNamed(src, sel, name, ok)| == CountOk(src, sel, name, ok)
  {
    if sel != [] {
      var n := |sel| - 1;
      var init := sel[..n];
      var d := CopyNamed(src, init, name, ok);
      assert InjectiveBelow(name, n);
      CopyNamedExact(src, init, name, ok);
      assert forall i :: 0 <= i < n ==> init[i] == sel[i];
      forall x | x in CopyNamed(src, sel, name, ok)
        ensures exists i :: 0 <= i < |sel| && Succeeds(src, sel[i], name(i), ok) && x == name(i)
      {
        if x != name(n) {
          var i :| 0 <= i < n && Succeeds(src, init[i], name(i), ok) && x == name(i);
          assert 0 <= i < |sel| && Succeeds(src, sel[i], name(i), ok);
        }
      }
      if Succeeds(src, sel[n], name(n), ok) {
        forall i | 0 <= i < n ensures name(i) != name(n) { }
        assert name(n) !in d;
      }
    }
  }

  /** The copy loop shared by the sampling scripts: copies the selected files of `src` into the
      destination, the i-th under `name(i)`, and counts the copies that go through. */
  method CopySelected(src: Dir, sel: seq<string>, name: nat -> string, ok: (string, string) -> bool, dest0: Dir)
    returns (copied: nat, dest: Dir)
    ensures copied == CountOk(src, sel, name, ok)
    ensures dest == dest0 + CopyNamed(src, sel, name, ok)
  {
    copied, dest := 0, dest0;
    for i := 0 to |sel|
      invariant copied == CountOk(src, sel[..i], name, ok)
      invariant dest == dest0 + CopyNamed(src, sel[..i], name, ok)
    {
      assert sel[..i + 1][..i] == sel[..i];
      if sel[i] in src && ok(sel[i], name(i)) {
        UnionUpdate(dest0, CopyNamed(src, sel[..i], name, ok), name(i), src[sel[i]]);
        dest := dest[name(i) := src[sel[i]]];
        copied := copied + 1;
      }
    }
    assert sel[..|sel|] == sel;
  }

  /** The copy oracle of a script whose `shutil.copy`/`copy2` is not guarded: a copy that
      raises ends the script, which is not modelled. */
  function NeverFails(): (string, string) -> bool { (_, _) => true }

  /** When no copy can fail, every selected file is copied. */
  lemma {:induction false} CountOkAll(src: Dir, sel: seq<string>, name: nat -> string, ok: (string, string) -> bool)
    requires forall i :: 0 <= i < |sel| ==> sel[i] in src && ok(sel[i], name(i))
    ensures CountOk(src, sel, name, ok) == |sel|
  {
    if sel != [] {
      var n := |sel| - 1;
      assert forall i :: 0 <= i < n ==> sel[..n][i] == sel[i];
      CountOkAll(src, sel[..n], name, ok);
    }
  }

  /** The files several writers leave in one folder, later writers winning. */
  function UnionAll(parts: seq<Dir>): Dir
  {
    if parts == [] then map[] else UnionAll(parts[..|parts| - 1]) + parts[|parts| - 1]
  }

  function SumSizes(parts: seq<Dir>): nat
  {
    if parts == [] then 0 else SumSizes(parts[..|parts| - 1]) + |parts[|parts| - 1]|
  }

  /** The folder holds the files some writer wrote. */
  lemma {:induction false} UnionAllKeys(parts: seq<Dir>)
    ensures forall x :: x in UnionAll(parts) <==> exists i :: 0 <= i < |parts| && x in parts[i]
  {
    if parts != [] {
      var n := |parts| - 1;
      var init := parts[..n];
      UnionAllKeys(init);
      forall x | x in UnionAll(parts) ensures exists i :: 0 <= i < |parts| && x in parts[i] {
        if x !in parts[n] {
          assert x in UnionAll(init) && |init| == n;
          var i :| 0 <= i < n && x in init[i];
          assert x in parts[i];
        }
      }
      forall x, i | 0 <= i < |parts| && x in parts[i] ensures x in UnionAll(parts) {
        if i < n {
          assert x in init[i];
        }
      }
    }
  }

  /** When no two writers use the same name, nothing is overwritten: the folder holds
      as many files as all writers together wrote. */
  lemma {:induction false} UnionAllSize(parts: seq<Dir>)
    requires forall i, j :: 0 <= i < j < |parts| ==> parts[i].Keys !! parts[j].Keys
    ensures |UnionAll(parts)| == SumSizes(parts)
  {
    if parts != [] {
      var n := |parts| - 1;
      var init := parts[..n];
      assert forall i, j :: 0 <= i < j < |init| ==> init[i] == parts[i] && init[j] == parts[j];
      UnionAllSize(init);
      var a := UnionAll(init);
      var b := parts[n];
      assert forall i :: 0 <= i < |init| ==> init[i].Keys !! b.Keys;
      UnionAllDisjoint(init, b);
      DisjointUnionSize(a, b);
      UnionAllSnoc(parts);
    }
  }

  lemma UnionAllSnoc(parts: seq<Dir>)
    requires parts != []
    ensures var n := |parts| - 1;
      && UnionAll(parts) == UnionAll(parts[..n]) + parts[n]
      && SumSizes(parts) == SumSizes(parts[..n]) + |parts[n]|
  {
  }

  lemma UnionAllDisjoint(parts: seq<Dir>, b: Dir)
    requires forall i :: 0 <= i < |parts| ==> parts[i].Keys !! b.Keys
    ensures UnionAll(parts).Keys !! b.Keys
  {
    UnionAllKeys(parts);
  }

  lemma DisjointUnionSize(a: Dir, b: Dir)
    requires a.Keys !! b.Keys
    ensures |a + b| == |a| + |b|
  {
    assert (a + b).Keys == a.Keys + b.Keys;
    assert |(a + b).Keys| == |a.Keys| + |b.Keys|;
  }

  datatype Folder = Folder(files: Dir, listing: seq<string>)

  predicate ValidFolder(f: Folder)
  {
    IsListing(f.listing, f.files)
  }

  /** `order` enumerates the names of `dir`, each exactly once. */
  predicate IsListing(order: seq<string>, dir: Dir)
  {
    && Distinct(order)
    && (forall i :: 0 <= i < |order| ==> order[i] in dir)
    && (forall name :: name in dir ==> name in order)
  }

  /** The six glob patterns `*.jpg`, `*.jpeg`, `*.png`, `*.JPG`, `*.JPEG`, `*.PNG`, by extension, in the order the scripts try them. */
  const GlobPatterns: seq<string> := [".jpg", ".jpeg", ".png", ".JPG", ".JPEG", ".PNG"]

  predicate HasImageExtension(name: string)
  {
    exists k :: 0 <= k < |GlobPatterns| && EndsWith(name, GlobPatterns[k])
  }

  /** `folder.glob("*" + ext)`: the listed names ending in `ext`, in listing order. */
  function Glob(listing: seq<string>, ext: string): seq<string>
  {
    Filter(listing, name => EndsWith(name, ext))
  }

  /** The results of the first `k` patterns, concatenated in pattern order. */
  function GlobAll(listing: seq<string>, k: nat): seq<string>
    requires k <= |GlobPatterns|
  {
    if k == 0 then [] else GlobAll(listing, k - 1) + Glob(listing, GlobPatterns[k - 1])
  }

  /** `image_files = []; for ext in patterns: image_files.extend(folder.glob(ext))`. */
  method CollectImages(listing: seq<string>) returns (files: seq<string>)
    ensures files == GlobAll(listing, |GlobPatterns|)
  {
    files := [];
    for k := 0 to |GlobPatterns|
      invariant files == GlobAll(listing, k)
    {
      var found := Glob(listing, GlobPatterns[k]);
      files := files + found;
    }
  }

  /** `image_files` of a folder: the six glob results, concatenated. */
  function FolderImages(f: Folder): seq<string> { GlobAll(f.listing, |GlobPatterns|) }

  /** A name matches at most one of the six patterns: the last two characters tell them apart. */
  lemma ExtensionsExclusive(name: string, i: nat, j: nat)
    requires i < j < |GlobPatterns|
    ensures !(EndsWith(name, GlobPatterns[i]) && EndsWith(name, GlobPatterns[j]))
  {
    if EndsWith(name, GlobPatterns[i]) && EndsWith(name, GlobPatterns[j]) {
      LastTwoDiffer(i, j);
      EndsWithLastTwo(name, i);
      EndsWithLastTwo(name, j);
    }
  }

  function LastTwo(s: string): (char, char)
    requires |s| >= 2
  {
    (s[|s| - 2], s[|s| - 1])
  }

  lemma EndsWithLastTwo(name: string, k: nat)
    requires k < |GlobPatterns| && EndsWith(name, GlobPatterns[k])
    ensures |name| >= 2 && LastTwo(name) == LastTwo(GlobPatterns[k])
  {
    var e := GlobPatterns[k];
    ExtensionShape(k);
    var n := |name|;
    assert name[n - |e|..][|e| - 1] == name[n - 1];
    assert name[n - |e|..][|e| - 2] == name[n - 2];
  }

  lemma LastTwoDiffer(i: nat, j: nat)
    requires i < j < |GlobPatterns|
    ensures |GlobPatterns[i]| >= 2 && |GlobPatterns[j]| >= 2
    ensures LastTwo(GlobPatterns[i]) != LastTwo(GlobPatterns[j])
  {
    var t := [('p', 'g'), ('e', 'g'), ('n', 'g'), ('P', 'G'), ('E', 'G'), ('N', 'G')];
    assert forall k :: 0 <= k < 6 ==> |GlobPatterns[k]| >= 2 && LastTwo(GlobPatterns[k]) == t[k];
  }

  lemma {:induction false} GlobAllMembers(listing: seq<string>, k: nat)
    requires k <= |GlobPatterns|
    ensures forall name :: name in GlobAll(listing, k) <==>
      name in listing && exists e :: 0 <= e < k && EndsWith(name, GlobPatterns[e])
  {
    if k > 0 {
      GlobAllMembers(listing, k - 1);
      FilterMembers(listing, name => EndsWith(name, GlobPatterns[k - 1]));
    }
  }

  /** The collected images are exactly the listed names carrying an image extension. */
  lemma CollectedMembers(listing: seq<string>)
    ensures forall name :: name in GlobAll(listing, |GlobPatterns|) <==>
      name in listing && HasImageExtension(name)
  {
    GlobAllMembers(listing, |GlobPatterns|);
  }

  lemma DistinctConcat<T>(a: seq<T>, b: seq<T>)
    requires Distinct(a) && Distinct(b)
    requires forall i, j :: 0 <= i < |a| && 0 <= j < |b| ==> a[i] != b[j]
    ensures Distinct(a + b)
  {
  }

  lemma {:induction false} GlobAllDistinct(listing: seq<string>, k: nat)
    requires k <= |GlobPatterns| && Distinct(listing)
    ensures Distinct(GlobAll(listing, k))
  {
    if k > 0 {
      GlobAllDistinct(listing, k - 1);
      GlobAllMembers(listing, k - 1);
      var a := GlobAll(listing, k - 1);
      var b := Glob(listing, GlobPatterns[k - 1]);
      FilterDistinct(listing, name => EndsWith(name, GlobPatterns[k - 1]));
      FilterMembers(listing, name => EndsWith(name, GlobPatterns[k - 1]));
      forall i, j | 0 <= i < |a| && 0 <= j < |b| ensures a[i] != b[j] {
        assert a[i] in a;
        var e :| 0 <= e < k - 1 && EndsWith(a[i], GlobPatterns[e]);
        ExtensionsExclusive(a[i], e, k - 1);
        assert b[j] in b;
      }
      DistinctConcat(a, b);
    }
  }

  /** On a duplicate-free listing the collected list has no duplicates, although six globs feed it. */
  lemma CollectedDistinct(listing: seq<string>)
    requires Distinct(listing)
    ensures Distinct(GlobAll(listing, |GlobPatterns|))
  {
    GlobAllDistinct(listing, |GlobPatterns|);
  }

  /** The suffixes a collected image can have: digit-free and underscore-free. */
  predicate SafeSuffix(s: string)
  {
    NoDigits(s) && '_' !in s
  }

  /** `Path(name).suffix` of a collected image is its extension (or empty for a bare `.jpg`),
      so it holds neither digits nor underscores. */
  lemma CollectedSuffix(name: string)
    requires HasImageExtension(name)
    ensures Suffix(name) == "" || Suffix(name) in GlobPatterns
    ensures SafeSuffix(Suffix(name))
  {
    var k :| 0 <= k < |GlobPatterns| && EndsWith(name, GlobPatterns[k]);
    ExtensionSuffix(name, k);
  }

  lemma ExtensionSuffix(name: string, k: nat)
    requires k < |GlobPatterns| && EndsWith(name, GlobPatterns[k])
    ensures Suffix(name) == "" || Suffix(name) == GlobPatterns[k]
    ensures SafeSuffix(Suffix(name))
  {
    var e := GlobPatterns[k];
    ExtensionShape(k);
    SuffixOfExtension(name, e);
  }

  lemma ExtensionShape(k: nat)
    requires k < |GlobPatterns|
    ensures var e := GlobPatterns[k]; |e| >= 2 && e[0] == '.' && '.' !in e[1..] && SafeSuffix(e)
  {
    var e := GlobPatterns[k];
    assert e == ".jpg" || e == ".jpeg" || e == ".png" || e == ".JPG" || e == ".JPEG" || e == ".PNG";
  }
}
