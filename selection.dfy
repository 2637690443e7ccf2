/**
 * The per-folder sampling that scripts/random_images.py and scripts/random_anim.py
 * share: for each named folder, collect its images with the six glob patterns, skip
 * it when it is missing or holds no image, otherwise sample `min(k, total)` of them
 * without replacement and copy the i-th as `<folder>_<i+1:03d><suffix>`. A copy that
 * raises is caught and not counted. Per folder a record of the counts is kept, and
 * the copies that went through add up to the total.
 */
module Selection {
  import opened Text
  import opened Sampling
  import opened Files

  /** `stats[species]`: images found, images sampled, copies that went through. */
  datatype Stat = Stat(total: nat, selected: nat, copied: nat)

  /** `f"{species}_{i+1:03d}{suffix}"`. */
  function SpeciesName(species: string, i: nat, suffix: string): string
  {
    species + "_" + Pad(i + 1, 3) + suffix
  }

  /** The new name of the i-th sampled file, which keeps that file's suffix. */
  function Namer(species: string, sel: seq<string>): nat -> string
  {
    (i: nat) => if i < |sel| then SpeciesName(species, i, Suffix(sel[i])) else species
  }

  /** A folder that is present is listed, and `draws` holds the positions `random.sample` picks. */
  predicate ReadyFor(source: map<string, Folder>, draws: map<string, seq<nat>>, k: nat, name: string)
  {
    name in source ==>
      && ValidFolder(source[name])
      && name in draws
      && IsDraw(draws[name], |FolderImages(source[name])|, Min(k, |FolderImages(source[name])|))
  }

  /** What a run of the selection works on: the source folders by name, the sampling draws,
      the per-folder count `k`, the copy oracle and the folder names in visiting order. */
  datatype Input = Input(source: map<string, Folder>, draws: map<string, seq<nat>>, k: nat,
                         ok: (string, string) -> bool, names: seq<string>)

  /** Every folder to be visited is ready. */
  predicate Ready(s: Input)
  {
    forall t :: 0 <= t < |s.names| ==> ReadyFor(s.source, s.draws, s.k, s.names[t])
  }

  type ReadyInput = s: Input | Ready(s) witness Input(map[], map[], 0, (a: string, b: string) => true, [])

  /** Whether the folder is skipped: missing, or without images. */
  predicate Skipped(source: map<string, Folder>, name: string)
  {
    name !in source || |FolderImages(source[name])| == 0
  }

  /** `selected_images` of a folder that is not skipped. */
  function Sample(source: map<string, Folder>, draws: map<string, seq<nat>>, k: nat, name: string): seq<string>
    requires ReadyFor(source, draws, k, name) && name in source
  {
    Select(FolderImages(source[name]), draws[name])
  }

  /** The entry a folder contributes to `stats`, if any. */
  function StatOf(source: map<string, Folder>, draws: map<string, seq<nat>>, k: nat, ok: (string, string) -> bool,
                  name: string): Option<Stat>
    requires ReadyFor(source, draws, k, name)
  {
    if Skipped(source, name) then None
    else
      var sel := Sample(source, draws, k, name);
      Some(Stat(|FolderImages(source[name])|, |sel|, CountOk(source[name].files, sel, Namer(name, sel), ok)))
  }

  /** The files a folder contributes to the destination. */
  function CopiesOf(source: map<string, Folder>, draws: map<string, seq<nat>>, k: nat, ok: (string, string) -> bool,
                    name: string): Dir
    requires ReadyFor(source, draws, k, name)
  {
    if Skipped(source, name) then map[]
    else
      var sel := Sample(source, draws, k, name);
      CopyNamed(source[name].files, sel, Namer(name, sel), ok)
  }

  /** `stats` after the first `n` folders. */
  function StatsUpTo(s: ReadyInput, n: nat): map<string, Stat>
    requires n <= |s.names|
  {
    if n == 0 then map[]
    else
      var stats := StatsUpTo(s, n - 1);
      var entry := StatOf(s.source, s.draws, s.k, s.ok, s.names[n - 1]);
      if entry.Some? then stats[s.names[n - 1] := entry.value] else stats
  }

  /** What a folder adds to `total_copied`. */
  function CopiedOf(source: map<string, Folder>, draws: map<string, seq<nat>>, k: nat, ok: (string, string) -> bool,
                    name: string): nat
    requires ReadyFor(source, draws, k, name)
  {
    var entry := StatOf(source, draws, k, ok, name);
    if entry.Some? then entry.value.copied else 0
  }

  /** `total_copied` after the first `n` folders. */
  function TotalUpTo(s: ReadyInput, n: nat): nat
    requires n <= |s.names|
  {
    if n == 0 then 0
    else TotalUpTo(s, n - 1) + CopiedOf(s.source, s.draws, s.k, s.ok, s.names[n - 1])
  }

  /** The destination after the first `n` folders. */
  function DestUpTo(s: ReadyInput, dest0: Dir, n: nat): Dir
    requires n <= |s.names|
  {
    if n == 0 then dest0
    else DestUpTo(s, dest0, n - 1) + CopiesOf(s.source, s.draws, s.k, s.ok, s.names[n - 1])
  }

  /** A skipped folder changes none of the accumulated results. */
  lemma SkippedStep(s: ReadyInput, dest0: Dir, t: nat)
    requires t < |s.names| && Skipped(s.source, s.names[t])
    ensures StatsUpTo(s, t + 1) == StatsUpTo(s, t)
    ensures TotalUpTo(s, t + 1) == TotalUpTo(s, t)
    ensures DestUpTo(s, dest0, t + 1) == DestUpTo(s, dest0, t)
  {
    assert StatOf(s.source, s.draws, s.k, s.ok, s.names[t]).None?;
    var d := DestUpTo(s, dest0, t);
    assert d + map[] == d;
  }

  /** Visiting folder `t` extends the three results by what that folder contributes. */
  lemma VisitStep(s: ReadyInput, dest0: Dir, t: nat)
    requires t < |s.names|
    ensures var entry := StatOf(s.source, s.draws, s.k, s.ok, s.names[t]);
      && StatsUpTo(s, t + 1) == (if entry.Some? then StatsUpTo(s, t)[s.names[t] := entry.value] else StatsUpTo(s, t))
      && TotalUpTo(s, t + 1) == TotalUpTo(s, t) + (if entry.Some? then entry.value.copied else 0)
      && DestUpTo(s, dest0, t + 1) == DestUpTo(s, dest0, t) + CopiesOf(s.source, s.draws, s.k, s.ok, s.names[t])
  {
  }

  /** The loop body of both scripts for one folder that exists: collect, skip if empty, sample, copy. */
  method SampleFolder(source: map<string, Folder>, draws: map<string, seq<nat>>, k: nat, ok: (string, string) -> bool,
                      name: string, dest0: Dir)
    returns (entry: Option<Stat>, dest: Dir)
    requires ReadyFor(source, draws, k, name) && name in source
    ensures entry == StatOf(source, draws, k, ok, name)
    ensures dest == dest0 + CopiesOf(source, draws, k, ok, name)
  {
    var f := source[name];
    var images := CollectImages(f.listing);
    var totalImages := |images|;
    if totalImages == 0 {
      return None, dest0;
    }
    var num := Min(k, totalImages);
    var selected := Select(images, draws[name]);
    var copied;
    copied, dest := CopySelected(f.files, selected, Namer(name, selected), ok, dest0);
    entry := Some(Stat(totalImages, num, copied));
  }

  /** What a recorded entry says: the images found, `min(k, total)` sampled, and at most that
      many copies. */
  lemma StatBounds(source: map<string, Folder>, draws: map<string, seq<nat>>, k: nat, ok: (string, string) -> bool,
                   name: string)
    requires ReadyFor(source, draws, k, name)
    ensures var entry := StatOf(source, draws, k, ok, name);
      entry.Some? <==> !Skipped(source, name)
    ensures var entry := StatOf(source, draws, k, ok, name);
      entry.Some? ==>
        && entry.value.total == |FolderImages(source[name])| > 0
        && entry.value.selected == Min(k, entry.value.total)
        && entry.value.copied <= entry.value.selected <= entry.value.total
  {
  }

  /** The sample has no repeated file, and every sampled file is an image of the folder. */
  lemma SampleDistinct(source: map<string, Folder>, draws: map<string, seq<nat>>, k: nat, name: string)
    requires ReadyFor(source, draws, k, name) && name in source
    ensures Distinct(Sample(source, draws, k, name))
    ensures forall i :: 0 <= i < |Sample(source, draws, k, name)| ==>
      var x := Sample(source, draws, k, name)[i];
      x in source[name].files && HasImageExtension(x)
  {
    var f := source[name];
    var images := FolderImages(f);
    CollectedDistinct(f.listing);
    CollectedMembers(f.listing);
    SelectDistinct(images, draws[name], |draws[name]|);
  }

  /** The name `<species>_NNN<suffix>` determines species and number, for the suffixes images have. */
  lemma SpeciesNameInjective(s1: string, i1: nat, e1: string, s2: string, i2: nat, e2: string)
    requires SafeSuffix(e1) && SafeSuffix(e2)
    ensures SpeciesName(s1, i1, e1) == SpeciesName(s2, i2, e2) ==> s1 == s2 && i1 == i2
  {
    if SpeciesName(s1, i1, e1) == SpeciesName(s2, i2, e2) {
      NumberedNameInjective(s1, i1 + 1, e1, s2, i2 + 1, e2, 3);
    }
  }

  /** The folder a generated name belongs to: everything before its last underscore. */
  function Owner(x: string): string
  {
    var u := RFind(x, '_');
    if u < 0 then x else x[..u]
  }

  lemma OwnerOfSpeciesName(species: string, i: nat, e: string)
    requires '_' !in e
    ensures Owner(SpeciesName(species, i, e)) == species
  {
    var t := Pad(i + 1, 3) + e;
    PadHasNoUnderscore(i + 1, 3);
    assert SpeciesName(species, i, e) == species + "_" + t;
    LastUnderscoreAt(species, t);
  }

  /** Files with image extensions get pairwise different new names. */
  lemma NamerInjective(name: string, sel: seq<string>)
    requires forall i :: 0 <= i < |sel| ==> HasImageExtension(sel[i])
    ensures InjectiveBelow(Namer(name, sel), |sel|)
  {
    var namer := Namer(name, sel);
    forall i | 0 <= i < |sel| ensures SafeSuffix(Suffix(sel[i])) {
      CollectedSuffix(sel[i]);
    }
    forall a: nat, b: nat | a < |sel| && b < |sel| && namer(a) == namer(b) ensures a == b {
      SpeciesNameInjective(name, a, Suffix(sel[a]), name, b, Suffix(sel[b]));
    }
  }

  /** Copies of image files under `Namer(name, sel)`: every one is owned by `name`, and
      there is one per copy that went through. */
  lemma NamedCopies(src: Dir, name: string, sel: seq<string>, ok: (string, string) -> bool)
    requires forall i :: 0 <= i < |sel| ==> HasImageExtension(sel[i])
    ensures forall x :: x in CopyNamed(src, sel, Namer(name, sel), ok) ==> Owner(x) == name
    ensures |CopyNamed(src, sel, Namer(name, sel), ok)| == CountOk(src, sel, Namer(name, sel), ok)
  {
    var namer := Namer(name, sel);
    NamerInjective(name, sel);
    CopyNamedExact(src, sel, namer, ok);
    forall x | x in CopyNamed(src, sel, namer, ok) ensures Owner(x) == name {
      var i :| 0 <= i < |sel| && Succeeds(src, sel[i], namer(i), ok) && x == namer(i);
      CollectedSuffix(sel[i]);
      OwnerOfSpeciesName(name, i, Suffix(sel[i]));
    }
  }

  /** A folder's copies are named `<folder>_001<suffix>` onwards, one per copy that went through. */
  lemma CopiesOfExact(source: map<string, Folder>, draws: map<string, seq<nat>>, k: nat, ok: (string, string) -> bool,
                      name: string)
    requires ReadyFor(source, draws, k, name)
    ensures forall x :: x in CopiesOf(source, draws, k, ok, name) ==> Owner(x) == name
    ensures |CopiesOf(source, draws, k, ok, name)| == CopiedOf(source, draws, k, ok, name)
  {
    if !Skipped(source, name) {
      SampleDistinct(source, draws, k, name);
      NamedCopies(source[name].files, name, Sample(source, draws, k, name), ok);
    }
  }

  /** What each folder contributes, in visiting order. */
  function Parts(s: ReadyInput, n: nat): (r: seq<Dir>)
    requires n <= |s.names|
    ensures |r| == n && forall t :: 0 <= t < n ==> r[t] == CopiesOf(s.source, s.draws, s.k, s.ok, s.names[t])
  {
    seq(n, t requires 0 <= t < n => CopiesOf(s.source, s.draws, s.k, s.ok, s.names[t]))
  }

  lemma UnionStep(s: ReadyInput, n: nat)
    requires n < |s.names|
    requires DestUpTo(s, map[], n) == UnionAll(Parts(s, n))
    ensures DestUpTo(s, map[], n + 1) == UnionAll(Parts(s, n + 1))
  {
    assert Parts(s, n + 1)[..n] == Parts(s, n);
  }

  /** Into an empty destination, the destination is the union of what the folders contribute. */
  lemma DestIsUnion(s: ReadyInput, n: nat)
    requires n <= |s.names|
    ensures DestUpTo(s, map[], n) == UnionAll(Parts(s, n))
  {
    assert Parts(s, 0) == [];
    var i := 0;
    while i < n
      invariant i <= n && DestUpTo(s, map[], i) == UnionAll(Parts(s, i))
    {
      UnionStep(s, i);
      i := i + 1;
    }
  }

  lemma SumStep(s: ReadyInput, n: nat)
    requires n < |s.names|
    requires TotalUpTo(s, n) == SumSizes(Parts(s, n))
    ensures TotalUpTo(s, n + 1) == SumSizes(Parts(s, n + 1))
  {
    assert Parts(s, n + 1)[..n] == Parts(s, n);
    CopiesOfExact(s.source, s.draws, s.k, s.ok, s.names[n]);
  }

  /** `total_copied` is the sum of the sizes of the folders' contributions. */
  lemma TotalIsSum(s: ReadyInput, n: nat)
    requires n <= |s.names|
    ensures TotalUpTo(s, n) == SumSizes(Parts(s, n))
  {
    assert Parts(s, 0) == [];
    var i := 0;
    while i < n
      invariant i <= n && TotalUpTo(s, i) == SumSizes(Parts(s, i))
    {
      SumStep(s, i);
      i := i + 1;
    }
  }

  /** Folders with different names write different files. */
  lemma PartsDisjoint(s: ReadyInput)
    requires Distinct(s.names)
    ensures var parts := Parts(s, |s.names|);
      forall i, j :: 0 <= i < j < |parts| ==> parts[i].Keys !! parts[j].Keys
  {
    var parts := Parts(s, |s.names|);
    forall i, j | 0 <= i < j < |parts| ensures parts[i].Keys !! parts[j].Keys {
      CopiesOfExact(s.source, s.draws, s.k, s.ok, s.names[i]);
      CopiesOfExact(s.source, s.draws, s.k, s.ok, s.names[j]);
    }
  }

  /** Into an empty destination, `total_copied` is the number of files written: no copy
      overwrites another, within a folder or across folders. */
  lemma TotalCountsFiles(s: ReadyInput)
    requires Distinct(s.names)
    ensures |DestUpTo(s, map[], |s.names|)| == TotalUpTo(s, |s.names|)
  {
    DestIsUnion(s, |s.names|);
    TotalIsSum(s, |s.names|);
    PartsDisjoint(s);
    UnionAllSize(Parts(s, |s.names|));
  }

  /** The `stats` entries after the first `n` folders: one for each visited folder that is
      not skipped, holding that folder's counts. */
  ghost predicate EntriesUpTo(s: ReadyInput, n: nat)
    requires n <= |s.names|
  {
    var stats := StatsUpTo(s, n);
    && (forall x :: x in stats <==> x in s.names[..n] && !Skipped(s.source, x))
    && (forall t :: 0 <= t < n && !Skipped(s.source, s.names[t]) ==>
          Some(stats[s.names[t]]) == StatOf(s.source, s.draws, s.k, s.ok, s.names[t]))
  }

  lemma EntriesStep(s: ReadyInput, n: nat)
    requires Distinct(s.names) && n < |s.names|
    requires EntriesUpTo(s, n)
    ensures EntriesUpTo(s, n + 1)
  {
    assert s.names[..n + 1] == s.names[..n] + [s.names[n]];
    assert s.names[n] !in s.names[..n];
  }

  /** A folder gets a `stats` entry exactly when it is visited and not skipped, and the entry
      is that folder's counts. */
  lemma StatsUpToEntries(s: ReadyInput, n: nat)
    requires Distinct(s.names) && n <= |s.names|
    ensures forall x :: x in StatsUpTo(s, n) <==> x in s.names[..n] && !Skipped(s.source, x)
    ensures forall t :: 0 <= t < n && !Skipped(s.source, s.names[t]) ==>
      Some(StatsUpTo(s, n)[s.names[t]]) == StatOf(s.source, s.draws, s.k, s.ok, s.names[t])
  {
    var i := 0;
    while i < n
      invariant i <= n && EntriesUpTo(s, i)
    {
      EntriesStep(s, i);
      i := i + 1;
    }
  }

  /** The sum of the `copied` values of the entries of `stats` under `keys`. */
  function SumCopied(stats: map<string, Stat>, keys: seq<string>): nat
  {
    if keys == [] then 0
    else
      var x := keys[|keys| - 1];
      SumCopied(stats, keys[..|keys| - 1]) + (if x in stats then stats[x].copied else 0)
  }

  lemma {:induction false} SumCopiedUpdate(stats: map<string, Stat>, keys: seq<string>, x: string, v: Stat)
    requires x !in keys
    ensures SumCopied(stats[x := v], keys) == SumCopied(stats, keys)
  {
    if keys != [] {
      SumCopiedUpdate(stats, keys[..|keys| - 1], x, v);
    }
  }

  lemma SumOfStatsStep(s: ReadyInput, n: nat)
    requires Distinct(s.names) && n < |s.names|
    requires TotalUpTo(s, n) == SumCopied(StatsUpTo(s, n), s.names[..n])
    requires forall x :: x in StatsUpTo(s, n) ==> x in s.names[..n]
    ensures TotalUpTo(s, n + 1) == SumCopied(StatsUpTo(s, n + 1), s.names[..n + 1])
  {
    var x := s.names[n];
    var prev := StatsUpTo(s, n);
    assert s.names[..n + 1][..n] == s.names[..n];
    assert x !in s.names[..n];
    var entry := StatOf(s.source, s.draws, s.k, s.ok, x);
    var stats := StatsUpTo(s, n + 1);
    assert SumCopied(stats, s.names[..n + 1]) == SumCopied(stats, s.names[..n]) + (if x in stats then stats[x].copied else 0);
    if entry.Some? {
      assert stats == prev[x := entry.value];
      SumCopiedUpdate(prev, s.names[..n], x, entry.value);
    } else {
      assert stats == prev;
    }
  }

  /** `total_copied` is the sum of the `copied` values over all `stats` entries (every entry is
      under one of the visited names, each visited once). */
  lemma TotalIsSumOfStats(s: ReadyInput, n: nat)
    requires Distinct(s.names) && n <= |s.names|
    ensures TotalUpTo(s, n) == SumCopied(StatsUpTo(s, n), s.names[..n])
  {
    var i := 0;
    while i < n
      invariant i <= n && TotalUpTo(s, i) == SumCopied(StatsUpTo(s, i), s.names[..i])
    {
      StatsUpToEntries(s, i);
      SumOfStatsStep(s, i);
      i := i + 1;
    }
  }
}
