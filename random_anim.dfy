/**
 * scripts/random_anim.py: the same per-folder sampling as scripts/random_images.py,
 * but over the subdirectories found in the source folder (the Animals-10 classes)
 * instead of a fixed list, with a `stats` record that keeps only the totals and
 * the copies.
 */
module RandomAnim {
  import opened Sampling
  import opened Files
  import opened Selection

  /** The source folder: the names `iterdir` yields, in its order, and those of them that are
      directories, with their contents. */
  datatype Root = Root(entries: seq<string>, dirs: map<string, Folder>)

  predicate ValidRoot(r: Root)
  {
    Distinct(r.entries) && forall name :: name in r.dirs ==> name in r.entries
  }

  /** `[f.name for f in Path(source_path).iterdir() if f.is_dir()]`. */
  function SpeciesFolders(r: Root): seq<string>
  {
    Filter(r.entries, (name: string) => name in r.dirs)
  }

  /** The folders visited are exactly the subdirectories, each once. */
  lemma SpeciesFoldersExact(r: Root)
    requires ValidRoot(r)
    ensures forall name :: name in SpeciesFolders(r) <==> name in r.dirs
    ensures Distinct(SpeciesFolders(r))
  {
    FilterMembers(r.entries, (name: string) => name in r.dirs);
    FilterDistinct(r.entries, (name: string) => name in r.dirs);
  }

  lemma FolderIsDir(r: Root, t: nat)
    requires t < |SpeciesFolders(r)|
    ensures SpeciesFolders(r)[t] in r.dirs
  {
    FilterMembers(r.entries, (name: string) => name in r.dirs);
    assert SpeciesFolders(r)[t] in SpeciesFolders(r);
  }

  /** `stats[species]` here: images found and copies that went through. */
  datatype AnimStat = AnimStat(total: nat, copied: nat)

  function Brief(stats: map<string, Stat>): (r: map<string, AnimStat>)
    ensures r.Keys == stats.Keys
    ensures forall x :: x in r ==> r[x] == AnimStat(stats[x].total, stats[x].copied)
  {
    map x | x in stats :: AnimStat(stats[x].total, stats[x].copied)
  }

  lemma BriefUpdate(stats: map<string, Stat>, x: string, v: Stat)
    ensures Brief(stats[x := v]) == Brief(stats)[x := AnimStat(v.total, v.copied)]
  {
  }

  /** `select_random_images`: returns `total_copied`, `stats` and the destination folder. */
  method SelectRandomImages(root: Root, draws: map<string, seq<nat>>, imagesPerClass: nat,
                            ok: (string, string) -> bool, dest0: Dir)
    returns (totalCopied: nat, stats: map<string, AnimStat>, dest: Dir)
    requires ValidRoot(root) && Ready(Input(root.dirs, draws, imagesPerClass, ok, SpeciesFolders(root)))
    ensures var s := Input(root.dirs, draws, imagesPerClass, ok, SpeciesFolders(root));
      var n := |SpeciesFolders(root)|;
      && stats == Brief(StatsUpTo(s, n))
      && totalCopied == TotalUpTo(s, n)
      && dest == DestUpTo(s, dest0, n)
  {
    var speciesFolders := SpeciesFolders(root);
    var s: ReadyInput := Input(root.dirs, draws, imagesPerClass, ok, speciesFolders);
    totalCopied, stats, dest := 0, map[], dest0;
    ghost var full: map<string, Stat> := map[];
    for t := 0 to |speciesFolders|
      invariant full == StatsUpTo(s, t)
      invariant stats == Brief(full)
      invariant totalCopied == TotalUpTo(s, t)
      invariant dest == DestUpTo(s, dest0, t)
    {
      var species := speciesFolders[t];
      FolderIsDir(root, t);
      VisitStep(s, dest0, t);
      var entry, d := SampleFolder(root.dirs, draws, imagesPerClass, ok, species, dest);
      dest := d;
      if entry.None? {
        continue;
      }
      BriefUpdate(full, species, entry.value);
      full := full[species := entry.value];
      stats := stats[species := AnimStat(entry.value.total, entry.value.copied)];
      totalCopied := totalCopied + entry.value.copied;
    }
  }

  /** Each subdirectory gets an entry exactly when it holds images, the entries add up to
      `total_copied`, and into an empty destination that total is the number of files written. */
  lemma SelectionSummary(root: Root, draws: map<string, seq<nat>>, imagesPerClass: nat, ok: (string, string) -> bool)
    requires ValidRoot(root) && Ready(Input(root.dirs, draws, imagesPerClass, ok, SpeciesFolders(root)))
    ensures var names := SpeciesFolders(root);
      var s := Input(root.dirs, draws, imagesPerClass, ok, names);
      var stats := StatsUpTo(s, |names|);
      && (forall x :: x in stats <==> x in root.dirs && |FolderImages(root.dirs[x])| > 0)
      && TotalUpTo(s, |names|) == SumCopied(stats, names)
      && |DestUpTo(s, map[], |names|)| == TotalUpTo(s, |names|)
  {
    var names := SpeciesFolders(root);
    var s: ReadyInput := Input(root.dirs, draws, imagesPerClass, ok, names);
    SpeciesFoldersExact(root);
    assert names[..|names|] == names;
    StatsUpToEntries(s, |names|);
    TotalIsSumOfStats(s, |names|);
    TotalCountsFiles(s);
  }

  const ImagesPerClass: nat := 50

  /** `main`: returns without selecting when the source folder is missing (`root` is `None`),
      otherwise selects 50 images per class. */
  method RunMain(root: Option<Root>, draws: map<string, seq<nat>>, ok: (string, string) -> bool, dest0: Dir)
    returns (ran: bool, dest: Dir)
    requires root.Some? ==> ValidRoot(root.value) && Ready(Input(root.value.dirs, draws, ImagesPerClass, ok, SpeciesFolders(root.value)))
    ensures ran <==> root.Some?
    ensures ran ==> var names := SpeciesFolders(root.value);
      dest == DestUpTo(Input(root.value.dirs, draws, ImagesPerClass, ok, names), dest0, |names|)
    ensures !ran ==> dest == dest0
  {
    if root.None? {
      return false, dest0;
    }
    var _, _, d := SelectRandomImages(root.value, draws, ImagesPerClass, ok, dest0);
    return true, d;
  }
}
