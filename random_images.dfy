/**
 * scripts/random_images.py: sampling the dinosaur species folders into
 * `data/raw/dinosaur`, over a fixed list of fifteen species, and the guard in
 * `main` that refuses to run while the source path is still the placeholder.
 *
 * The source folder is a map from subfolder name to folder; a species whose
 * folder does not exist is not in the map.
 */
module RandomImages {
  import opened Sampling
  import opened Files
  import opened Selection

  const SpeciesFolders: seq<string> := [
    "Ankylosaurus", "Brachiosaurus", "Compsognathus", "Corythosaurus", "Dilophosaurus",
    "Dimorphodon", "Gallimimus", "Microceratus", "Pachycephalosaurus", "Parasaurolophus",
    "Spinosaurus", "Stegosaurus", "Triceratops", "Tyrannosaurus_Rex", "Velociraptor"]

  /** `select_random_images`: returns `total_copied`, `stats` and the destination folder. */
  method SelectRandomImages(source: map<string, Folder>, draws: map<string, seq<nat>>, imagesPerSpecies: nat,
                            ok: (string, string) -> bool, dest0: Dir)
    returns (totalCopied: nat, stats: map<string, Stat>, dest: Dir)
    requires Ready(Input(source, draws, imagesPerSpecies, ok, SpeciesFolders))
    ensures var s := Input(source, draws, imagesPerSpecies, ok, SpeciesFolders);
      && stats == StatsUpTo(s, |SpeciesFolders|)
      && totalCopied == TotalUpTo(s, |SpeciesFolders|)
      && dest == DestUpTo(s, dest0, |SpeciesFolders|)
  {
    var s: ReadyInput := Input(source, draws, imagesPerSpecies, ok, SpeciesFolders);
    totalCopied, stats, dest := 0, map[], dest0;
    for t := 0 to |SpeciesFolders|
      invariant stats == StatsUpTo(s, t)
      invariant totalCopied == TotalUpTo(s, t)
      invariant dest == DestUpTo(s, dest0, t)
    {
      var species := SpeciesFolders[t];
      VisitStep(s, dest0, t);
      if species !in source {
        SkippedStep(s, dest0, t);
        continue;
      }
      var entry, d := SampleFolder(source, draws, imagesPerSpecies, ok, species, dest);
      dest := d;
      if entry.None? {
        continue;
      }
      stats := stats[species := entry.value];
      totalCopied := totalCopied + entry.value.copied;
    }
  }

  lemma SpeciesFoldersDistinct()
    ensures Distinct(SpeciesFolders)
  {
    forall a, b | 0 <= a < b < |SpeciesFolders| ensures SpeciesFolders[a] != SpeciesFolders[b] {
      var x, y := SpeciesFolders[a], SpeciesFolders[b];
      if x[0] == y[0] {
        assert x[1] != y[1] || x[2] != y[2] || x[3] != y[3];
      }
    }
  }

  /** Only the fifteen species get entries, each exactly when its folder exists and holds
      images; the entries add up to `total_copied`; and into an empty destination that total
      is the number of files written. */
  lemma SelectionSummary(source: map<string, Folder>, draws: map<string, seq<nat>>, imagesPerSpecies: nat,
                         ok: (string, string) -> bool)
    requires Ready(Input(source, draws, imagesPerSpecies, ok, SpeciesFolders))
    ensures var s := Input(source, draws, imagesPerSpecies, ok, SpeciesFolders);
      var stats := StatsUpTo(s, |SpeciesFolders|);
      && (forall x :: x in stats <==> x in SpeciesFolders && !Skipped(source, x))
      && TotalUpTo(s, |SpeciesFolders|) == SumCopied(stats, SpeciesFolders)
      && |DestUpTo(s, map[], |SpeciesFolders|)| == TotalUpTo(s, |SpeciesFolders|)
  {
    var s: ReadyInput := Input(source, draws, imagesPerSpecies, ok, SpeciesFolders);
    SpeciesFoldersDistinct();
    var n := |SpeciesFolders|;
    assert SpeciesFolders[..n] == SpeciesFolders;
    StatsUpToEntries(s, n);
    TotalIsSumOfStats(s, n);
    TotalCountsFiles(s);
  }

  /** `SOURCE_PATH` as shipped, and the placeholder `main` compares it with: the same text. */
  const SourcePath: string := "/Users/aryahb/IsItADino/is-it-a-dino/data/dinosaur_dataset"
  const PlaceholderPath: string := "/Users/aryahb/IsItADino/is-it-a-dino/data/dinosaur_dataset"
  const ImagesPerSpecies: nat := 50

  /** The condition under which `main` prints its instructions and returns. */
  predicate Refuses(sourcePath: string, sourceExists: bool)
  {
    !sourceExists || sourcePath == PlaceholderPath
  }

  /** `main`, for a given value of `SOURCE_PATH`: either it refuses, or it runs the selection
      with 50 images per species. */
  method RunMain(sourcePath: string, sourceExists: bool, source: map<string, Folder>, draws: map<string, seq<nat>>,
                 ok: (string, string) -> bool, dest0: Dir)
    returns (ran: bool, dest: Dir)
    requires !Refuses(sourcePath, sourceExists) ==> Ready(Input(source, draws, ImagesPerSpecies, ok, SpeciesFolders))
    ensures ran <==> !Refuses(sourcePath, sourceExists)
    ensures ran ==> dest == DestUpTo(Input(source, draws, ImagesPerSpecies, ok, SpeciesFolders), dest0, |SpeciesFolders|)
    ensures !ran ==> dest == dest0
  {
    if !sourceExists || sourcePath == PlaceholderPath {
      return false, dest0;
    }
    var _, _, d := SelectRandomImages(source, draws, ImagesPerSpecies, ok, dest0);
    return true, d;
  }

  /** As shipped, `SOURCE_PATH` is the placeholder itself, so `main` always refuses, whether
      or not the folder exists, and never selects anything. */
  lemma ShippedMainRefuses(sourceExists: bool)
    ensures Refuses(SourcePath, sourceExists)
  {
  }
}
