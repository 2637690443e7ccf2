/**
 * scripts/random_faces.py: copy a random sample of the images of one folder into a
 * target folder, each under its own file name. The function returns early, doing
 * nothing more, when the source folder is missing or holds no image; the target folder
 * is created only once the source has been found.
 */
module RandomFaces {
  import opened Sampling
  import opened Files

  /** How `copy_random_faces` ends: at one of its two early returns, or after copying. */
  datatype Outcome = SourceMissing | NoImages | Copied(count: nat)

  /** `random.sample(image_files, min(sample_size, total))` is described by `draw`. */
  predicate DrawFor(source: Folder, draw: seq<nat>, sampleSize: nat)
  {
    IsDraw(draw, |FolderImages(source)|, Min(sampleSize, |FolderImages(source)|))
  }

  /** `target / img_path.name`: the i-th sampled file keeps its name. */
  function SameName(sel: seq<string>): nat -> string
  {
    (i: nat) => if i < |sel| then sel[i] else ""
  }

  /** `target.mkdir(parents=True, exist_ok=True)`: an existing target keeps its files,
      a missing one starts empty. */
  function Created(target: Option<Dir>): Dir
  {
    if target.Some? then target.value else map[]
  }

  /** `copy_random_faces`. `source` is `None` when the source folder does not exist and
      `target0` is `None` when the target folder does not; the result is the outcome and
      the target folder afterwards. */
  method CopyRandomFaces(source: Option<Folder>, draw: seq<nat>, sampleSize: nat, target0: Option<Dir>)
    returns (outcome: Outcome, target: Option<Dir>)
    requires source.Some? ==> ValidFolder(source.value) && DrawFor(source.value, draw, sampleSize)
    ensures source.None? ==> outcome == SourceMissing && target == target0
    ensures source.Some? && |FolderImages(source.value)| == 0 ==>
      outcome == NoImages && target == Some(Created(target0))
    ensures source.Some? && |FolderImages(source.value)| > 0 ==>
      var sel := Select(FolderImages(source.value), draw);
      && outcome == Copied(Min(sampleSize, |FolderImages(source.value)|))
      && target == Some(Created(target0) + CopyNamed(source.value.files, sel, SameName(sel), NeverFails()))
  {
    if source.None? {
      return SourceMissing, target0;
    }
    var folder := source.value;
    var dir := Created(target0);
    var imageFiles := CollectImages(folder.listing);
    var total := |imageFiles|;
    if total == 0 {
      return NoImages, Some(dir);
    }
    var numToCopy := Min(sampleSize, total);
    var selected := Select(imageFiles, draw);
    var _, d := CopySelected(folder.files, selected, SameName(selected), NeverFails(), dir);
    return Copied(numToCopy), Some(d);
  }

  /** The images `random.sample` picks: `min(sample_size, total)` of them, no two alike,
      each a listed file of the source with an image extension. */
  lemma SampleShape(source: Folder, draw: seq<nat>, sampleSize: nat)
    requires ValidFolder(source) && DrawFor(source, draw, sampleSize)
    ensures var sel := Select(FolderImages(source), draw);
      && |sel| == Min(sampleSize, |FolderImages(source)|)
      && Distinct(sel)
      && forall i :: 0 <= i < |sel| ==> sel[i] in source.files && HasImageExtension(sel[i])
  {
    CollectedDistinct(source.listing);
    CollectedMembers(source.listing);
    SelectDistinct(FolderImages(source), draw, |draw|);
  }

  /** Copying distinct files of `src` under their own names writes exactly those files,
      with their contents. */
  lemma {:induction false} OwnNamesExact(src: Dir, sel: seq<string>)
    requires Distinct(sel) && forall i :: 0 <= i < |sel| ==> sel[i] in src
    ensures var copies := CopyNamed(src, sel, SameName(sel), NeverFails());
      && (forall x :: x in copies <==> x in sel)
      && (forall x :: x in copies ==> copies[x] == src[x])
      && |copies| == |sel|
  {
    var name := SameName(sel);
    forall a: nat, b: nat | a < |sel| && b < |sel| && name(a) == name(b) ensures a == b {
      assert sel[a] == sel[b];
    }
    CopyNamedExact(src, sel, name, NeverFails());
    CountOkAll(src, sel, name, NeverFails());
    var copies := CopyNamed(src, sel, name, NeverFails());
    forall x | x in sel ensures x in copies {
      var i :| 0 <= i < |sel| && sel[i] == x;
      assert Succeeds(src, sel[i], name(i), NeverFails()) && x == name(i);
    }
    forall x | x in copies ensures x in sel && copies[x] == src[x] {
      var i :| 0 <= i < |sel| && Succeeds(src, sel[i], name(i), NeverFails()) && x == name(i);
    }
  }

  /** What a run that finds images writes: `min(sample_size, total)` distinct images of the
      source, each under its own name with its own content, and nothing else. */
  lemma CopiedUnderOwnNames(source: Folder, draw: seq<nat>, sampleSize: nat)
    requires ValidFolder(source) && DrawFor(source, draw, sampleSize)
    ensures var sel := Select(FolderImages(source), draw);
      var copies := CopyNamed(source.files, sel, SameName(sel), NeverFails());
      && |copies| == Min(sampleSize, |FolderImages(source)|)
      && (forall x :: x in copies <==> x in sel)
      && (forall x :: x in copies ==> x in source.files && HasImageExtension(x) && copies[x] == source.files[x])
  {
    SampleShape(source, draw, sampleSize);
    OwnNamesExact(source.files, Select(FolderImages(source), draw));
  }
}
