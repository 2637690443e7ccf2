# Is It A Dino: dataset scripts and verdict logic, modelled in Dafny

"Is It A Dino" is a small image classifier that tells dinosaurs from everything else. It has
two halves. The first is a set of dataset scripts that assemble the training folders:
- `convert-to-ima.py` unpacks CIFAR-10 into one folder per class and samples non-dinosaur images;
- `random_images.py`, `random_anim.py` and `random_faces.py` sample images from species and face folders;
- `data_prep.py` normalises the images to 224×224 JPEGs and splits them into train and test folders.

The second half is the Streamlit front end in `app.py`. It turns the network's prediction into a
verdict, a confidence, a message, a progress bar and a list of "traits".

This project models that behaviour and proves properties of it:

- **Files** (`files.dfy`): a directory is a map from file name to bytes.
  - A folder comes with its directory listing. The operating system leaves the listing order
    unspecified, so the model takes it as an input; the listing names every file exactly once.
  - The six-pattern glob loop shared by the sampling scripts is `CollectImages`.
  - The copy loops are `CopyFiles` and `CopySelected`. The copy (`shutil.copy`/`copy2`) is an
    oracle that says whether it raises.
- **Sampling** (`sampling.dfy`): `random.sample` and `np.random.shuffle` are given as draws.
  A draw is the list of positions the generator picked; the positions are in range and
  pairwise distinct.
- **Text** (`text.dfy`): zero-padded numbers (`{i:04d}`, `{i+1:03d}`), suffixes and ASCII
  lower-casing, with the parsing lemmas that make generated file names injective.
- **DataPrep** (`data_prep.dfy`): `resize_and_clean_images` and `split_train_test`.
- **Cifar** (`cifar.dfy`): `extract_cifar10_images` and `select_objects_from_cifar`.
- **Selection** (`selection.dfy`): the per-species sampling loop that `random_images.py` and
  `random_anim.py` share. It covers the statistics, the totals, the files written and their
  names `{species}_{i+1:03d}{suffix}`.
- **RandomImages**, **RandomAnim** and **RandomFaces**: the three sampling scripts, and the
  `main` guards of `random_images.py` and `random_anim.py`.
- **Verdict** (`app.dfy`): the message bands, the trait tiers and the result of one prediction.

Each loop of the scripts is a Dafny `method` with loop invariants. Each method is proved equal
to a specification function written recursively, and the lemmas state what the scripts promise
about those functions:
- no file written overwrites another;
- the reported counts equal the number of files in the folders;
- caps are respected;
- batches are read in order;
- the train and test sets partition the images;
- the message bands are exhaustive and exclusive.

## Model

| member | source | states |
|---|---|---|
| DataPrep.ImageNameCases | scripts/data_prep.py:28 | a file is processed exactly when its lower-cased name ends in `.jpg`, `.jpeg`, `.png` or `.bmp` |
| DataPrep.ResizeAndClean | scripts/data_prep.py:19-50 | the success count is the number of attempted images that convert; success plus error count is the number attempted; the output folder gains exactly `CleanOutputs` of the converted images, numbered in order of success |
| DataPrep.AttemptedOnlyImages | scripts/data_prep.py:27-28 | the loop attempts exactly the listed names with an image extension |
| DataPrep.SuccessesCount | scripts/data_prep.py:37-38 | `success_count` equals the number of attempted files whose conversion succeeds |
| DataPrep.CleanNamesDistinct | scripts/data_prep.py:36 | two different success counters never give the same output name `{n:04d}.jpg` |
| DataPrep.CleanOutputsExact | scripts/data_prep.py:36-38 | the output holds exactly the names `0000.jpg` … for the successes, the k-th holding the k-th converted image; nothing is overwritten, so the folder holds `success_count` files |
| DataPrep.CleanNameForm | scripts/data_prep.py:36 | every output name ends in `.jpg` and has eight characters exactly while the counter is below 10000 |
| DataPrep.CleanOutputsAreJpg | scripts/data_prep.py:36 | every cleaned file ends in `.jpg`, so the split step that reads only `.jpg` files sees all of them |
| DataPrep.Trunc | scripts/data_prep.py:57 | `int()` truncates toward zero: the result is within one of the real, on the zero side |
| DataPrep.SplitTrainTest | scripts/data_prep.py:52-76 | the `.jpg` files are shuffled; the first `int(n * (1 - test_ratio))` go to train and the rest to test, each copied with its content; the counts returned are the two slice lengths |
| DataPrep.SplitIndexInRange | scripts/data_prep.py:57-59 | for a ratio in [0, 1] the split index lies in [0, n], so the slices are the ones Python takes |
| DataPrep.TestCountBound | scripts/data_prep.py:57-59 | the test set has at least `n * test_ratio` and fewer than `n * test_ratio + 1` images |
| DataPrep.DefaultSplitOfHundred | scripts/data_prep.py:52-57 | with the default ratio 0.2, 100 images split 80 / 20 |
| DataPrep.SplitPartition | scripts/data_prep.py:54-59 | the shuffled images split into two slices with no image in both, together holding every image |
| DataPrep.SplitDestinationsDisjoint | scripts/data_prep.py:58-76 | the train and test folders written from empty share no name, together hold exactly the `.jpg` images of the input, and hold `len(train_images)` and `len(test_images)` files |
| Cifar.ExtractCifar | scripts/convert-to-ima.py:13-117 | the counters and folders after the batch loop are those of `Extract`; `totals` always equals `counters` |
| Cifar.ReadBatch | scripts/convert-to-ima.py:79-95 | one batch's image loop equals `ScanBatch` over all its pairs |
| Cifar.ScanBatchCounts | scripts/convert-to-ima.py:79-95 | after a batch, a class counter is its old value plus the number of that class's labels, capped at `max_per_class`; a full class stays put |
| Cifar.CountersCapped | scripts/convert-to-ima.py:83-84 | no class counter ever exceeds a non-negative cap |
| Cifar.NonPositiveCapExtractsNothing | scripts/convert-to-ima.py:83-100 | with a cap of zero or less nothing is saved and every counter stays 0 |
| Cifar.ExtractFromUnchanged | scripts/convert-to-ima.py:97-100 | once every class is full, nothing further changes |
| Cifar.BatchesReadInOrder | scripts/convert-to-ima.py:47-100 | present batches are read in list order, each at most once; a present batch is left unread only when every class is already full and every batch read comes before it |
| Cifar.MissingBatchSkipped | scripts/convert-to-ima.py:62-64 | a missing batch file changes nothing |
| Cifar.FrameNameInjective | scripts/convert-to-ima.py:90 | distinct (batch, index) pairs give distinct file names `{batch}_{i:04d}.jpg` |
| Cifar.FrameNameParse | scripts/convert-to-ima.py:90 | the batch name and index can be read back from a frame file name |
| Cifar.FolderSizesMatchCounters | scripts/convert-to-ima.py:56-95 | starting from empty folders, each class folder ends with exactly as many files as its counter reports: no save overwrites another |
| Cifar.SelectObjects | scripts/convert-to-ima.py:119-174 | the total copied and the destination folder after the class loop are `TotalUpTo` and `DestUpTo` over all ten classes |
| Cifar.Taken | scripts/convert-to-ima.py:146-159 | a class contributes at most `images_per_class` images, and 0 when its folder is missing |
| Cifar.TotalBound | scripts/convert-to-ima.py:141-168 | after k classes the total is at most k × `images_per_class` |
| Cifar.CifarNameInjective | scripts/convert-to-ima.py:164 | distinct (class, index) pairs give distinct names `cifar_{class}_{i+1:03d}.jpg` |
| Cifar.ClassCopiesKeys | scripts/convert-to-ima.py:159-166 | a class writes exactly the names `cifar_{class}_001.jpg` … for its `num_to_select` images |
| Cifar.ClassCopiesCount | scripts/convert-to-ima.py:159-168 | a class writes as many files as it adds to `total_copied` |
| Cifar.SampledInFolder | scripts/convert-to-ima.py:151-160 | every sampled image is a file of its class folder |
| Cifar.TotalCountsFiles | scripts/convert-to-ima.py:141-174 | into an empty destination, the reported total equals the number of files written: no class overwrites another's files |
| Selection.SampleFolder | scripts/random_images.py:52-84 | one species' step: the statistics entry is `StatOf` (none when the folder is missing or holds no image) and the destination gains exactly `CopiesOf` |
| Selection.StatBounds | scripts/random_images.py:47-84 | a species gets an entry exactly when its folder exists and holds images; then `total` is the image count, `selected` is `min(k, total)` and `copied ≤ selected ≤ total` |
| Selection.SampleDistinct | scripts/random_images.py:52-64 | the sample holds distinct files of the species folder, each with an image extension |
| Selection.SkippedStep | scripts/random_images.py:47-60 | a missing or empty species changes neither the statistics, the total nor the destination |
| Selection.SpeciesNameInjective | scripts/random_images.py:71 | distinct (species, index) pairs give distinct names `{species}_{i+1:03d}{suffix}` |
| Selection.NamerInjective | scripts/random_images.py:71 | within one species no two sampled images get the same destination name |
| Selection.CopiesOfExact | scripts/random_images.py:67-78 | every file a species writes carries that species' name, and it writes as many files as it counts as copied |
| Selection.TotalCountsFiles | scripts/random_images.py:43-86 | with distinct species names and an empty destination, `total_copied` equals the number of files written |
| Selection.StatsUpToEntries | scripts/random_images.py:80-84 | the statistics map holds exactly the species present and non-empty, each with its own entry |
| Selection.TotalIsSumOfStats | scripts/random_images.py:78-86 | `total_copied` equals the sum of the `copied` fields of the statistics |
| RandomImages.SelectRandomImages | scripts/random_images.py:6-100 | the species loop's statistics, total and destination are those of the specification over the fixed species list |
| RandomImages.SpeciesFoldersDistinct | scripts/random_images.py:20-36 | the fifteen species names are distinct |
| RandomImages.SelectionSummary | scripts/random_images.py:43-100 | the statistics cover exactly the species found with images; the total is the sum of their copies and the number of files written |
| RandomImages.RunMain | scripts/random_images.py:102-130 | the script runs the selection exactly when the path is not the placeholder and exists; otherwise the destination is untouched |
| RandomImages.ShippedMainRefuses | scripts/random_images.py:108-127 | as shipped, `SOURCE_PATH` equals the placeholder, so `main` always refuses |
| RandomAnim.SpeciesFoldersExact | scripts/random_anim.py:15 | the folders iterated are exactly the sub-directories of the root, each once |
| RandomAnim.SelectRandomImages | scripts/random_anim.py:6-62 | the loop's two-field statistics, total and destination are those of the specification over the root's sub-directories |
| RandomAnim.SelectionSummary | scripts/random_anim.py:21-62 | the statistics cover exactly the sub-directories holding images; the total is the sum of their copies and the number of files written |
| RandomAnim.RunMain | scripts/random_anim.py:65-77 | the selection runs exactly when the root folder exists |
| RandomFaces.CopyRandomFaces | scripts/random_faces.py:6-39 | a missing source returns early and touches nothing; an empty one only creates the target; otherwise `min(sample_size, total)` sampled images are copied under their own names |
| RandomFaces.SampleShape | scripts/random_faces.py:18-31 | the sample holds `min(sample_size, total)` distinct listed files with image extensions |
| RandomFaces.CopiedUnderOwnNames | scripts/random_faces.py:30-37 | the copies are exactly the sampled files, each under its own name with its own content |
| Verdict.DinosaurMessage | app.py:79-87 | each of the four dinosaur messages is shown exactly on its band (>90, (75, 90], (60, 75], ≤60) |
| Verdict.NotDinosaurMessage | app.py:89-97 | each of the four human messages is shown exactly on its band |
| Verdict.TraitCount | app.py:153-160 | 9, 6, 3 or 0 traits exactly for confidence >80, (60, 80], (40, 60], ≤40 |
| Verdict.TraitCountMonotonic | app.py:153-160 | a higher confidence never shows fewer traits |
| Verdict.DinosaurTraits | app.py:153-160 | the traits listed are the last `TraitCount` of the nine, high tier first |
| Verdict.Analyze | app.py:141-178 | dinosaur exactly when the prediction exceeds 0.5; confidence, message, progress and traits as per branch; a dinosaur verdict always has confidence above 50 and at least three traits |
| Text.PadRoundTrip | scripts/data_prep.py:36 | a zero-padded number reads back as the number |
| Text.PadInjective | scripts/convert-to-ima.py:164 | zero padding never maps two numbers to the same text |
| Files.CopyFiles | scripts/data_prep.py:62-73 | the copy loop leaves the destination equal to `CopyAll` |
| Files.CopyAllSize | scripts/data_prep.py:62-73 | copying distinct names into an empty folder writes one file per name |
| Files.NumberedSize | scripts/data_prep.py:36-37 | saving under injective names writes one file per saved image |
| Files.CopyAllContents | scripts/data_prep.py:62-73 | after the copies the destination holds its old files plus the copied names, each copied name with its source content |
| Files.CopySelected | scripts/random_images.py:67-78 | the copy loop counts the copies that go through and adds exactly `CopyNamed` to the destination |
| Files.CopyNamedExact | scripts/random_images.py:67-78 | with non-colliding names the copies hold exactly the successful files under their names, one file per success |
| Files.CollectImages | scripts/random_images.py:52-54 | the six-pattern glob loop yields `GlobAll` in pattern order |
| Files.GlobAllDistinct | scripts/random_faces.py:18-20 | on a listing without repeats the six globs together list no file twice |
| Files.UnionAllSize | scripts/random_images.py:43-78 | folders written under disjoint names add up in size |
| Sampling.SelectDistinct | scripts/random_images.py:64 | sampling without replacement from distinct files yields distinct files of the population |
| Sampling.ShuffleIsPermutation | scripts/data_prep.py:55 | a full shuffle of distinct files is a permutation of them |

## Left out

- `scripts/train_my_model.py` and the network itself are not part of this model.
- `load_model`, `preprocess_image`, `model.predict` and the Streamlit page layout are not modelled. `Analyze` takes the prediction as an input.
- Pillow (`Image.open`, `convert('RGB')`, `resize`, `save`) and `Image.fromarray` are oracles. In `data_prep.py` the conversion sits inside a `try`, so its oracle `convert` either yields the saved bytes or fails; the extraction's `encode` always yields bytes (see the Cifar.ExtractCifar line).
- Unpickling a CIFAR batch (`pickle.load`, numpy reshape/transpose) is given as decoded images and labels.
- The pseudo-random generators are not modelled; every draw is an input constrained as above.
- Console output (`print`) and progress messages are left out.
- `os.makedirs` / `mkdir` are left out, except that `random_faces` creates its target only after finding the source.
- Directory listing order is an input, and globbing is case-sensitive as on Linux.
- Pixel values, floating-point rounding of `prediction * 100` and the ratio arithmetic are exact reals.
- `str.lower` is modelled on ASCII letters only.
- The `main` of `data_prep.py` and `create_folder_structure` are not modelled: they create the folders, call the two modelled functions for each class, and then remove the temporary folders with `shutil.rmtree`, so the cleaned images survive only in train and test.
- The `main` of `convert-to-ima.py` is not modelled: it checks that `CIFAR_PATH` exists and returns otherwise, then calls the two modelled functions and prints a final count made by glob. Its `__main__` block seeds the generator with `random.seed(42)`, which the draws do not reflect.
- The `__main__` block of `random_faces.py` is not modelled: it passes fixed paths to `copy_random_faces`.
- Cifar.ExtractCifar: unpickling a batch, `Image.fromarray` and `img.save` are taken to succeed, and every label is taken to be in 0..9 (the `Label` type). None of them is inside a `try`, so a raise, or an out-of-range label in `class_names[label]`, would abort the script; that is not modelled.
- DataPrep.SplitTrainTest: a `shutil.copy` that raises aborts the script, which is not modelled; copies are taken to succeed.
- Cifar.SelectObjects: a `shutil.copy2` that raises aborts the script, which is not modelled; copies are taken to succeed.
- RandomFaces.CopyRandomFaces: a `shutil.copy2` that raises aborts the script, which is not modelled; copies are taken to succeed.
- Selection.SampleFolder: the `try`/`except` around each copy in `random_images.py` and `random_anim.py` is modelled by the copy oracle; the exception message is not.
- `images_per_species`, `images_per_class` and `sample_size` are naturals in the selection scripts (Python would accept a negative value and fail in `random.sample`). `max_per_class` of the extraction is any integer.
