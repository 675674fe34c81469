# yoyo2yaml in Dafny

`yoyo2yaml.py` turns a flat export of annotated images into the directory layout a YOLO
training run expects. It reads the class names, keeps the image files of a directory
listing, splits them into train, validation and test sets, and copies every image and its
label file into `images/<split>` and `labels/<split>`. Finally it writes `data.yaml`.

This project models `create_dataset` with the file system taken out. The listing and the
class file's text are parameters. The copies, the created directories and the manifest
write are recorded as a trace of effects.

Modules, one per file:

- `PyStr` (`py_str.dfy`): the string methods the script calls. These are `endswith`,
  `replace` (global, left to right, non-overlapping, including the empty pattern) and
  `strip`. It also has `startswith` and substring containment, which are used to state them.
- `Paths` (`paths.dfy`): POSIX `os.path.join`, plus `os.path.basename` to state where
  files land.
- `ImageFilter` (`image_filter.dfy`): the image-name filter of line 20.
- `LabelNames` (`label_names.dfy`): the chain `.replace('.jpg','.txt').replace('.png','.txt').replace('.jpeg','.txt')`.
  Its main theorem: the three global passes equal one left-to-right scan that rewrites
  any of the three extensions wherever it starts.
- `Partitioning` (`partition.dfy`): the two successive calls to `train_test_split`. The
  splitter is a function parameter. The only thing assumed of it is that its two outputs
  together rearrange its input.
- `CopyPlanning` (`copy_plan.dfy`): the nested copy loop of lines 36-46. It is a method
  with two loops, proved against a specification function. The lemmas say what the plan
  contains and in which order.
- `Manifests` (`manifest.dfy`): `readlines`, `strip` and the `data` dictionary.
- `Dataset` (`dataset.dfy`): `create_dataset` as a sequence of effects: make-directory,
  copy and write-manifest.

## Model

| member | source | states |
|---|---|---|
| PyStr.Replace | yoyo2yaml.py:44-45 | `str.replace`: when the (non-empty) pattern does not occur, the string is returned unchanged |
| PyStr.Strip | yoyo2yaml.py:14 | `line.strip()` never lengthens the line, and its result is empty or neither begins nor ends with whitespace |
| PyStr.StripSlice | yoyo2yaml.py:14 | `line.strip()` is a contiguous slice of the line, and everything cut off before and after it is whitespace |
| PyStr.StripPlain | yoyo2yaml.py:14 | a line without whitespace is unchanged by `strip()`, and an all-whitespace line becomes empty |
| PyStr.StripIdempotent | yoyo2yaml.py:14 | stripping a stripped line changes nothing |
| Paths.Join | yoyo2yaml.py:39-40 | `os.path.join` ends with the name joined on; an absolute name replaces the directory, otherwise the result starts with the directory |
| Paths.JoinAll | yoyo2yaml.py:40 | `os.path.join(path, *names)`: with no names it is `path`, otherwise it ends with the last name |
| Paths.JoinAllLast | yoyo2yaml.py:40 | `os.path.join(out, a, b, file)` is `file` joined onto `os.path.join(out, a, b)` |
| Paths.BasenameOfJoin | yoyo2yaml.py:39-40 | a file name without "/" joined onto any directory is that path's base name |
| ImageFilter.IsImageName | yoyo2yaml.py:20 | the line-20 condition on one name; only the name's last five characters decide it |
| ImageFilter.Filter | yoyo2yaml.py:20 | a comprehension with a condition keeps exactly the elements meeting it, each as often as the input has it |
| ImageFilter.ImageFiles | yoyo2yaml.py:20 | a name is kept if and only if it is in the listing and ends in ".jpg", ".png" or ".jpeg"; multiplicities are kept |
| ImageFilter.FilterInOrder | yoyo2yaml.py:20 | the kept elements stand at strictly increasing positions of the input, and every position whose element meets the condition is among them |
| ImageFilter.ImageFilesInListingOrder | yoyo2yaml.py:20 | the image names keep the listing's relative order and none is skipped |
| ImageFilter.ImageFilesNoDuplicates | yoyo2yaml.py:20 | a listing without repeated names gives an image list without repeated names |
| LabelNames.LabelName | yoyo2yaml.py:44-45 | a name that holds none of the three extensions is returned unchanged |
| LabelNames.LabelNameIsRelabel | yoyo2yaml.py:44-45 | the three global passes equal one left-to-right scan that writes ".txt" wherever ".jpg", ".png" or ".jpeg" starts; the passes do not interfere |
| LabelNames.RelabelAppend | yoyo2yaml.py:44-45 | the one-scan relabelling works piecewise on pieces that start at a dot |
| LabelNames.LabelNameAppend | yoyo2yaml.py:44-45 | the derived label name works piecewise on pieces that start at a dot |
| LabelNames.ExtensionsIndependent | yoyo2yaml.py:44 | ".jpg" is not inside ".jpeg", and ".txt" holds none of the three extensions |
| LabelNames.ExtensionSegment | yoyo2yaml.py:44 | an extension followed by dot-free text becomes ".txt" followed by that text, so "x.jpeg" ends in ".txt" and not ".txteg" |
| LabelNames.LabelNameOfImage | yoyo2yaml.py:44 | an image name's label is the label of its stem followed by ".txt", so every label name ends in ".txt" |
| LabelNames.LabelNameOfPlainStem | yoyo2yaml.py:44 | a stem holding none of the three extensions, followed by one of them, becomes that stem followed by ".txt" |
| LabelNames.LabelNameRewritesInnerExtensions | yoyo2yaml.py:44 | the rewrite is global, not a suffix swap: "a.png.jpg" becomes "a.txt.txt" |
| LabelNames.LabelNameNoSeparator | yoyo2yaml.py:44-45 | a name without "/" keeps having none, so the label stays in the directory it is joined onto |
| Partitioning.AllFiles | yoyo2yaml.py:36 | the train, val and test lists one after the other: lengths and multiplicities add up |
| Partitioning.SplitDataset | yoyo2yaml.py:23-24 | test is split off first, then the rest is split into train and val; when the splitter rearranges its input, the three lists together hold the images, each as often |
| Partitioning.SplitDatasetPermutes | yoyo2yaml.py:23-24 | when each splitter call rearranges its input, train, val and test together rearrange the image list |
| Partitioning.ExactlyOneSplit | yoyo2yaml.py:23-24 | with no repeated names, each image is in exactly one of the three lists, and nothing else is in any |
| CopyPlanning.ImageCopy | yoyo2yaml.py:39-41 | the image copy of a file: source and destination both end with the file's own name |
| CopyPlanning.LabelCopy | yoyo2yaml.py:44-46 | the label copy of a file: source and destination both end with the same derived label name |
| CopyPlanning.SplitCopies | yoyo2yaml.py:37-46 | one split's copies: two per file |
| CopyPlanning.CopyPlan | yoyo2yaml.py:36-46 | the copies the loop makes: two per file of train, val and test |
| CopyPlanning.PlanCopies | yoyo2yaml.py:36-46 | the nested loop builds exactly the copy plan: train, then val, then test, and within a split each file's image copy then its label copy |
| CopyPlanning.CopyPlanFollowsPlacements | yoyo2yaml.py:36-46 | the copy at position 2k is the image copy and the one at 2k+1 the label copy of the k-th (split, file) pair, and there are no other copies |
| CopyPlanning.PlacementsInOrder | yoyo2yaml.py:36-37 | the (split, file) pairs visit every file of train, val and test in order, each paired with its own split name |
| CopyPlanning.ImageCopyKeepsName | yoyo2yaml.py:39-40 | an image is copied from the images directory into `images/<split>`, and source and destination both have the file's own name |
| CopyPlanning.LabelCopySameName | yoyo2yaml.py:44-45 | a label is copied from the labels directory into `labels/<split>`, and source and destination both have the same derived name |
| Manifests.ReadLines | yoyo2yaml.py:14 | `readlines`: an empty file gives no lines and any other gives some, never more lines than characters |
| Manifests.ClassNames | yoyo2yaml.py:14 | one class name per line read |
| Manifests.ReadLinesConcat | yoyo2yaml.py:14 | `readlines` loses nothing: the lines written one after the other give back the text |
| Manifests.ReadLinesShape | yoyo2yaml.py:14 | every line is non-empty with a line break only at its end, and every line but the last ends in one |
| Manifests.ReadLinesCount | yoyo2yaml.py:14 | there is one line per line break, plus one for a last line without a break |
| Manifests.ClassNamesAreStrippedLines | yoyo2yaml.py:14 | the i-th class name is the i-th line with whitespace cut from both ends; it neither begins nor ends with whitespace and holds no line break |
| Manifests.StrippedLineHasNoBreak | yoyo2yaml.py:14 | stripping a line removes its line break |
| Manifests.MakeManifest | yoyo2yaml.py:49-55 | `nc` is the length of `names`, `names` is the class list as given, and the three paths are "../images/train", "../images/val" and "../images/test" |
| Manifests.ManifestClassCount | yoyo2yaml.py:53 | `nc` is the number of lines of the class file, blank lines included |
| Dataset.OutputDirectories | yoyo2yaml.py:27-33 | seven directories are created: the output directory, then `images/<split>` and `labels/<split>` for train, val and test |
| Dataset.Trace | yoyo2yaml.py:7-58 | everything the run does to the file system; with a rearranging splitter it is seven directory creations, two copies per image and one manifest write |
| Dataset.CreateDataset | yoyo2yaml.py:7-58 | the run's effects are the seven directory creations, then the copy plan of the split images, then the manifest write to `data.yaml` |
| Dataset.ManifestWrittenLast | yoyo2yaml.py:41-58 | the manifest is written once, as the very last effect, so a run that stops at a failed copy has written none |
| Dataset.EveryImagePlacedOnce | yoyo2yaml.py:20-24 | with a rearranging splitter and no repeated names in the listing, each image of the listing is in exactly one split and nothing else is placed |
| Dataset.PlacedFilesFromListing | yoyo2yaml.py:20-24 | every placed file comes from the listing and is an image name |
| Dataset.CopiesIntoCreatedDirectories | yoyo2yaml.py:27-46 | every copy writes into one of the created directories, under its own base name |
| Dataset.DirectoriesBeforeCopies | yoyo2yaml.py:27-46 | in the trace, every copy comes after the creation of the directory it writes into |

## Left out

- File and format I/O are parameters or effects, never performed. This covers `open` and `json.load` (lines 9-10), reading the class file (13), `os.listdir` (20), `os.makedirs` (27-33), `shutil.copy` (41, 46) and `yaml.dump` (57-58). `exist_ok=True` is not modelled, because the trace records the calls and not the resulting directory tree.
- Whether copies succeed is not modelled. A missing label file raises in `shutil.copy` and ends the run after a prefix of the trace; `Dataset.ManifestWrittenLast` is what the model says about that case.
- Text decoding and universal-newline translation happen before `readlines`. `Manifests.ReadLines` works on the decoded text and splits at "\n" only.
- `yaml.dump`'s output format (key order, quoting) is not modelled. The manifest is the record that is dumped.
- The catalog `notes` and `class_to_id` (lines 9-10, 17) are left out. The mapping is computed and never used.
- `train_test_split` is a foreign library routine. It is the parameter `split`, deterministic for the fixed `random_state=42`. Its shuffling, the rounding of the sizes and its own errors (an empty input, sizes out of range) are not modelled.
- The quotient `val_size/(1-test_size)` (line 24) is passed on unevaluated in `ValShareOfRest`. It is floating point and only the splitter reads it. So the `ZeroDivisionError` at `test_size == 1` is not modelled.
- `Paths.Join` follows POSIX `os.path.join` only, not the Windows variant.
- The module-level call with hard-coded paths (lines 61-69) is left out.
- Partitioning.ExactlyOneSplit, Dataset.EveryImagePlacedOnce: they assume the listing has no repeated names. `os.listdir` guarantees this, but the model takes it as a precondition.
- Dataset.CopiesIntoCreatedDirectories, Dataset.DirectoriesBeforeCopies: they assume no listed name contains "/". A directory entry's name never does, but the model takes it as a precondition.
- The script checks nothing itself: there is no fraction check, no empty-input check and no missing-file check. So the model has no error results.
- The split is a plain two-step random split, not a stratified one.
- Seven directories are created, the output directory itself included.
- Each class name is a stripped line of the class file.
- Label names come from a global replace, not a suffix swap (`LabelNames.LabelNameRewritesInnerExtensions`).
