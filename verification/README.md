# convert2avif — a Dafny model of the converter core

convert2avif is a small desktop tool that turns JPEG, PNG, WEBP, BMP, TIFF
and GIF files into AVIF. Its own logic is thin. Decoding and encoding are left
to the image codec. The tool itself does four things, and this project models
each of them as pure functions with proved contracts:

- **Discovery** (`collect_images`). A source that is a single file is kept
  when its lower-cased suffix is one of the common extensions. A source that
  is a directory is walked, flat or recursively, keeping the regular files
  with such a suffix. The result is sorted in path order. The filesystem is
  replaced by the list of entries a walk reports (`Discovery.Source`).
- **Preparation and save parameters** (`prepare_mode`, `save_avif`). RGBA and LA
  become RGBA, and every other mode becomes RGB, including the alpha modes
  PA, La and RGBa. The keyword arguments of
  the save call are four fixed entries. EXIF is added when keep-EXIF is on and
  the image has it. The ICC profile is added whenever the image has one.
- **Naming** (`convert_one`). The optional prefix is stripped, and a blank
  prefix counts as none. The output name is `{prefix_}{stem}.avif`. If that
  name exists and overwrite is off, the counter probe tries
  `{prefix_}{stem}_2.avif`, `_3`, … and stops at the first free name. The
  destination directory is the finite set of names already in it, matched
  exactly as a case-sensitive filesystem matches them.
- **The batch** (the `worker` of `start_conversion`). Each item is converted
  in order. A failure is counted when `convert_one` returns a message.
  Progress `1..n` is reported after each item. A written output joins the
  destination, so later items see it when they choose their names. The
  codec's behaviour for each item is an input: a decode result and an
  optional save error.

Modules follow that structure:

- `Wrappers`: `Option`, `Result`, Python truthiness of an optional string.
- `Text`: `str.strip` with Python's whitespace set, ASCII `lower`, decimal
  rendering of the probe counter.
- `Paths`: `name`, `suffix` and `stem` of a POSIX path.
- `Ordering`: the order `sorted()` gives to paths, and an insertion sort.
- `Discovery`, `Encoding`, `Naming`, `Convert`, `Batch`, and `Start`
  (the checks made before the worker starts).

## Model

| member | source | states |
|---|---|---|
| Text.LeadingSpaces | converter.py:225 | the leading run counted is all whitespace and is followed by a non-whitespace character or the end |
| Text.TrailingStart | converter.py:225 | everything from the trailing run's start is whitespace, and the character before it is not |
| Text.Strip | converter.py:225 | the stripped text is no longer than the input and neither starts nor ends with whitespace |
| Text.StripSlice | converter.py:225 | `strip()` keeps one contiguous slice of its input, and every character it removes on either side is whitespace |
| Text.StripEmptyIff | converter.py:225 | stripping gives the empty string exactly when the input is all whitespace, so the `or None` fires exactly for blank prefixes |
| Text.StripIdempotent | converter.py:209-210 | stripping an already stripped field changes nothing |
| Text.Lower | converter.py:40 | lower-casing keeps the length |
| Text.LowerAt | converter.py:40 | lower-casing maps each ASCII capital to its small letter and keeps every other character, position by position |
| Text.Decimal | converter.py:69 | the counter text is a non-empty run of digits with no leading zero unless the counter is 0 |
| Text.DecimalRoundTrip | converter.py:69 | reading the rendered counter back gives the counter, so the text identifies the number |
| Text.DecimalInjective | converter.py:69 | different counters render to different texts |
| Paths.RFind | converter.py:40 | the last position of a character, or -1 exactly when it does not occur |
| Paths.NameStart | converter.py:63 | the final component starts right after the last separator, or at the beginning when there is none |
| Paths.Name | converter.py:63 | a path's name has no separator and is, character by character, the path from the start of the final component to the end |
| Paths.BareName | converter.py:63 | a path without a separator is its own name |
| Paths.Suffix | converter.py:40 | a suffix is empty, or a dot followed by at least one character and no further dot |
| Paths.Stem | converter.py:64 | the stem is a prefix of the name; when it is shorter than the name it is non-empty and the next character is the dot that starts the suffix |
| Paths.RFindLast | converter.py:40 | the last occurrence of a character is found at the join point when the part after it does not contain it |
| Paths.StemSuffixSplit | converter.py:40-64 | stem followed by suffix rebuilds the name, and a name with a suffix has a non-empty stem |
| Paths.SplitAtLastDot | converter.py:40-64 | a name `stem.ext` whose extension has no dot splits at that dot: the suffix is `.ext` and the stem is `stem`, dots in the stem included |
| Paths.SimpleName | converter.py:40-64 | for a file name `stem.ext` with a non-empty stem and no dot in `ext`, such as `photo.2023.jpg`, the suffix is `.ext` and the stem is `stem` |
| Paths.DotFileName | converter.py:40 | a dot file such as `.png` has no suffix |
| Ordering.PathLeTotal | converter.py:44 | any two paths are comparable |
| Ordering.PathLeAntisymmetric | converter.py:44 | two paths that are each at most the other are equal |
| Ordering.PathLeTransitive | converter.py:44 | the path order is transitive |
| Ordering.Insert | converter.py:44 | inserting into a sorted list keeps it sorted and adds exactly that one element |
| Ordering.Sort | converter.py:44 | `sorted()` returns a sorted permutation of its input |
| Ordering.SortedUnique | converter.py:44 | two sorted lists holding the same elements are identical |
| Discovery.IsImagePath | converter.py:40-44 | a path recognised as an image always has a non-empty suffix |
| Discovery.BareNameIsImage | converter.py:36-44 | a plain `stem.ext` file with no dot in `ext` (dots in the stem allowed) is a candidate exactly when `.ext`, lower-cased, is a recognised extension |
| Discovery.DotFileNotImage | converter.py:40-44 | a dot file such as `.png` is never a candidate |
| Discovery.Candidates | converter.py:43-44 | the filter keeps at most one path per walked entry |
| Discovery.CandidatesMembers | converter.py:43-44 | a path passes the filter exactly when some walked entry with that path is reachable at the walk's depth, is a regular file and has a recognised extension |
| Discovery.DirImages | converter.py:43-44 | a directory's result is sorted and is a permutation of the filtered walk |
| Discovery.CollectImages | converter.py:38-44 | a single image file gives itself, any other file gives nothing, a missing or special path gives nothing, and a directory gives its sorted filtered walk |
| Discovery.DiscoveredMembers | converter.py:43-44 | a path is discovered in a directory exactly when the walk reports a kept entry with that path |
| Discovery.DirDiscoveredAreImages | converter.py:43-44 | every path discovered in a directory is a regular file with a recognised extension, and an immediate child when the scan is flat |
| Discovery.FileDiscoveredIsImage | converter.py:39-40 | a single-file source is discovered only as itself and only when it has a recognised extension |
| Discovery.DiscoveredAreImages | converter.py:38-44 | whatever the source, everything discovered has a recognised extension |
| Discovery.DiscoveryIsSortedCandidates | converter.py:44 | any sorted arrangement of the filtered paths is exactly the discovered list |
| Discovery.CandidatesOnce | converter.py:43-44 | when the walk reports each path once, no path passes the filter twice |
| Discovery.DiscoveredOnce | converter.py:43-44 | when the walk reports each path once, every discovered path appears exactly once |
| Encoding.PrepareMode | converter.py:46-47 | the encoder gets RGBA exactly for images in mode RGBA or LA, and RGB otherwise |
| Encoding.PrepareModeFixesTargets | converter.py:46-47 | an image already in RGB or RGBA keeps its mode, so preparing twice changes nothing |
| Encoding.SaveParameters | converter.py:49-54 | the save call always gets format AVIF with the given quality, speed and lossless flag; it gets EXIF exactly when keep-EXIF is on and the image has EXIF; it gets the ICC profile exactly when the image has one; metadata is passed unchanged and nothing else is added |
| Encoding.KeepExifOnlyAffectsExif | converter.py:50-54 | turning keep-EXIF off removes the EXIF entry and changes nothing else |
| Encoding.NoMetadataNoExtras | converter.py:50-54 | an image with neither EXIF nor ICC data is saved with the four base parameters only |
| Naming.NormalisePrefix | converter.py:225 | the prefix is absent exactly when the field is blank, and otherwise it is the stripped field, non-empty and with no whitespace at either end |
| Naming.OutputStem | converter.py:64 | without a truthy prefix the output stem is the source stem; with one it is the prefix, an underscore and the stem; either way it ends with the source stem |
| Naming.PrefixedStem | converter.py:64 | a blank prefix field leaves the stem alone, and any other adds the stripped prefix and one underscore |
| Naming.NumberedNamesDistinct | converter.py:65-69 | different counters give different names, and no numbered name equals the plain one |
| Naming.NamesUpToContents | converter.py:67-73 | the numbered names up to `n` are exactly those with counters 2..n |
| Naming.ProbeBound | converter.py:66-73 | if every counter up to `n` is taken, the destination holds at least `n - 1` names, and `n` if the plain name is taken too |
| Naming.LeastFreeFrom | converter.py:67-73 | counting up from `n`, the probe stops at a free name with every counter before it taken |
| Naming.CollisionIndex | converter.py:66-73 | the probe settles on the least counter of at least 2 whose name is free, and that counter is at most the number of existing names plus one |
| Naming.CollisionIndexUnique | converter.py:67-73 | any free counter with every smaller counter taken is the one the probe picks |
| Naming.ResolveName | converter.py:64-73 | the plain name is used when it is free or overwrite is on; with overwrite off the name chosen is never an existing one, and is the probe's numbered name when the plain one is taken |
| Naming.SecondName | converter.py:66-73 | with only the plain name present the probe picks `_2`, or keeps the plain name when overwriting |
| Naming.ProbeName | converter.py:65-73 | the probe loop as written ends and returns the name the naming rules determine |
| Convert.ConvertOne | converter.py:57-78 | an item is skipped exactly when decoding fails, and written exactly when decoding and saving both succeed; the messages are `Skip {name}: {error}` and `Failed {name}: {error}`; an attempted save uses the resolved name, the prepared mode and the save parameters; with overwrite off it never targets an existing name |
| Batch.Run | converter.py:238-239 | the batch has exactly one outcome per item |
| Batch.RunOutcomes | converter.py:238-243 | each item's outcome depends on its own decode and save results only, and a failure does not stop later items |
| Batch.Failures | converter.py:241 | the error count is at most the number of outcomes, and zero exactly when every item was written |
| Batch.TallyPartition | converter.py:241-243 | successes and failures add up to the number of items |
| Batch.ConvertNext | converter.py:239-241 | one worker step produces the batch's next outcome, and the `if msg:` test holds exactly when the item was not written |
| Batch.Step | converter.py:238-242 | one loop turn keeps the worker's invariant: the outcomes so far plus the run of the rest give the whole batch, errors count the failures and progress is `1..i` |
| Batch.Worker | converter.py:236-243 | the worker produces the batch's outcomes, counts exactly the failed items as errors, reports `len - errors` successes, and reports progress 1, 2, …, n |
| Batch.NoClobber | converter.py:66-73 | with overwrite off no save targets a name that existed before the batch, nor the name of an output written earlier in the batch |
| Batch.SameSourceTwice | converter.py:64-73 | converting the same image twice gives `stem.avif` then `stem_2.avif` with overwrite off, and `stem.avif` twice with it on |
| Start.StartAsWritten | converter.py:208-230 | as written, the run stops for a missing source and never for the destination |
| Start.BlankDestinationAccepted | converter.py:210-217 | as written, a blank destination field with an existing source and some images starts the run into the current directory |
| Start.StartConversion | converter.py:208-230 | the run stops exactly for a missing source, then a blank destination, then an empty discovery; otherwise it starts with the discovered items, the stripped destination and the normalised prefix; for a non-blank destination it agrees with the code as written |

## Left out

- The Tk window, its widgets, drag and drop, DPI awareness and the optional plugin import are interface code.
- Threads and `after()` callbacks are not modelled. The worker is one sequential function; progress and status updates are returned as values.
- The status strings `"{i}/{n}"` and the final summary line are not modelled as text. Their numbers come from `Batch.Worker`: progress, successes and failures.
- Pixel data, the AVIF bitstream and the codec's internals are not modelled. The decode result and the save error of each item are given inputs.
- `expanduser`, `mkdir` and filesystem existence checks are replaced by the `Source` value and by the set of destination names.
- `int()` of the quality and speed scales is not modelled; they arrive as integers.
- Text.Lower: models `str.lower` for ASCII letters only. Other characters are kept as they are, whereas Python also lower-cases non-ASCII letters.
- Paths.Suffix: follows the suffix rule of Python up to 3.13. A name ending in a dot is treated differently from 3.14 on.
- Windows paths are not modelled: drive letters, backslashes and case-insensitive comparison. Path order and names are POSIX.
- The walk's own order is arbitrary. Only the sorted result is specified, so the entries are taken in whatever order they are given.
- Encoding.PrepareMode: the colour conversion itself is left to the codec, so only the target mode is modelled. Converting a palette image that has transparency to RGB drops that transparency, and so does converting the alpha modes PA, La and RGBa, which become RGB.
- The numbered alternatives are built from the prefixed stem (`{prefix_}{stem}_{n}.avif`), as the code does at converter.py:64-69.
- A save that fails is taken to leave no file behind, so the destination set does not change.
- Batch.Run: destination names are matched exactly, character for character, which is how a case-sensitive filesystem answers `exists()` at converter.py:66 and converter.py:70. On a case-insensitive volume (NTFS, default macOS APFS) `exists()` also matches names differing only in case: with overwrite off and an empty destination, items `A.png` then `a.jpg` give `A.avif` then `a_2.avif` there, but `A.avif` then `a.avif` in the model. The model does not promise the names a case-insensitive volume yields.
- Batch.NoClobber: its guarantee is about exact names, so it holds on a case-sensitive filesystem only; on a case-insensitive volume the model's `a.avif` in the example above would replace `A.avif`, which the code itself avoids.
- Batch.RunOutcomes: the existence tests at converter.py:66 and converter.py:70 sit outside both `try` blocks. An `OSError` there (a name too long, no permission on the destination) escapes `convert_one`, ends the worker, and leaves the later items unconverted and the final status unset. The model's destination is a set of names, which cannot fail, so this outcome is not promised.
- Start.StartAsWritten: `dst.mkdir(parents=True, exist_ok=True)` at converter.py:217 raises when the destination is an existing file or cannot be created, and the run then stops with an exception. The model has no such outcome; its decisions assume the directory can be made.
- Start.StartConversion: the same `mkdir` failure at converter.py:217 is not modelled; a run the model starts may still fail there.

## Findings

| source | as written | input that shows it | evidently intended | confidence | as-written member | corrected member |
|---|---|---|---|---|---|---|
| converter.py:214 | `if not dst:` tests a `Path`, and `Path("")` is `Path(".")`, which is always truthy, so the test never fires | an existing source holding one image and a destination field of spaces: the run starts and writes into the current working directory | refuse with "Pick a destination folder" when the destination field is blank | not executed | Start.BlankDestinationAccepted | Start.StartConversion |
