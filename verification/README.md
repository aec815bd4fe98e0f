# Photo batch rename and copy, modelled in Dafny

The modelled program is a small command-line tool for a folder of camera files. It exists in three implementations:

- Rust (`rust/src/main.rs`);
- two Python scripts (`Python/PicUtils.py` and `Python/pic.py`);
- a set of Java classes (`Utils`, `Filter`, `Rename`, `RenameAll`, `Copy`).

They all do two jobs.

- **rename**: give every photo and video in the working directory the name `<prefix>_<NNNN>.<ext>`, numbering from a starting index. Rust and Python go through a random prefix first, so that re-numbering under the same prefix does not overwrite anything. Java's `RenameAll` renames in one pass, and Java's `Rename` renames a numbered range.
- **copy**: read a list of photo numbers from a text file and copy the photos with those numbers into a folder (`Good Ones`, or the list file's name without its extension).

The model keeps the working directory as a finite map from entry name to an abstract entry: an identity, and whether it is a directory (module `Fs`). The class `Fs.Directory` holds that map and changes it through `Rename`, `CopyOnto` and `CreateDir`. Every name is a single entry of that one directory. For such names, `Rename` follows POSIX rename(2):

- a missing source fails;
- an existing plain-file target is replaced silently;
- a directory on either side of a clash fails.

Module layout:

| module | what it models |
|---|---|
| `Text`, `Order` | Shared text helpers, and the code-point order that `sort` uses. |
| `RustNames`, `RustRename`, `RustTwoPhase`, `RustCopy` | The Rust implementation. |
| `PyNames`, `PyRename`, `PyTwoPhase`, `PyCopy` | Both Python scripts. A `Script` value picks the one place where they differ: `get_extension` is a regular expression in `PicUtils.py` and `os.path.splitext` in `pic.py`. |
| `JavaNames`, `JavaRename`, `JavaRenameAll`, `JavaCopy` | The Java classes, with `int` arithmetic wrapping modulo 2^32. |

Loops that change the directory are methods with loop invariants. Each is proved equal to a specification function of the old directory. The properties are then lemmas about those functions.

Everything from the user or the environment is a parameter:

- the answers to prompts;
- the random prefix, or the sequence of random draws;
- the order in which the directory is listed;
- the lines of readable files;
- the identity of a new folder;
- the set of copies that fail for reasons outside the model.

## Model

| member | source | states |
|---|---|---|
| Fs.Directory.Rename | rust/src/main.rs:122-125 | `fs::rename`, `os.rename` and `File.renameTo`: succeeds exactly when `CanRename` holds. On success the source's entry is under the target name, replacing a plain file there. On failure nothing changes. |
| Fs.Directory.CopyOnto | Python/pic.py:132 | A copy puts the source's entry under the destination name and changes nothing else. |
| Fs.Directory.CreateDir | rust/src/main.rs:199-202 | Creating a directory succeeds exactly when the name is absent, and then adds a directory entry. |
| Fs.SafePlanMoves | Python/pic.py:157-164 | A sequence of renames whose targets are distinct and not otherwise taken succeeds. Each source's entry ends under its target, every other entry is untouched, and the entry count is kept. |
| Order.Sort | rust/src/main.rs:105 | `sort`: the result is in ascending order and is a permutation of the input (equal as multisets). It is strictly ascending only when the input has no duplicates, which listings never have. |
| Order.SortedNamesUnique | Python/pic.py:52 | Two strictly sorted sequences with the same elements are equal, so a sorted listing does not depend on the order `read_dir`/`listdir` yields. |
| RustNames.FileExtension | rust/src/main.rs:69-76 | `Path::extension`: the result has no dot. A non-empty result is exactly the text after the last dot, and that dot is not the first character. |
| RustNames.FileExtensionOfJoin | rust/src/main.rs:69-76 | `stem.ext` with a non-empty stem and a dot-free `ext` has extension `ext`, case kept. |
| RustNames.FileExtensionNone | rust/src/main.rs:69-76 | No dot, or only a leading dot (`.jpg`), gives no extension. |
| RustNames.IsImage | rust/src/main.rs:100-101 | `_get_images`' filter: the lower-cased extension is one of the eight image extensions (`rust/src/main.rs:13-24`). What it admits is stated by `ImageExtensionIsWord` and `ImagesOf`. |
| RustNames.ImageExtensionIsWord | rust/src/main.rs:13-24 | A name `_get_images` keeps has a non-empty extension of word characters (its lower-case form is one of the eight). |
| RustNames.RenamedTo | rust/src/main.rs:114-120 | The new name of an image: `FormatName` of the image's own extension, or `NNNN.ext` when the image name is empty. Its shape, injectivity and order are the lemmas below. |
| RustNames.RenamedToShape | rust/src/main.rs:114-120 | For a non-empty image name and an index up to 9999, the new name is `<prefix>_<four digits>.<the image's own extension>`. |
| RustNames.FormatNameShape | rust/src/main.rs:119 | Up to 9999 the index is exactly four digits, and the underscore is there even for an empty prefix. |
| RustNames.FormatNameInjective | rust/src/main.rs:119 | Formatted names with dot-free extensions and indices up to 9999 are equal only when prefix, index and extension are. |
| RustNames.FormatNameIndexDiffers | rust/src/main.rs:119 | Different indices up to 9999 give different names, whatever the prefixes and extensions. |
| RustNames.FormatNameOrder | rust/src/main.rs:119 | Under one prefix, formatted names sort by index while indices have four digits. |
| RustNames.ParseU32 | rust/src/main.rs:130 | `str::parse::<u32>`: a result is below 2^32. |
| RustNames.ParseU32Digits | rust/src/main.rs:227 | Digits, with or without a leading `+`, parse to their value when it is below 2^32. |
| RustNames.ParseU32Rejects | rust/src/main.rs:227 | The empty text, a lone `+`, a minus sign and values of 2^32 or more do not parse. |
| RustNames.ParseFilename | rust/src/main.rs:175-182 | `_parse_filename` with the regex `(.+)_(\d+)\.(\w+)$`: a parsed index is below 2^32, and `None` stands for the `unwrap` panics. |
| RustNames.ParseFilenameParts | rust/src/main.rs:175-182 | A parsed prefix is non-empty and newline-free, and a parsed extension is non-empty word characters. |
| RustNames.ParseFilenameMatches | rust/src/main.rs:175-182 | A successful parse means the name ends with prefix, `_`, a digit run denoting the index, `.` and the extension. |
| RustNames.ParseFilenameSplit | rust/src/main.rs:175-182 | Where the parsed parts sit in the name, up to its end. |
| RustNames.ParseFilenameAt | rust/src/main.rs:175-182 | A newline-free prefix, `_`, digits, `.` and word characters parse into exactly those parts when the digits fit in `u32`. |
| RustNames.ParseFormatRoundTrip | rust/src/main.rs:244 | Parsing a formatted name gives back prefix, index and extension, for any newline-free non-empty prefix, any `u32` index and any word-character extension. |
| RustNames.EmptyPrefixDoesNotParse | rust/src/main.rs:175-182 | A name formatted with an empty prefix (`_0007.jpg`) does not parse. |
| RustRename.ImagesOf | rust/src/main.rs:81-107 | What `_get_images` returns: strictly sorted, and a name is in it exactly when it is a non-directory entry whose lower-cased extension is an image extension. |
| RustRename.GetImages | rust/src/main.rs:81-107 | Walking the entries in any order, keeping images and sorting gives `ImagesOf`. |
| RustRename.RenameImage | rust/src/main.rs:110-126 | Panics when the index is above 9999. Otherwise it performs one rename to `RenamedTo` and panics if that fails. |
| RustRename.RenameAllPhotos | rust/src/main.rs:129-135 | The result is `RenameAllSpec`: parse the starting index (panic on failure), then rename file k to index start+k, stopping at the first panic. |
| RustRename.Rename | rust/src/main.rs:150-172 | `rename`: list, rename to the random prefix, list again, rename to the new prefix, both passes from the same index. |
| RustRename.BatchStep | rust/src/main.rs:131-134 | One step of the loop either ends the batch with its failure or continues from the next image with index+1. |
| RustRename.TargetsConcat | rust/src/main.rs:131-134 | The targets of two consecutive batches are the targets of the joined batch. |
| RustRename.RunBatchSplit | rust/src/main.rs:131-134 | A safe prefix of the batch within the index range performs exactly its renames, then the rest of the batch continues. |
| RustRename.RenameAllCompletes | rust/src/main.rs:129-135 | A safe batch with start+n ≤ 10000 completes and moves every file to its target. |
| RustRename.RenameAllAborts | rust/src/main.rs:111-113 | A batch running past 9999 panics at the first out-of-range index, after renaming the files before it, and leaves the rest untouched. |
| RustTwoPhase.ListedAreImages | rust/src/main.rs:81-107 | Every listed name is a non-empty image entry. |
| RustTwoPhase.ImageTarget | rust/src/main.rs:114-120 | The k-th target of an image is `FormatName(prefix, start+k, its extension)`. |
| RustTwoPhase.TargetsDistinct | rust/src/main.rs:119 | The targets of a batch of images with indices up to 9999 are pairwise distinct. |
| RustTwoPhase.PhaseOneSafe | rust/src/main.rs:166-169 | With a fresh random prefix, the first pass is a safe plan whose targets are all absent. |
| RustTwoPhase.PhaseOneNamesSorted | rust/src/main.rs:170 | The first-pass names are strictly sorted in index order. |
| RustTwoPhase.RelistAfterPhaseOne | rust/src/main.rs:170 | After the first pass, `_get_images` lists exactly the first-pass names, in the original order. |
| RustTwoPhase.FinalTargetFree | rust/src/main.rs:171 | A final name that exists after the first pass is the first-pass name of the same file. |
| RustTwoPhase.PhaseTwoSafe | rust/src/main.rs:171 | The second pass is a safe plan, unless a final name is taken by a directory. |
| RustTwoPhase.SameFinalTargetsAll | rust/src/main.rs:171 | Renaming the first-pass names gives the same final names as renaming the originals. |
| RustTwoPhase.TwoPhaseRename | rust/src/main.rs:150-172 | With a fresh random prefix, a valid index with at most 10000−start images, and no final name taken by a directory, `rename` completes. The k-th image's entry ends under its k-th final name, all other entries are untouched and the count is kept: nothing is overwritten. |
| RustCopy.ListName | rust/src/main.rs:186-196 | Any answer other than `.` is taken as the list file's name unchanged. |
| RustCopy.RequestedMembers | rust/src/main.rs:215-235 | A number is requested exactly when some line, trimmed, parses as a `u32` with that value. |
| RustCopy.SkippedAreUnreadable | rust/src/main.rs:229-232 | Every line that draws the warning is non-blank and not a `u32`. |
| RustCopy.EveryLineAccounted | rust/src/main.rs:216-235 | Every line is blank, contributes its number, or is warned about. |
| RustCopy.RequestedDependsOnLinesOnly | rust/src/main.rs:215-235 | Repeated lines collapse and their order does not matter. |
| RustCopy.ReadRequested | rust/src/main.rs:215-235 | The reading loop yields exactly `Requested(lines)` and the warned lines `Skipped(lines)`. |
| RustCopy.CopyPlanStuckIff | rust/src/main.rs:238-244 | The copy loop panics exactly when some image does not parse, and then on one that does not. |
| RustCopy.CopyPlanCanonical | rust/src/main.rs:238-253 | When every image parses and is rebuilt unchanged, the loop runs to the end and the sources are exactly the images whose index was requested. |
| RustCopy.CopyPlanSorted | rust/src/main.rs:238-253 | Over sorted canonical images, the copy sources come out in listing order. |
| RustCopy.CopyAllMembers | rust/src/main.rs:249-251 | A source is copied exactly when its copy succeeds, with its contents, and reported exactly when it fails. A failure never stops the loop. |
| RustCopy.Copy | rust/src/main.rs:185-256 | `copy` equals `CopySpec`. It panics on an existing `Good Ones` or an unreadable list, panics at the first image that does not parse, and copies each requested canonical image. |
| RustCopy.CopyImages | rust/src/main.rs:238-253 | The copy loop as a method, equal to the plan followed by the copies. |
| RustCopy.CopyFolderExists | rust/src/main.rs:200-202 | An existing `Good Ones` ends the command before anything else happens. |
| RustCopy.CopyPanicsOnForeignName | rust/src/main.rs:177 | Any listed image that does not parse makes `copy` panic, even when no number is requested. |
| RustCopy.FormattedIsCanonical | rust/src/main.rs:244 | Names the rename job gives are canonical, so `copy` uses them unchanged. |
| RustCopy.CopyCompletes | rust/src/main.rs:185-256 | With `Good Ones` new, a readable list and canonical images, the command completes. Exactly the requested images are attempted: those that copy are in `Good Ones` with their contents, and the others are reported. |
| PyNames.RegexExtensionDot | Python/PicUtils.py:14 | Where `\.\w+$` matches: a dot followed by word characters up to the end, or up to a final newline. |
| PyNames.RegexSplitJoin | Python/PicUtils.py:26-40 | For names without a final newline, stem plus extension is the name, and the extension is empty or a dot followed by word characters. |
| PyNames.RegexSplitDropsNewline | Python/PicUtils.py:26-40 | `$` matches before a final newline, so `"a.jpg\n"` splits into `"a"` and `".jpg"` and loses the newline. |
| PyNames.SplitExt | Python/pic.py:28-37 | `os.path.splitext`: root plus extension is the path, and the extension is empty or starts with a dot. |
| PyNames.SplitExtShape | Python/pic.py:28-31 | The extension's dot is followed by neither a dot nor a `/`. |
| PyNames.SplitExtLeadingDots | Python/pic.py:28-31 | Leading dots do not start an extension: `.jpg` and `..jpg` have none. |
| PyNames.SplitExtTrailingDot | Python/pic.py:28-31 | A name ending in a dot has the dot alone as its extension. |
| PyNames.PhotoExtensionShape | Python/pic.py:16 | Every photo extension is a dot followed by word characters. |
| PyNames.PhotoExtensionsCaseSensitive | Python/pic.py:40-42 | `.png`, `.mov`, `.nef`, `.gif` and `.JPEG` are not photos: the membership test is exact. |
| PyNames.Extension | Python/PicUtils.py:26-32 | `get_extension` per script: the regular expression `\.\w+$` in `PicUtils.py`, `os.path.splitext` in `pic.py` (`Python/pic.py:28-31`). Its behaviour is stated by `RegexSplitJoin`, `RegexSplitDropsNewline` and the `SplitExt` lemmas. |
| PyNames.PyPad4Value | Python/pic.py:77 | `{:04d}` writes at least four characters: digits for n ≥ 0, a minus sign and digits otherwise, the sign counting toward the width. |
| PyNames.NewFilename | Python/pic.py:74-82 | `new_filename`: prefix, `_`, `{:04d}` of the index and the original's extension, with no underscore when the prefix is empty. Its properties are the `NewFilename*` and `PhotoNumberRoundTrip` lemmas. |
| PyNames.NewFilenameShape | Python/pic.py:74-82 | The shape of the new name for a non-negative index below 10000. |
| PyNames.NewFilenameKeepsExtension | Python/pic.py:74-82 | The new name has the original's extension (case and dot included) when that is a dot and word characters. |
| PyNames.NewFilenameIndexDiffers | Python/pic.py:74-82 | Under one non-empty prefix, different indices in 0..9999 give different names. |
| PyNames.NewFilenameIndexApart | Python/pic.py:74-82 | Different indices in 0..9999 give different names, whatever the prefixes and originals. |
| PyNames.NewFilenameOrder | Python/pic.py:74-82 | Under one non-empty prefix, names sort by index up to 9999. |
| PyNames.GetPhotoNumber | Python/pic.py:20-25 | The number read is non-negative, and `None` stands for the `AttributeError` on a name without `_\d+\.\w+` at its end. |
| PyNames.PhotoNumberRoundTrip | Python/PicUtils.py:18-23 | Reading the number back from `new_filename(original, prefix, index)` gives the index, for a non-empty prefix, a non-negative index and a word-character extension. |
| PyNames.EmptyPrefixNumberUnreadable | Python/PicUtils.py:79 | Without a prefix there is no underscore, and the number cannot be read back. |
| PyNames.NegativeIndexUnreadable | Python/PicUtils.py:75-77 | A negative index is written with a minus sign, which the number pattern does not accept. |
| PyRename.PhotosOf | Python/pic.py:45-53 | What `get_photo_files` returns: strictly sorted, and exactly the plain files with a photo extension. |
| PyRename.GetPhotoFiles | Python/pic.py:45-53 | Filtering `listdir` in any order and sorting gives `PhotosOf`. |
| PyRename.RenameAllPhotos | Python/PicUtils.py:83-88 | The result is `RenameAllSpec`: list the photos again, then rename photo i to `new_filename(photo, prefix, index+i)` in order, the first failing rename raising. |
| PyRename.RenamePass | Python/PicUtils.py:85-88 | The `while` loop equals `BatchRun` of the photos and their targets. |
| PyRename.PassStep | Python/PicUtils.py:87-88 | One rename either fails and ends the batch, or the batch continues from the next photo. |
| PyRename.RenameTargetsDistinct | Python/PicUtils.py:87 | The targets of a pass are pairwise distinct for a non-empty prefix with indices in 0..9999. |
| PyRename.RenameAllCompletes | Python/PicUtils.py:83-88 | A pass whose renames overwrite nothing completes and moves photo i to its target. |
| PyRename.CreateRandomPrefixAsWritten | Python/pic.py:63-71 | The generator as written, with its `while True` loop and the unconditional `break`: exactly one draw is taken, and the first draw is returned whatever the photos are called, because the `continue` never retries. |
| PyRename.FirstUnused | Python/pic.py:56-62 | The first draw no photo starts with, or none exactly when every draw is used. |
| PyRename.CreateRandomPrefix | Python/pic.py:56-62 | The generator as its documentation describes it: the result is unused and is the first unused draw. |
| PyRename.AsWrittenPrefixCanBeUsed | Python/pic.py:67-70 | For photo `aBcDeF_0001.jpg` and draws `aBcDeF`, `xYzXyZ`, the generator as written returns `aBcDeF`, which the photo starts with. |
| PyRename.PhaseOneAvoidsPhotos | Python/pic.py:159-161 | With an unused prefix, no first-pass target is the name of a listed photo. |
| PyRename.Rename | Python/pic.py:139-164 | `rename` equals `RenameSpec` with the first draw as the random prefix, both passes from the same index. |
| PyRename.RenameIntended | Python/pic.py:139-164 | `rename` with the documented generator: the random prefix is the first unused draw. |
| PyTwoPhase.PhaseOneSafe | Python/pic.py:159-161 | With a random prefix no photo or directory starts with, the first pass is a safe plan whose targets are absent. |
| PyTwoPhase.RelistAfterPhaseOne | Python/pic.py:164 | After the first pass, `get_photo_files` lists exactly the first-pass names, in the original order. |
| PyTwoPhase.PhaseTwoSafe | Python/pic.py:164 | The second pass is a safe plan, unless a final name is taken by a directory. |
| PyTwoPhase.PyTwoPhaseRename | Python/pic.py:139-164 | The comment's promise, with the documented generator and indices from 0 with at most 10000−index photos: both passes complete, photo k ends under `new_filename(photo k, new_prefix, index+k)`, everything else is untouched and the count is kept. |
| PyTwoPhase.AsWrittenOverwrites | Python/pic.py:159-164 | With the generator as written, `{A.jpg, aBcDeF_0001.jpg}` and first draw `aBcDeF` lose a photo: no error is raised and one file is left. |
| PyTwoPhase.AboveLimitReorders | Python/pic.py:147 | Past index 9999 the order is lost: from 9999, `a.jpg` and `b.jpg` end as `x_10000.jpg` and `x_9999.jpg` respectively. |
| PyCopy.PyIntDigits | Python/pic.py:124 | `int()` reads plain digits, signed or not, as their value, and an empty line does not read. |
| PyCopy.PyIntUnderscores | Python/pic.py:124 | `int()` takes single underscores between digits, not at either end or two in a row, and rejects a lone sign. |
| PyCopy.PyIntReadsPad4 | Python/pic.py:124 | What `{:04d}` writes, `int()` reads back, negative numbers included. |
| PyCopy.ReadToCopy | Python/pic.py:124 | The set comprehension as a loop equals `ToCopy(LineValue, lines)`: the values of the lines, or the first line that raises. |
| PyCopy.ToCopyMembers | Python/pic.py:124 | When the file reads, the set holds exactly the values of its lines. |
| PyCopy.ToCopyBadLine | Python/pic.py:124 | When the file does not read, the line that raised is the first unreadable one. |
| PyCopy.BlankLineRaises | Python/pic.py:124 | A blank or whitespace-only line makes `int('')` raise. |
| PyCopy.Copy2 | Python/pic.py:132-134 | `copy2`, whether into the folder or over a plain file of that name, never adds or removes a name in the working directory. |
| PyCopy.CopyPhotos | Python/pic.py:129-134 | The loop, on the directory in place, equals `CopyLoop`. |
| PyCopy.Copy | Python/pic.py:93-136 | `copy` equals `CopySpec`: create the folder if it is missing; then `open`, `int()`, `get_photo_number` and `copy2` each may raise. |
| PyCopy.DefaultFolderName | Python/pic.py:110-114 | Under both scripts, the answer `.` stands for `Good Ones.txt`, which gives the folder `Good Ones`. |
| PyCopy.CopyLoopIntoFolder | Python/pic.py:129-134 | When every photo has a number and no copy fails, exactly the wanted photos are copied, each counted once, and the working directory is kept. |
| PyCopy.CopyLoopOntoFile | Python/pic.py:132 | When `folder_name` is a plain file, each wanted photo is written over it and nothing goes into a folder. |
| PyCopy.CopyLoopAbort | Python/pic.py:131 | A photo without a number stops the loop with `AttributeError`; earlier copies stay. |
| PyCopy.CopyLoopErrors | Python/pic.py:129-134 | The loop raises only on a photo without a number, or on a wanted photo whose copy fails. |
| PyCopy.CopyCopiesListed | Python/pic.py:93-136 | End to end: the folder holds exactly the photos whose number some line gives, with their contents, and `copied_count` is how many there are. |
| PyCopy.BlankLineCopiesNothing | Python/pic.py:124 | A blank line anywhere raises `ValueError` before the loop: nothing is copied. |
| JavaNames.Wrap32 | Java/Rename.java:21-23 | Java `int` arithmetic: the result is an `int`, equal to the exact value when that fits. |
| JavaNames.Wrap32Add | Java/Rename.java:21-23 | Wrapping after each operation is wrapping once at the end. |
| JavaNames.ParseInt | java/RenameAll.java:19 | `Integer.parseInt`: a result is an `int`, and `None` is `NumberFormatException`. |
| JavaNames.ParseIntToString | java/RenameAll.java:19 | `parseInt` reads back what `Integer.toString` writes, for every `int`. |
| JavaNames.ParseIntOverflow | java/RenameAll.java:19 | A decimal beyond `Integer.MAX_VALUE` does not parse. |
| JavaNames.ParseIntNoTrim | Java/Copy.java:44 | A leading or trailing space makes any text unreadable: nothing is trimmed. |
| JavaNames.ParseIntSignAlone | Java/Copy.java:44 | The empty text and a lone sign do not parse. |
| JavaNames.GetExtensionMatch | Java/Utils.java:9-17 | The pattern `\.\w+\z` can match at one place only: the extension is the matched text, and it is empty exactly when nothing matches. |
| JavaNames.GetExtensionOfJoin | Java/Utils.java:9-17 | A dot and word characters appended to any stem is what `getExtension` finds. |
| JavaNames.GetExtensionShape | Java/Utils.java:9-17 | A found extension is a dot followed by at least one word character. |
| JavaNames.PaddingIsZeroPad | Java/Utils.java:23-32 | For a non-negative index, the zeros plus the digits are four-digit zero padding, or the plain number from 10000 on. |
| JavaNames.FileNameFourDigits | Java/Utils.java:19-35 | From 0 to 9999 the index is written with exactly four digits. |
| JavaNames.FileNameAboveLimit | Java/Utils.java:29-32 | From 10000 on the index is written unpadded, with more than four digits. |
| JavaNames.FileNameNegative | Java/Utils.java:23-24 | A negative index takes the `< 10` branch: `_000-5` for −5. |
| JavaNames.FileNameEmptyPrefix | Java/Utils.java:20-22 | The underscore is there even when the prefix is empty. |
| JavaNames.FileNameIndexApart | Java/Utils.java:19-35 | Between 0 and 9999, different indices give different names whatever the extensions. |
| JavaNames.NewFileNameKeepsExtension | Java/Utils.java:49-52 | `newFileName` keeps the original's extension, case and dot included. |
| JavaNames.AcceptExactly | Java/Filter.java:9-18 | A name ending in a dot and word characters is accepted exactly when that ending is one of `.JPG .NEF .jpg .MOV .CR2`. |
| JavaNames.NoExtensionRejected | Java/Filter.java:9-18 | A name with no extension is rejected. |
| JavaNames.AcceptCaseSensitive | Java/Filter.java:11-17 | `.jpeg`, `.nef` and `.png` are rejected whatever the stem: the comparison is case-sensitive. |
| JavaNames.AcceptFinalExtension | Java/Filter.java:10 | Only the final extension counts: `x.JPG.bak` is rejected. |
| JavaRename.RenameFileNameIsUtils | Java/Rename.java:27-41 | The class's private `fileName` agrees with `Utils.fileName(prefix, i, ".JPG")` for every index. |
| JavaRename.RenameEachSplit | Java/Rename.java:21-24 | Running the first k attempts and then the rest is running them all: an ignored failure never cuts the loop short. |
| JavaRename.RenameEachSkipsMissing | Java/Rename.java:23 | An attempt whose source is missing changes nothing, and the later attempts still run. |
| JavaRename.RenameEachUntouched | Java/Rename.java:21-24 | An entry that is neither a source nor a target keeps its name and identity. |
| JavaRename.RenameEachSafe | Java/Rename.java:21-24 | Along a plan that overwrites nothing, every entry is moved to its target and the count is kept. |
| JavaRename.RenameRange | Java/Rename.java:21-24 | The loop leaves exactly `RenameEach` of the attempts: `AttemptCount(first, last)` attempts, attempt k moving `fileName(original, first+k)` to `fileName(new, newNumber+k)` in `int` arithmetic. |
| JavaRename.AttemptCountInRange | Java/Rename.java:21 | Without overflow the loop makes `last − first + 1` attempts, and none when `last < first`. |
| JavaRename.AttemptCountWraps | Java/Rename.java:21 | Over the whole `int` range the bound wraps to zero and no attempt is made. |
| JavaRename.AttemptShift | Java/Rename.java:22-23 | Attempt k moves index first+k to newNumber+k: the shift is constant, modulo 2^32 when the indices wrap. |
| JavaRename.RangeNameAt | Java/Rename.java:22 | Inside 0..9999, attempt k names the photo with index start+k, written with four digits. |
| JavaRename.RangeNamesNoDup | Java/Rename.java:22-23 | Inside 0..9999 the names of a range are all different. |
| JavaRename.RenameRangeMoves | Java/Rename.java:21-24 | When every photo of the range exists and no new name is taken, each photo is moved to its new name and nothing is lost. |
| JavaRenameAll.RenameAll | java/RenameAll.java:19-31 | `main` after the prompts equals `RenameAllSpec`. A bad number ends it with `NumberFormatException` before any rename; otherwise every listed file is renamed in turn. |
| JavaRenameAll.RenameListed | java/RenameAll.java:27-31 | The `for` loop: each file renamed to `newFileName(name, prefix, index)`, the result ignored, and `index++` in `int`. |
| JavaRenameAll.TargetAt | java/RenameAll.java:28-30 | File k gets index start+k as an `int`: one more for each file, renamed or not. |
| JavaRenameAll.TargetIndex | java/RenameAll.java:28-30 | Without overflow, file k gets exactly start+k. |
| JavaRenameAll.TargetKeepsExtension | java/RenameAll.java:28 | Each new name keeps the extension of the file it replaces, so it is accepted too. |
| JavaRenameAll.RejectedUntouched | java/RenameAll.java:23 | A file the filter rejects is neither renamed nor replaced. |
| JavaRenameAll.TargetsNoDup | java/RenameAll.java:28 | Inside 0..9999 the new names are all different. |
| JavaRenameAll.FreshTargetsMove | java/RenameAll.java:27-31 | When no new name is taken beforehand and the numbers stay within 0..9999, every accepted file moves to its new name and nothing is lost. |
| JavaRenameAll.FileNameAccepted | java/RenameAll.java:28 | A name `fileName` makes with an accepted extension is accepted, with that extension. |
| JavaRenameAll.RerunOverwrites | java/RenameAll.java:27-31 | Renumbering `P_0001` and `P_0002` from 2, listed in that order: the first replaces the second and one photo is lost, with no error. |
| JavaCopy.SplitAllJoin | Java/Copy.java:37 | Splitting `a/b`, with `b` slash-free, is splitting `a` and then `b`. |
| JavaCopy.FolderPrefixIsName | Java/Copy.java:37-38 | For `.` inside a directory `name`, the absolute path is `parent/name/.`, and the prefix is `name`. |
| JavaCopy.FolderPrefixAtRoot | Java/Copy.java:37-38 | In the root directory the path is `/.` and the prefix is empty. |
| JavaCopy.FirstExisting | Java/Copy.java:49-58 | The chosen name exists and is a candidate, and there is none exactly when no candidate exists. |
| JavaCopy.FirstExistingAt | Java/Copy.java:49-58 | The earliest existing candidate is the one chosen: NEF, then JPG, then jpg. |
| JavaCopy.CandidatesDistinct | Java/Copy.java:46-48 | The three candidates are different names. |
| JavaCopy.CopyLines | Java/Copy.java:42-63 | The loop keeps `copiedCount ≤ numLines ≤` the number of lines, and without an exception every line is counted. |
| JavaCopy.CopyLinesStop | Java/Copy.java:42-70 | Once an exception has left the loop, later lines change nothing. |
| JavaCopy.CopyListed | Java/Copy.java:42-63 | The `while` loop over the lines equals `CopyLines`. |
| JavaCopy.Copy | Java/Copy.java:11-73 | `main` equals `CopySpec`: `mkdir` when the name is absent, `FileNotFoundException` for a missing or non-file list, the prefix from the path, then the loop. |
| JavaCopy.Found | Java/Copy.java:42-58 | The photos the lines name exist in the directory, at most one per line. |
| JavaCopy.CopiesFound | Java/Copy.java:42-63 | With `Good Ones` a directory, every line a number and no copy failing: every line is counted, `copiedCount` is the number of lines whose photo exists, and `Good Ones` gains exactly the found photos with their contents. |
| JavaCopy.FoundIsNamed | Java/Copy.java:42-58 | Every photo found is named by some line. |
| JavaCopy.NamedIsFound | Java/Copy.java:42-58 | Every existing photo a line names is found. |
| JavaCopy.CopyOntoFileCopiesNothing | Java/Copy.java:60 | When `Good Ones` is a plain file, nothing is copied. |
| JavaCopy.NonNumericAborts | Java/Copy.java:44 | A line that is not a number ends the run with an uncaught `NumberFormatException` after counting it, and the counts are not printed. |

## Left out

- `Fs.Directory.Rename`: names are single path components of the working directory. A new prefix is free user text (`rust/src/main.rs:44-66`, `Python/pic.py:148-153`, `java/RenameAll.java:16`), but the model does not cover one containing `/` or NUL, or a name longer than NAME_MAX. With such a target, rename(2) fails (ENOENT for a missing directory) or moves the file out of the working directory. The model instead adds a new key. So `RustTwoPhase.TwoPhaseRename`, `PyTwoPhase.PyTwoPhaseRename`, `JavaRenameAll.FreshTargetsMove` and `JavaRename.RenameRangeMoves` promise completion only for names that are single path components.
- Console and standard-input handling is not modelled. Prompt answers are parameters. The following are not modelled:
  - Rust's `_read_input` errors;
  - Python's `input()` and the `ValueError` of `int(input(...))` for the starting index (`Python/pic.py:155`), where `index` is any `int`;
  - Java's `Scanner.nextInt` failures and `System.console()` returning null.
- The new-prefix answer `.` is not modelled. It stands for the current directory's name (`_get_new_prefix`, `rust/src/main.rs:44-66`; `Python/pic.py:151-153`). The new prefix is a parameter, so it covers that name as well.
- Printing and the command-line dispatch (`main`, `usage`) are not modelled. The Java copy's two printed counters are the `numLines` and `copiedCount` results.
- Randomness is a parameter. The Rust random prefix is assumed fresh (`RustTwoPhase.FreshPrefix`). The Python draws are a sequence.
- `RustTwoPhase.TwoPhaseRename`, `PyTwoPhase.PyTwoPhaseRename`: they assume a random prefix that no entry starts with. The program does not check this for Rust, and does not retry for Python.
- Listing order is a parameter, because `read_dir`, `os.listdir` and `File.listFiles` promise no order.
  - Rust and Python sort afterwards. Java's `RenameAll` does not, so its `listing` is any duplicate-free order of the accepted entries.
- Entry kinds: `os.path.isfile` and Rust's `DirEntry::metadata` are both modelled as "not a directory". The differences over symbolic links and special files are not modelled.
- Character classes are ASCII-only. `\d`, `\w`, `to_lowercase`, Python's `int()` and Java's `Character.digit` are modelled on ASCII. The Unicode digits and letters that the Rust regex crate, Python's `re`, Python's `int()` and Java accept are not.
- Line reading is not modelled. Readable files are given as their lines (`texts`), so these are left out:
  - Rust's panic on a line that is not valid UTF-8 (`rust/src/main.rs:219`);
  - Python's decoding errors and universal-newline translation;
  - Java's `IOException` from `readLine`.
- `os.makedirs` of a list file under a subdirectory would also create the intermediate directories. The model creates only the named entry.
- `Fs.CanRename` rejects renaming a directory onto an empty directory, which POSIX allows, because entries do not record a directory's contents. The Rust and Python renames only rename plain files, so they are unaffected. `JavaRenameAll.RenameAll` and `JavaRename.RenameRange` can rename a directory, because `Filter.accept` looks only at the name and `Rename` does not check the kind of entry. For them, renaming a directory onto an empty directory changes nothing in the model, where the program would succeed.
- File contents are entry identities. A copy shares the source's identity, so copy metadata (`copy2`) and partial copies are not modelled.
- `JavaRename.RenameRange`: it requires that the loop bound `last - first + 1` is not `Integer.MAX_VALUE`. For that input the Java loop never ends, because `i++` wraps to `Integer.MIN_VALUE`.
- `JavaCopy.Copy`: it does not model `Files.copy` of a directory entry (a photo name that is a directory), or a copy onto an existing non-empty directory named like the photo inside `Good Ones`.
- `JavaCopy.CopyLines`: `numLines` and `copiedCount` are unbounded. Java's `int` counters would wrap only after 2^31 lines.
- `JavaCopy.Copy`: the path split models `String.split("/")` on the absolute path, which is a parameter. Paths on systems with another separator are not modelled.
- The concurrency of other processes changing the directory during a run is not modelled.

## Findings

| source | as written | input that shows it | evidently intended | confidence | as-written member | corrected member |
|---|---|---|---|---|---|---|
| Python/pic.py:63-71 (and Python/PicUtils.py:61-69) | `continue` inside the `for` loop only moves on to the next photo, so the `break` is always reached and the first random draw is returned even when a photo starts with it | photos `["aBcDeF_0001.jpg"]`, draws `["aBcDeF", "xYzXyZ"]`: returns `aBcDeF`. With `A.jpg` beside that photo, the first pass renames `A.jpg` onto `aBcDeF_0001.jpg` and one photo is lost with no error | draw again until no photo starts with the prefix, as the docstring and the comment "prevents overwriting any file" say | not executed | PyRename.CreateRandomPrefixAsWritten, PyRename.AsWrittenPrefixCanBeUsed, PyTwoPhase.AsWrittenOverwrites | PyRename.CreateRandomPrefix, PyRename.RenameIntended, PyTwoPhase.PyTwoPhaseRename |

Two further behaviours are proved and are worth knowing, although the source may intend them:

- `PyTwoPhase.AboveLimitReorders`: past index 9999 the Python scripts lose the photo order, because the re-listing sorts `x_10000` before `x_9999`. The scripts do warn that they assume fewer than 10,000 photos.
- `JavaRenameAll.RerunOverwrites`: Java's `RenameAll` has no random-prefix pass, so renumbering already numbered photos can overwrite them.
