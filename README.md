# raw2jpg, modelled in Dafny

raw2jpg is a small desktop tool that converts camera RAW files to JPEG. The user
picks a folder or drops files and folders on its window. The tool queues every
file whose name ends with one of nine RAW extensions, in any case. A background
thread then converts the queue in order. For each file it first tries to save
the thumbnail embedded in the RAW file as `<stem>_thumb.jpg`. When the file has
no thumbnail, or one in an unsupported format, it decodes the full image to
`<stem>.jpg`, unless that file already exists. After each file the thread
reports `progress(i, N)`, and after the last one it reports `completed`.

This project models the core of `main.py`:

- the format filter;
- the output-path expressions;
- the per-file decision between thumbnail and full conversion;
- the worker loop and its progress signals;
- the planning of a folder choice or a drop.

It proves the properties listed under "## Model".

Modules:

- `PyStr` (`pystr.dfy`): the Python string operations the program relies on: `lower`, `endswith` with a tuple, and `replace`. `replace` replaces every non-overlapping occurrence, scanning left to right. An empty target inserts the replacement around every character.
- `PosixPath` (`posixpath.dfy`): `os.path.basename`, `os.path.splitext` and `os.path.join`, POSIX flavour.
- `Formats` (`formats.dfy`): `SUPPORTED_FORMATS`, the filter, and the list comprehension of `convert_folder`.
- `OutputPaths` (`output_paths.dfy`): the paths `convert_raw_to_jpg` and `extract_thumbnail` write, with concrete cases that show how `replace` behaves.
- `Conversion` (`conversion.dfy`): the decoder and the disk.
  - The RAW decoder is a map from a path to what `extract_thumb()` and `postprocess()` return or raise. A path it cannot open is absent.
  - The disk is a `FileSystem` object whose map of files the methods update in place.
  - `ConvertRawToJpg` and `ExtractThumbnail` are proved against the functions `FullConversionStep` and `ThumbnailStep`.
- `Worker` (`worker.dfy`): the `ConvertThread` class. Its `Run` loop is proved against `RunBatch`, and the signal sequence against `Trace`.
- `Rerun` (`rerun.dfy`): what a run does to each path, as an effect. An effect keeps the path, overwrites it, or fills it only if it is missing. Composing these effects proves that running the same queue a second time changes nothing.
- `Drop` (`drop.dfy`): `convert_folder` and `dropEvent`. Which dropped paths are directories is an input, and so is the folder listing.

Three behaviours of `main.py` that are easy to miss, all modelled as written:

- **Which extension is replaced.** The output name replaces every occurrence of the extension, including one inside the stem (`DoubledExtensionReplacedTwice`).
  - A name made only of an extension, such as ".cr2", is selected. `splitext` gives it an empty extension, so its output name is garbled (`ExtensionOnlyNameIsGarbled`).
- **Name collisions.** Output names depend only on the basename and its extension. "x/a.CR2" and "y/a.NEF" both become "a.jpg" (`DistinctSourcesCanCollide`).
- **What a second run does.** Thumbnails have no existence check and are rewritten with the same bytes; only the full conversion skips an existing output. So a second run still reports thumbnails as extracted, yet it leaves the disk exactly as it was and ends exactly as the first run did (`Rerun.RerunChangesNothing`).

## Model

| member | source | states |
|---|---|---|
| PyStr.LowerChar | main.py:97 | (definition) `str.lower` on one character: an upper-case ASCII letter becomes its lower-case partner, anything else is kept |
| PyStr.Lower | main.py:97 | `str.lower` on ASCII letters, character by character; the length is kept |
| PyStr.LowerSpec | main.py:97 | no upper-case ASCII letter is left, exactly the upper-case letters change (each to its lower-case partner), and lowering twice is lowering once |
| PyStr.EndsWith | main.py:128 | (definition) `str.endswith` with one suffix: the suffix is no longer than the string and is its tail |
| PyStr.EndsWithAny | main.py:97 | (definition) `endswith` with a tuple holds iff one of the suffixes ends the string |
| PyStr.Replace | main.py:30 | (definition) `str.replace`: every non-overlapping occurrence, scanned left to right, is replaced; an empty target puts the replacement before every character and at the end |
| PyStr.MatchCount | main.py:30 | (definition) the number of replacements `replace` performs, `str.count` |
| PyStr.ReplaceLength | main.py:30 | the result is as long as the string plus, per replacement, the difference between the replacement's and the target's lengths |
| PyStr.ReplaceLengthGrows | main.py:30 | a longer replacement never shortens `replace`'s result, and strictly lengthens it once anything matches |
| PyStr.OccurrenceIsMatched | main.py:30 | when the target occurs anywhere in the string, `replace` performs at least one replacement |
| PyStr.SuffixIsMatched | main.py:30 | a non-empty target that ends the string is always replaced at least once |
| PyStr.FirstCharAbsent | main.py:30 | a target whose first character is missing from the string never occurs in it |
| PyStr.ReplacementsDiffer | main.py:30 | once something matches, replacements of different lengths give different results |
| PyStr.ReplaceAbsent | main.py:30 | a string in which the target never occurs is returned unchanged |
| PyStr.ExtensionNotAtFront | main.py:30 | a dot-led extension cannot match at the front of a non-empty stem that does not contain it |
| PyStr.ReplaceFirstExtension | main.py:30 | the first occurrence of a dot-led extension after a stem that lacks it is replaced, and scanning resumes after it |
| PyStr.ReplaceSingleExtension | main.py:30 | `stem + ext` becomes `stem + replacement` when ext does not occur in the stem |
| PyStr.ReplaceWhole | main.py:30 | a string equal to the target becomes exactly the replacement |
| PyStr.ReplaceKeepsOut | main.py:30 | `replace` introduces no character that neither the string nor the replacement contains |
| PosixPath.RFind | main.py:30 | the result is -1 or an index holding the character, with no occurrence after it |
| PosixPath.RFindIs | main.py:30 | the last occurrence is determined by those two facts |
| PosixPath.Basename | main.py:30 | the basename has no separator, ends the path, and is preceded by a separator when shorter than the path |
| PosixPath.SplitExt | main.py:30 | root + ext is the path; ext is empty or a dot followed by dot- and separator-free text, preceded by a non-dot character of the last component; ext is empty exactly when every dot of the last component is preceded only by dots |
| PosixPath.ExtEndsBasename | main.py:30 | the extension is a suffix of the basename |
| PosixPath.Ext | main.py:30 | (definition) `os.path.splitext(p)[1]`, whose properties `SplitExt` states |
| PosixPath.Join | main.py:30 | (definition) two-argument `os.path.join`: an absolute second part replaces the first; otherwise one separator is inserted unless the first part is empty or already ends with one |
| PosixPath.RFindAppend | main.py:30 | appending text without the character does not move its last occurrence |
| PosixPath.JoinBasename | main.py:30 | a separator-free name joined to a folder is what `basename` returns |
| Formats.SupportedFormats | main.py:11 | (definition) `SUPPORTED_FORMATS`: the nine extensions, lower-case, in the program's order |
| Formats.IsSupported | main.py:97 | (definition) `f.lower().endswith(SUPPORTED_FORMATS)` over the nine formats of main.py:11 |
| Formats.SupportedIffLastFour | main.py:11 | a name is selected iff it has at least four characters and its last four, lower-cased, are one of the nine formats |
| Formats.SelectionIgnoresCase | main.py:97 | names equal up to ASCII case are selected together |
| Formats.AcceptedNames | main.py:97 | "IMG_0001.CR2", "dsc.Nef" and ".cr2" are selected |
| Formats.RejectedNames | main.py:97 | "a.txt", "a.cr2.xmp" and "cr2" are not selected |
| Formats.SelectSupported | main.py:97 | a name is kept iff it is listed and supported; the result is no longer than the listing |
| Formats.SelectionIsSubsequence | main.py:97 | the kept names are a subsequence of the listing: the filter keeps listing order |
| Formats.SelectionDistributes | main.py:97 | filtering a concatenation gives the concatenation of the filtered pieces |
| Formats.SelectionIdempotent | main.py:97 | filtering twice is filtering once |
| Formats.SelectionCounts | main.py:97 | each supported name is kept exactly as many times as it is listed, and no unsupported name is kept |
| Formats.FolderFiles | main.py:97 | the queued paths are the kept names, each joined to the folder, in listing order |
| Formats.SupportedAfterJoin | main.py:97 | a supported separator-free name is still supported after a folder is joined in front |
| Formats.FolderFilesAreSupported | main.py:97 | every queued path is supported, and its basename is a listed name |
| OutputPaths.OutputPath | main.py:30 | (definition) `os.path.join(output_folder, ...)` of the derived name, shared by main.py:30 and 45 |
| OutputPaths.OutputName | main.py:30 | (definition) `os.path.basename(p).replace(os.path.splitext(p)[1], suffix)` |
| OutputPaths.FullOutputPath | main.py:30 | (definition) the ".jpg" path `convert_raw_to_jpg` writes, in the output folder |
| OutputPaths.ThumbOutputPath | main.py:45 | (definition) the "_thumb.jpg" path `extract_thumbnail` writes, in the output folder |
| OutputPaths.BasenameSplits | main.py:30 | the basename is the stem followed by the extension |
| OutputPaths.OutputLandsInFolder | main.py:30 | the output name has no separator, so the output lands directly in the output folder under that name |
| OutputPaths.OutputIsStemPlusSuffix | main.py:30 | when the extension occurs in the basename only at its end, the output is the folder joined with stem + suffix |
| OutputPaths.ExtensionIsMatched | main.py:30 | `replace` always performs at least one replacement on a basename |
| OutputPaths.ThumbAndFullPathsDiffer | main.py:45 | for every source, the thumbnail path differs from the full conversion's path |
| OutputPaths.PlainNameMarks | main.py:30 | in `dir/stem.tail`, with no dot or separator in `stem` or `tail`, the last separator ends `dir` and the last dot follows `stem` |
| OutputPaths.PlainNameBasename | main.py:30 | the basename of `dir/stem.tail`, with no dot or separator in `stem` or `tail`, is `stem.tail` |
| OutputPaths.PlainNameExt | main.py:30 | with a non-empty stem as well, its extension is `.tail` |
| OutputPaths.PlainNameParts | main.py:30 | such a path, with a non-empty stem, has basename `stem.tail`, extension `.tail` and stem `stem` |
| OutputPaths.PlainNameOutput | main.py:30 | such a path's output name is the stem followed by the suffix |
| OutputPaths.OrdinaryNames | main.py:45 | "DCIM/IMG_0001.CR2" gives "IMG_0001.jpg" and "IMG_0001_thumb.jpg" |
| OutputPaths.DoubledExtensionReplacedTwice | main.py:30 | a stem that itself ends with the extension gets the suffix twice (all occurrences are replaced) |
| OutputPaths.ExtensionOnlyNameParts | main.py:30 | "raw/.cr2" has basename ".cr2" and an empty extension |
| OutputPaths.ExtensionOnlyNameIsGarbled | main.py:30 | "raw/.cr2" gives the output name ".jpg..jpgc.jpgr.jpg2.jpg" |
| OutputPaths.DistinctSourcesCanCollide | main.py:30 | "x/a.CR2" and "y/a.NEF" get the same output name "a.jpg" |
| Conversion.TargetStep | main.py:25 | (definition) the per-file call `extract_thumbnail(file_path, self.output_folder)` on a target's derived paths |
| Conversion.TargetOf | main.py:45 | a source's thumbnail path and full-conversion path never coincide |
| Conversion.FullConversionStep | main.py:32-38 | (definition) `convert_raw_to_jpg` once its path is derived: an existing output is skipped; otherwise the file is opened and post-processed, either of which may raise, and the image is written to the output path |
| Conversion.ThumbnailStep | main.py:42-55 | (definition) `extract_thumbnail` once its paths are derived: opening may raise; a JPEG thumbnail is written as bytes, a bitmap encoded, another format not written; no thumbnail or an unsupported one falls back to the full conversion; any other error raises |
| Conversion.FullConversionNeverOverwrites | main.py:32-38 | existing files keep their content; exactly the output path is added; the report is "already converted" iff the output existed; a failure only happens when it did not |
| Conversion.FullConversionIdempotent | main.py:32-34 | converting again on the result changes nothing and reports "already converted" |
| Conversion.ThumbnailFirst | main.py:47-51 | with a thumbnail, a JPEG's bytes are written verbatim, a bitmap is encoded, any other format writes nothing, and the ".jpg" output is untouched |
| Conversion.ThumbnailWritesOnlyThumbPath | main.py:47-51 | with a thumbnail, every path other than the thumbnail path keeps its presence and content |
| Conversion.FallbackExactlyOnNamedErrors | main.py:53-55 | `extract_thumbnail` acts as `convert_raw_to_jpg` iff the decoder reports no thumbnail or an unsupported one |
| Conversion.FallbackWritesFullOutput | main.py:53-55 | the fallback writes the decoded image to the ".jpg" path and leaves the "_thumb.jpg" path alone |
| Conversion.OtherErrorsPropagate | main.py:42-55 | a file the decoder cannot open, or any other thumbnail error, raises out of `extract_thumbnail` |
| Conversion.ThumbnailStepIdempotent | main.py:41-55 | extracting again on the result leaves the disk as it is (the thumbnail is rewritten with the same content) |
| Conversion.FileSystem.Exists | main.py:32 | (definition) `os.path.exists`: the path is a key of the disk |
| Conversion.FileSystem.constructor | main.py:32 | the disk starts with the given files |
| Conversion.FileSystem.Write | main.py:38 | writing sets one path and changes no other |
| Conversion.ConvertRawToJpg | main.py:29-39 | the report or exception and the new disk are those of `FullConversionStep` at the derived ".jpg" path |
| Conversion.ConvertRawToJpgAt | main.py:32-38 | the report or exception and the new disk are those of `FullConversionStep` |
| Conversion.ExtractThumbnail | main.py:41-55 | the report or exception and the new disk are those of `ThumbnailStep` at the derived paths |
| Conversion.ExtractThumbnailAt | main.py:42-55 | the report or exception and the new disk are those of `ThumbnailStep` |
| Worker.Targets | main.py:24-25 | one target per queued file |
| Worker.TargetsAt | main.py:24-25 | the i-th target is the i-th queued file with the paths derived for it |
| Worker.RunBatch | main.py:22-27 | no more files are processed than queued, and the run ends without an exception iff every file was processed |
| Worker.ProgressEvents | main.py:24-26 | k progress signals, the i-th being `progress(i + 1, total)` with the fixed total |
| Worker.Trace | main.py:26-27 | (definition) the signals of a run: one progress signal per processed file, then `completed` only if nothing raised |
| Worker.ProgressEventsGrow | main.py:26 | one more progress signal extends the sequence by `progress(k + 1, total)` |
| Worker.RunBatchFrom | main.py:24-25 | the run from the i-th file on is its first step followed by the rest |
| Worker.Advance | main.py:24-25 | the run so far, extended by the i-th file: an exception there ends it with i files processed, otherwise the rest runs on the new disk |
| Worker.SplitRun | main.py:24-25 | running a queue in two pieces is running the second piece on the disk the first left, unless the first raised |
| Worker.CompletedRun | main.py:22-27 | a run without an exception emits `progress(1, N)` … `progress(N, N)` and then exactly one `completed` |
| Worker.AbortedRun | main.py:24-27 | a run that raises at file k converted exactly the files before it, emitted k progress signals and no `completed`, and file k raised that exception on that disk |
| Worker.ConvertThread.constructor | main.py:17-20 | the thread keeps its queue and output folder |
| Worker.ConvertThread.Run | main.py:22-27 | the disk, the signals and the exception are those of `RunBatch` and `Trace` |
| Rerun.Then | main.py:32-51 | two effects in a row are one effect |
| Rerun.StepFollowsEffect | main.py:29-55 | a conversion step acts on every path as its disk-independent effect says |
| Rerun.BatchFollowsEffect | main.py:24-25 | a sequence of steps acts on every path as the composed effect says |
| Rerun.UnnamedPathKept | main.py:24-25 | a path that is neither a thumbnail path nor an output path of a queued file is kept |
| Rerun.SameLookups | main.py:32 | two disks that agree on every path are equal |
| Rerun.BatchFilesIdempotent | main.py:24-25 | converting the same targets twice (ignoring exceptions) leaves the disk as converting them once |
| Rerun.RunFollowsBatch | main.py:24-25 | a run leaves the disk as converting its processed prefix does |
| Rerun.OnlyTargetPathsChange | main.py:22-27 | a run never changes a path that is not an output of a queued file |
| Rerun.RunKeepsPaths | main.py:22-27 | a run never removes a file |
| Rerun.StepSuccessTransfers | main.py:32-34 | a step that succeeds on a disk succeeds on any disk with at least the same paths |
| Rerun.SuccessTransfers | main.py:22-27 | a run that completes on a disk completes on any disk holding its result's paths |
| Rerun.RerunOfCompletedPrefix | main.py:22-27 | re-running a completed run on its result completes with the same disk |
| Rerun.RerunChangesNothing | main.py:22-27 | re-running any run on its result gives the same disk, the same number of processed files and the same exception |
| Rerun.ThreadRerunChangesNothing | main.py:22-27 | a thread started again with the same queue and folder leaves the disk as it was and emits the same signals |
| Drop.ConvertFolder | main.py:93-104 | a job is started iff some listed name is supported; it queues the folder's supported files and writes to the folder's "converted" subfolder |
| Drop.SomeNameSelected | main.py:99 | the filter keeps something iff some name is supported |
| Drop.ScenarioRawNames | main.py:97 | "a.CR2" and "b.dng" are RAW files |
| Drop.MixedFolderSelection | main.py:97 | of "a.CR2", "a.txt", "b.dng" the filter keeps "a.CR2" and "b.dng", in that order |
| Drop.MixedFolderScenario | main.py:93-104 | folder "d" with that listing starts a job over "d/a.CR2", "d/b.dng" writing to "d/converted" |
| Drop.ScenarioJoins | main.py:94 | joining to "d" inserts one separator |
| Drop.FirstDirectory | main.py:123-127 | the result is the first directory's position, and is absent iff no dropped path is a directory |
| Drop.DropPlan | main.py:122-136 | (definition) the first dropped directory goes to `convert_folder`; otherwise the supported dropped paths, in order, form a job for the working directory's "converted" folder, or nothing happens when there are none |
| Drop.FirstDirectoryWins | main.py:125-127 | the first dropped directory is handed to `convert_folder`, whatever was dropped before or after it |
| Drop.DroppedFilesPlan | main.py:122-136 | without a directory, the drop queues exactly the supported dropped files, each as often as it was dropped, in drop order, for the working directory's "converted" folder, and does nothing iff none is supported |
| Drop.SelectionGrows | main.py:128-129 | filtering one more dropped path appends it iff it is supported |
| Drop.DropEvent | main.py:118-136 | the scan with its early return yields `DropPlan` |

## Left out

- The Qt window, labels, progress bar, styling, the folder dialog and the signal/slot wiring (main.py:57-91, 100, 102-103, 106-116, 132, 134-135, 138-143) are not modelled. They are UI. Signals are modelled as the returned event sequence.
- `QThread` scheduling is not modelled. Neither is replacing `self.thread` while a thread is still running, or losing the first job's completion. `run` is modelled as a sequential method.
- rawpy and imageio are not modelled. The decoder is a map from path to outcome. JPEG encoding is kept symbolic (`JpegEncoded(pixels)`), and so is the decoded image.
- Write errors, a directory sitting at an output path, and `with` releasing the decoder handle are not modelled. Nor is an exception other than those named in `Failure`, such as one raised by `imageio`.
- The disk is keyed by the exact path string: two different strings are two different files. Case-insensitive file systems (the macOS default), Unicode normalisation of names, symlinks and hard links are not modelled. On such a disk `os.path.exists` (main.py:32) and the writes (main.py:38, 48-51) can treat "converted/A.jpg" and "converted/a.jpg" as one file, whereas `FullConversionStep` adds a second entry; `Rerun.OnlyTargetPathsChange` and the other disk lemmas hold for the string-keyed disk only.
- `os.makedirs`, `os.getcwd` and `os.listdir` are not modelled. The folder listing, the working directory and which dropped paths are directories are inputs. Listing order is whatever the input gives.
- `print` logging is not modelled. The log line becomes the `Report` value.
- `url.toLocalFile()` is not modelled: dropped paths are taken as already converted to local paths.
- When a dropped directory is handed to `convert_folder`, the model stops at `ConvertDroppedFolder(path)`. `ConvertFolder` then needs that folder's listing as a further input.
- PyStr.LowerChar: lowers only ASCII letters, whereas Python's `str.lower` also lowers other letters. This changes no answer of the filter. Under Unicode's case mappings only two non-ASCII characters lower to text containing ASCII: U+212A KELVIN SIGN becomes "k", and U+0130 becomes "i" followed by the non-ASCII mark U+0307. None of the nine extensions contains "k" or "i", and U+0130's lowered form ends in a non-ASCII character. Every other non-ASCII character lowers to non-ASCII text, which no extension matches.
- `os.path` is modelled as `posixpath` only, with '/' as the one separator. On Windows, Python uses `ntpath`, whose backslash separators and drive letters change `basename`, `splitext` and `join`; that behaviour is not modelled.
- Conversion.ConvertRawToJpg derives the output path first and then runs the body, as two methods. `ExtractThumbnail` also derives the fallback's path up front. Both derivations are pure, so this order changes nothing.
