# Photo organiser scripts, modelled in Dafny

The repository holds four command-line scripts that organise a folder of
photos:

- `image_renamer.py` copies or moves each image file that the EXIF library
  can open into a year bucket under an output directory. Files it cannot
  open are skipped, and the first write that raises ends the run. The bucket
  is the text before the first colon of the EXIF capture timestamp, or
  `Other` when there is none. A file with a timestamp is renamed after it,
  with colons turned into dashes and spaces into underscores, plus the
  original extension. For a standard EXIF timestamp that gives
  `YYYY-MM-DD_HH-MM-SS`. A file without a timestamp keeps its basename.
- `image_resizer.py` writes a copy of each image file that the image library
  can open into the same kind of year bucket, keeping its basename. Files it
  cannot open are skipped, and a copy or save that raises ends the run. The
  copy is shrunk so that its larger side is `max_dim`. Images already
  smaller than `max_dim` are copied unchanged.
- `exif_date_adder.py` writes a fixed date into the EXIF capture timestamp of
  image files that the EXIF library can open. With `--overwrite` it stamps
  every such file. Without it, it stamps only those whose timestamp read
  raises. It advances the time of day by one second per file stamped and
  stops after 86 400 stamps, so the stamps of one run are distinct and
  increase, as text, in processing order (`DateAdder.RunStampsIncrease`). A
  serialisation that raises ends the run.
- `google_uploader.py` walks a directory tree and uploads each file whose
  name ends in an image suffix. It counts the successes and lists the
  failures in `failed_uploads.txt`.

Both organisers handle a name clash in one of three ways:

- `--skip` skips the file.
- `--overwrite` overwrites the existing file.
- Otherwise a marker is inserted before the extension until the name is
  free: `D` for the renamer, `_RESIZED` for the resizer.

Originals are copied, or moved or deleted under `--delete-orig`.

The filesystem is modelled as a value: a map from path to bytes, plus a set
of directories. Each script's `main` loop is a method that threads this
value, the count of converted files and an "aborted" flag through the list
of image files. An exception that the script does not catch ends the run, so
it sets the flag and stops the loop. Each loop method is proved equal to a
fold (`Runs.RunAll`) of a per-file step function. The lemmas about the step
functions state what the scripts promise: which files are skipped, where a
file lands, which bytes it gets, what else changes, and the bounds on the
counts.

The EXIF and image libraries are represented by their outcome per file.
Examples are "cannot open", "the timestamp is X" and "the image is w by h".
The image encoder and the EXIF serialiser are function parameters. Network
outcomes in the uploader are also given per file.

Some behaviours of the code as written are proved rather than smoothed over:

- The date adder skips a file without `--overwrite` whenever
  `image.get("datetime_original")` returns, even when it returns `None`. A
  file is stamped only when that read raises (`DateAdder.SkippedWhenReadReturns`).
- With `--overwrite` and `--delete-orig`, a resize whose target is the source
  itself saves over the source and then deletes it. The image is lost but
  counted (`Resizer.ResizeOntoSourceLosesImage`).
- `os.path.join` discards the output directory when the timestamp starts
  with `/`: such a file is written outside the output directory
  (`Renamer.AbsoluteTimestampLeavesOutput`). For any other timestamp the
  file stays in its year bucket (`Renamer.DestinationUnderBucket`).
- The uploader's suffix filter needs no dot. `xjpg` is uploaded, although
  the organisers would not treat it as an image (`Paths.UploadNeedsNoDot`).

`str.lower` is modelled on ASCII letters only. This changes no decision made
here. The decisions compare a lower-cased extension or name suffix with
`.png`, `.jpg`, `.jpeg`, `png`, `jpg` or `jpeg`. The only non-ASCII
characters that Python lower-cases into ASCII are the Kelvin sign (to `k`)
and the dotted capital I (to `i` plus a combining mark). Neither letter
occurs in those suffixes.

## Model

| member | source | states |
|---|---|---|
| Paths.RFind | image_renamer.py:14 | The result is -1 or an index holding the character, and no later index holds it (the last-occurrence search inside `os.path.splitext` and `os.path.basename`). |
| Paths.RFindAppend | image_renamer.py:14 | Searching a concatenation finds the right part's occurrence when there is one, else the left part's. |
| Paths.SplitExtParts | image_renamer.py:14 | `splitext` loses nothing: root + extension is the path. A non-empty extension is one dot followed by no dot or separator, and the root's last component has a non-dot character. |
| Paths.SplitAtExtension | image_renamer.py:148-152 | Appending a real extension to a root with a named last component splits back into exactly those two parts. |
| Paths.NoExtensionAppend | image_renamer.py:148-152 | Appending text without dots or separators to an extension-less path leaves it extension-less. |
| Paths.ExtOfLastComponent | image_renamer.py:132 | The extension of a path is the extension of its last component. |
| Paths.BasenameHasNoSeparator | image_resizer.py:150 | `os.path.basename` yields no `/`. |
| Paths.BasenameSplits | image_resizer.py:150 | A path is its directory part (empty or ending in `/`) followed by its basename. |
| Paths.SplitExt | image_renamer.py:14 | Definition, no contract: `os.path.splitext` on POSIX paths. |
| Paths.Basename | image_renamer.py:136 | Definition, no contract: everything after the last `/`. |
| Paths.IsImageFile | image_renamer.py:13-14 | Definition, no contract: the lower-cased extension is `.png`, `.jpg` or `.jpeg`. |
| Paths.UploadQualifies | google_uploader.py:90 | Definition, no contract: the lower-cased name ends in `png`, `jpg` or `jpeg`. |
| Paths.Join | image_resizer.py:151 | `os.path.join`: an absolute second part replaces the first. Otherwise the result starts with the first part, then at most one extra character, then the second part; that extra character, when present, is a `/` right after the first part. |
| Paths.Relative | image_renamer.py:126 | Definition, no contract: a path that `os.path.join` appends rather than substitutes (empty, or not starting with `/`). |
| Paths.JoinSplits | image_renamer.py:138 | Joining a relative name is joining the empty name (the directory with its separator) and then appending the name. |
| Paths.RootKeepsDirectory | image_renamer.py:148-152 | Cutting the extension off a path never cuts into a directory prefix that ends with a separator. |
| Paths.BasenameOfJoin | google_uploader.py:91 | The basename of a directory joined with a separator-free non-empty name is that name. |
| Paths.ExtOfJoin | image_resizer.py:150-151 | Joining a separator-free name onto a directory keeps the name's extension. |
| Paths.Lower | image_renamer.py:14 | Lower-casing keeps the length and leaves no ASCII capital. A character changes only if it is an ASCII capital, which becomes its lower-case letter. |
| Paths.LowerIdempotent | image_renamer.py:14 | Lower-casing twice is lower-casing once. |
| Paths.LowerAppend | image_renamer.py:14 | Lower-casing distributes over concatenation. |
| Paths.FormatIsExtension | image_renamer.py:10 | Every string that lower-cases to one of `.png`, `.jpg` or `.jpeg` is a 4- or 5-character extension. |
| Paths.ImageFileEndsInFormat | image_renamer.py:13-14 | An image file ends in a recognised format, in any case, after a named component. |
| Paths.FormatSuffixIsImageFile | image_renamer.py:13-14 | Conversely, such a suffix makes the path an image file. |
| Paths.IsImageFileIsSuffixTest | image_renamer.py:13-14 | `is_image_file` holds exactly when the path ends in a recognised format after a named last component. |
| Paths.UpperCaseExtensionIsImage | image_renamer.py:13-14 | `a.JPG` is an image file: case does not matter. |
| Paths.NestedJpegIsImage | image_renamer.py:13-14 | `/photos/x.jpeg` is an image file. |
| Paths.NonImageExamples | image_renamer.py:13-14 | `a.gif` and the bare name `jpg` are not image files. |
| Paths.HiddenFileNotImage | image_renamer.py:13-14 | The hidden file `/photos/.jpg` has no extension, so it is not an image file. |
| Paths.LowerSuffix | google_uploader.py:90 | A suffix of the lower-cased name is the lower-cased suffix. |
| Paths.ExtensionEndsBasename | image_renamer.py:132 | The extension is a suffix of the basename. |
| Paths.ImageFileQualifiesForUpload | google_uploader.py:90 | The basename of every file the organisers treat as an image passes the uploader's suffix test. |
| Paths.UploadNeedsNoDot | google_uploader.py:90 | The converse fails: `xjpg` passes the uploader's test but is not an image file. |
| Paths.BareSuffixQualifies | google_uploader.py:90 | `xjpg` passes the uploader's suffix test. |
| Paths.BareSuffixNotImage | image_renamer.py:13-14 | `xjpg` has no extension, so it is not an image file. |
| FileSystem.EnsureDir | image_renamer.py:126-129 | Afterwards the directory exists; the only directory added is that one, and no file changes. No path becomes both a file and a directory. |
| FileSystem.CopyFile | image_renamer.py:159 | The destination gets the source's bytes, the file set grows by the destination only, and no other file changes. A destination that is not a directory keeps files and directories apart. |
| FileSystem.Rename | image_renamer.py:156 | The bytes move to the destination and the source disappears (unless they are one path); no other file changes. A destination that is not a directory keeps files and directories apart. |
| FileSystem.WriteFile | image_resizer.py:189 | The destination holds the given bytes; no other file changes. A destination that is not a directory keeps files and directories apart. |
| FileSystem.Remove | image_resizer.py:195 | Exactly that path is gone; the remaining files keep their bytes. |
| FileSystem.Holds | image_renamer.py:159 | Definition, no contract: the regular file exists with exactly the given bytes. |
| Scanner.ImageFiles | image_renamer.py:97 | The filtered list has exactly the scanned entries whose path is an image file, and is no longer than the scan. |
| Scanner.ImageFilesCounts | image_renamer.py:97 | Each scanned image file is kept as often as it was scanned, and nothing else is kept. |
| Scanner.ImageFilesAppend | image_renamer.py:97 | Filtering a split scan filters each part and keeps them in order, so the scan's order is kept. |
| Scanner.ImageFilesSnoc | image_renamer.py:97 | One more scanned entry is appended to the result exactly when it is an image file. |
| Placement.BeforeColon | image_renamer.py:117 | `split(":")[0]` is a prefix with no colon, and it ends just before the first colon when there is one. |
| Placement.BeforeColonAt | image_renamer.py:117 | When the first colon is at index n, `split(":")[0]` is exactly the first n characters. |
| Placement.Bucket | image_renamer.py:113-123 | Definition, no contract: the text before the first colon of the timestamp, or `Other`. |
| Placement.YearDirectory | image_renamer.py:126 | Definition, no contract: the bucket joined onto the output directory. |
| Placement.TimestampName | image_renamer.py:134 | Definition, no contract: colons to dashes, then spaces to underscores. |
| Placement.RenamedFilename | image_renamer.py:131-137 | Definition, no contract: the timestamp name plus the source's extension, or the basename when there is no non-empty timestamp. |
| Placement.BucketIsYear | image_renamer.py:117 | A timestamp of the EXIF form `YYYY:...` goes into the bucket named by its four-digit year. |
| Placement.TimestampNameChars | image_renamer.py:134 | The new name has the timestamp's length, with colons turned into dashes and spaces into underscores; it holds no colon and no space. |
| Placement.TimestampNameExample | image_renamer.py:134 | `2021:05:03 10:15:02` with `.jpg` becomes `2021-05-03_10-15-02.jpg`. |
| Placement.BasenameKeepsExtension | image_renamer.py:132-136 | The basename of a path has the path's extension. |
| Placement.RenamedKeepsExtension | image_renamer.py:131-138 | The new filename keeps the source's extension, so a renamed image is still an image file, when the timestamp holds no dot or separator. |
| Placement.YearDirectoryUnderOutput | image_renamer.py:113-126 | A bucket from a relative timestamp (or `Other`) is relative, so the year directory starts with the output directory. |
| Placement.RenamedFilenameRelative | image_renamer.py:131-137 | For a relative timestamp the new filename is relative: a timestamp name keeps the timestamp's first character, and a basename holds no separator. |
| Resolver.Text | image_renamer.py:150 | Both markers, `D` and `_RESIZED`, are non-empty and hold no dot or separator. |
| Resolver.RepeatIsMarkerText | image_renamer.py:147-153 | Any number of markers together hold no dot or separator. |
| Resolver.DecoratedDistinct | image_renamer.py:147-153 | Different numbers of insertions give different paths. |
| Resolver.DecoratedSplits | image_renamer.py:148-152 | Re-splitting a decorated path gives the root plus the markers, and the original extension. |
| Resolver.DecoratedStep | image_renamer.py:148-152 | One turn of the duplicate loop turns k insertions into k + 1. |
| Resolver.DecoratedZero | image_renamer.py:138 | With no insertion the path is unchanged. |
| Resolver.DecorationsCount | image_renamer.py:147-153 | The first n decorations are n different paths. |
| Resolver.TakenBound | image_renamer.py:147-153 | If the first n decorations all name existing files, there are at least n files, so the loop ends. |
| Resolver.FreeIndex | image_renamer.py:147-153 | The least number of insertions whose path names no existing file: it is free, every smaller count is taken, and it is at most the number of files. |
| Resolver.FreeIndexUnique | image_renamer.py:147-153 | A count that is free, with every smaller count taken, is that least count. |
| Resolver.ResolveDuplicate | image_renamer.py:146-153 | The loop ends on a path naming no existing file: the least free decoration. |
| Resolver.ResolveAfterWrite | image_renamer.py:147-159 | After the resolved path is written, resolving the same wanted path needs more insertions, and exactly one more when the next decoration was free. |
| Resolver.ResolveAfterMove | image_renamer.py:147-156 | When the source leaves as its resolved path arrives, resolving the same wanted path needs exactly one more insertion, if the source was none of the taken decorations and the next one was free. |
| Resolver.DestinationKeepsDirectory | image_renamer.py:146-153 | Any number of inserted markers keeps the wanted path's directory prefix. |
| Resolver.Decorated | image_renamer.py:147-153 | Definition, no contract: the wanted path after k insertions of the marker before its extension. |
| Resolver.Destination | image_renamer.py:146-153 | Definition, no contract: the wanted path under `--overwrite`, else its least free decoration. |
| Runs.RunAllSnoc | image_renamer.py:103 | Processing one more file applies the step to the state so far, unless the run has ended. |
| Runs.AbortedStays | image_renamer.py:103 | After an uncaught exception, the remaining files change nothing. |
| Runs.ConvertedBound | image_renamer.py:102-162 | If each step counts at most one file, the run counts at most one per file. |
| Runs.FixedStays | exif_date_adder.py:90-92 | Once no step changes the state, the remaining files change nothing. |
| Runs.CountStaysAtMost | exif_date_adder.py:89-92 | If no step lifts the count above a cap, the whole run stays within it. |
| Runs.RunKeepsWellFormed | image_renamer.py:103-162 | If every step keeps files and directories apart, so does the whole run. |
| Runs.RunAll | image_renamer.py:102-162 | Definition, no contract: the files processed in order by the step until one aborts. |
| Renamer.StepCountsAtMostOne | image_renamer.py:162 | A file adds at most one to `converted_count`. |
| Renamer.ProcessFile | image_renamer.py:104-162 | One loop iteration leaves exactly the disk, count and abort flag that the step function gives. |
| Renamer.Run | image_renamer.py:97-162 | The loop computes the fold of the step over the image files, and counts at most one per image file. |
| Renamer.UnreadableSkipped | image_renamer.py:105-111 | A file that cannot be opened or parsed changes nothing. |
| Renamer.SkipWhenTargetExists | image_renamer.py:143-145 | With `--skip`, a file whose target exists writes nothing, is not counted and does not abort. |
| Renamer.NoOverwriteWithoutFlag | image_renamer.py:143-162 | Without `--overwrite`, the file lands on the least free decoration of its target, with the source's bytes. The file set changes by that path (and loses the source under `--delete-orig`), no other file changes, and the count goes up by one. |
| Renamer.OverwriteReplacesTarget | image_renamer.py:146-162 | With `--overwrite`, the undecorated target gets the source's bytes and no other file changes. A copy keeps the source; a move removes it. |
| Renamer.AbortOnlyOnFailingWrite | image_renamer.py:155-160 | A file ends the run only if its destination is a directory, its bucket is a regular file, or (when copying) the destination is the source itself, which only `--overwrite` can cause. |
| Renamer.BucketFileAborts | image_renamer.py:126-160 | When the bucket path is a regular file, the write under it raises: the run ends and the disk is unchanged. |
| Renamer.TargetUnderBucket | image_renamer.py:126-138 | For a relative timestamp the year directory starts with the output directory, and the target starts with the year directory. |
| Renamer.DestinationUnderBucket | image_renamer.py:126-153 | For a relative timestamp the path actually written, after any `D`s, starts with the year directory. |
| Renamer.AbsoluteTimestampLeavesOutput | image_renamer.py:126-138 | `a.jpg` with timestamp `/x` and output `out` is headed for `/x.jpg`, outside the output directory. |
| Renamer.LandsOnResolved | image_renamer.py:143-162 | Without `--overwrite`, the file lands on the least free decoration of its target with the source's bytes, the file set changes by that path (and loses the source when moving), and the count goes up by one. |
| Renamer.CopyLeavesOthers | image_renamer.py:159 | A copy keeps every file other than its destination, the source included, with its bytes. |
| Renamer.SecondCopyGetsOneMoreMarker | image_renamer.py:143-159 | In copy mode, when a second file c2 derives the same target as a first file c1 and the name with one more `D` than c1's was free, c2 is resolved to that name. After both steps c1's copy is still in place with c1's bytes, c2's copy holds c2's bytes, and the count has risen by two. |
| Renamer.SecondMoveGetsOneMoreMarker | image_renamer.py:143-156 | In move mode, with the same target, that name free, and c1 none of the taken names c1's resolution passed over: c2 is resolved to one more `D`. c1 was moved there with its bytes, c2 lands on the next name with its bytes and leaves its old path, and the count has risen by two. |
| Renamer.StepKeepsWellFormed | image_renamer.py:126-160 | A step never leaves a path that is both a file and a directory. |
| Renamer.RunKeepsDiskWellFormed | image_renamer.py:103-162 | A run from a disk whose files and directories are apart ends on such a disk. |
| Renamer.Target | image_renamer.py:126-138 | Definition, no contract: the new filename joined onto the year bucket. |
| Renamer.WriteFails | image_renamer.py:155-160 | Definition, no contract: the copy or move raises onto a directory, under a bucket that is a file, or (copying) onto the source. |
| Renamer.Step | image_renamer.py:104-162 | Definition, no contract: one loop iteration on the run state. |
| Renamer.ConvertedAtMostImageFiles | image_renamer.py:164 | The renamed count is at most the number of image files, which is at most the number of scanned files. |
| Scaling.Biggest | image_resizer.py:168 | `biggest_dim` is one of the sides and at least both. |
| Scaling.ScaledSide | image_resizer.py:177-185 | A scaled side is the floor of the exact product; it never exceeds the old side or `max_dim`; the larger side becomes exactly `max_dim`. |
| Scaling.ScaledMonotone | image_resizer.py:182-185 | Scaling keeps the order of the sides. |
| Scaling.ScaledPositive | image_resizer.py:185 | A side survives truncation exactly when its product with `max_dim` reaches the larger side. |
| Scaling.ResizableIff | image_resizer.py:168-185 | The resize can succeed exactly when `max_dim` is positive, at most the larger side, and the smaller side times it reaches the larger side. |
| Scaling.ThinImageNotResizable | image_resizer.py:177-185 | A 1000 by 1 image at `max_dim` 100 would get height 0, so the resize fails. |
| Resizer.TargetKeepsName | image_resizer.py:150-151 | The target keeps the source's extension, so it is still an image file. |
| Resizer.TargetUnderBucket | image_resizer.py:145-163 | For a relative timestamp the year directory starts with the output directory, and both the target and the path written after any `_RESIZED`s start with the year directory. |
| Resizer.StepCountsAtMostOne | image_resizer.py:200 | A file adds at most one to `converted_count`. |
| Resizer.ProcessFile | image_resizer.py:113-200 | One loop iteration leaves exactly the disk, count and abort flag that the step function gives. |
| Resizer.Save | image_resizer.py:165-200 | Copy, or resize, save and delete, as the emit function says for the resolved destination. A save that raises ends the run. |
| Resizer.Run | image_resizer.py:106-200 | The loop computes the fold of the step over the image files, and counts at most one per image file. |
| Resizer.UnopenableSkipped | image_resizer.py:114-119 | A file the image library cannot open changes nothing. |
| Resizer.SkipWhenTargetExists | image_resizer.py:153-155 | With `--skip`, a file whose target exists writes nothing, is not counted and does not abort. |
| Resizer.SmallImageCopied | image_resizer.py:170-175 | An image smaller than `max_dim` is copied byte for byte to its destination. It is not counted, and its original stays even with `--delete-orig`. |
| Resizer.LargeImageResized | image_resizer.py:165-200 | Otherwise `max_dim` is positive and the new size is positive, no larger than before, with larger side `max_dim`. The save at that size succeeded and its bytes are at the destination, the original is removed exactly under `--delete-orig`, and the file is counted. |
| Resizer.SaveFailureAborts | image_resizer.py:187-192 | When both save attempts raise, the run ends, no file changes and nothing is counted. |
| Resizer.BucketFileAborts | image_resizer.py:145-192 | When the bucket path is a regular file, the copy or save under it raises: the run ends and the disk is unchanged. |
| Resizer.StepKeepsWellFormed | image_resizer.py:145-196 | A step never leaves a path that is both a file and a directory. |
| Resizer.RunKeepsDiskWellFormed | image_resizer.py:112-200 | A run from a disk whose files and directories are apart ends on such a disk. |
| Resizer.Target | image_resizer.py:145-151 | Definition, no contract: the source's basename joined onto the year bucket. |
| Resizer.Emit | image_resizer.py:165-200 | Definition, no contract: copy a small image, or resize, save and delete; a failing copy, resize or save aborts. |
| Resizer.Step | image_resizer.py:113-200 | Definition, no contract: one loop iteration on the run state. |
| Resizer.ResizeAbortsWhenTooThin | image_resizer.py:177-185 | A non-positive `max_dim`, or a smaller side that truncates to zero, raises and ends the run with no file written. |
| Resizer.ResizeOntoSourceLosesImage | image_resizer.py:156-200 | With `--overwrite` and `--delete-orig`, an image already at its target is saved over and then deleted, yet counted. |
| Resizer.ConvertedAtMostImageFiles | image_resizer.py:202 | The resized count is at most the number of image files, which is at most the number of scanned files. |
| DateAdder.DateFormatExamples | exif_date_adder.py:37-39 | For any digit class holding the ASCII digits and not `:`, the date check accepts `YYYY:MM:DD` with anything after it, and rejects dashes and two-digit years. |
| DateAdder.ArabicIndicDateAccepted | exif_date_adder.py:37 | A date in Arabic-Indic digits passes when the digit class holds them, as `\d` on a `str` does. |
| DateAdder.DateFormatPrefix | exif_date_adder.py:37 | `re.match` anchors at the start only: the first ten characters decide. |
| DateAdder.StampBucketsByYear | exif_date_adder.py:84 | A stamp written with an accepted date is bucketed by the organisers under the date's first four characters (image_renamer.py:117). |
| DateAdder.DateFormatOk | exif_date_adder.py:37 | Definition, no contract: `\d{4}:\d{2}:\d{2}` at the start, with the digit class as a parameter. |
| DateAdder.Clock | exif_date_adder.py:72-74 | Definition, no contract: hours, minutes and seconds from the count. |
| DateAdder.Stamp | exif_date_adder.py:84 | Definition, no contract: the date, a space and `HH:MM:SS`. |
| DateAdder.Eligible | exif_date_adder.py:76-82 | Definition, no contract: parsed, and either `--overwrite` or the timestamp read raises. |
| DateAdder.Step | exif_date_adder.py:64-89 | Definition, no contract: one loop iteration on the run state. |
| DateAdder.ClockParts | exif_date_adder.py:72-74 | Hours, minutes and seconds recompose the count, with minutes and seconds below 60 and, within a day, hours below 24. |
| DateAdder.Decimal | exif_date_adder.py:84 | A decimal numeral is non-empty, all digits, reads back in base ten as the number, and starts with `0` only for zero. |
| DateAdder.Pad2Small | exif_date_adder.py:84 | Below 100, `:02d` gives exactly the tens digit and the units digit. |
| DateAdder.TimeRoundTrip | exif_date_adder.py:72-84 | Within a day, the `HH:MM:SS` text of a count has 8 characters and reads back as that count. |
| DateAdder.StampInjective | exif_date_adder.py:72-84 | Within a day, different counts give different timestamps. |
| DateAdder.StampExample | exif_date_adder.py:84 | Counts 3661 and 86399 give `01:01:01` and `23:59:59`. |
| DateAdder.NumeralValue | exif_date_adder.py:84 | Definition, no contract: the value of a digit string in base ten. |
| DateAdder.LexLessAt | exif_date_adder.py:84 | Definition, no contract: Python's string `<`, decided at index i. |
| DateAdder.LexLess | exif_date_adder.py:84 | Definition, no contract: Python's string `<` (a proper prefix, or a smaller character at the first difference). |
| DateAdder.LexLessCommonPrefix | exif_date_adder.py:84 | A common prefix keeps the order of two strings. |
| DateAdder.LexLessExtend | exif_date_adder.py:84 | Between two strings of one length, whatever follows keeps their order. |
| DateAdder.Pad2Ordered | exif_date_adder.py:84 | Below 100, `:02d` fields are two characters and compare as their values. |
| DateAdder.ClockOrdered | exif_date_adder.py:72-74 | A larger count gives a later (hours, minutes, seconds) triple, compared field by field. |
| DateAdder.FieldsOrdered | exif_date_adder.py:84 | `HH:MM:SS` texts compare by the first of their three fields that differs. |
| DateAdder.TimeTextOrdered | exif_date_adder.py:72-84 | Within a day, a larger count gives a later `HH:MM:SS` in string order. |
| DateAdder.StampOrdered | exif_date_adder.py:72-84 | Within a day, a larger count gives a later stamp in string order. |
| DateAdder.StampsFile | exif_date_adder.py:64-89 | Definition, no contract: the loop, reaching the file, stamps and writes it back. |
| DateAdder.Stamped | exif_date_adder.py:61-92 | Definition, no contract: the files a run stamps, in order, with the count whose time of day each is written with. |
| DateAdder.StepCountsStamps | exif_date_adder.py:84-89 | The count rises by one exactly at a file the loop stamps, and otherwise stays. |
| DateAdder.StampedFollowCount | exif_date_adder.py:61-92 | The i-th file a run stamps gets the starting count plus i, and the final count is the start plus the number stamped. |
| DateAdder.RunStampsIncrease | exif_date_adder.py:61-92 | In a run, the i-th stamped file gets time of day i seconds, the count is the number stamped, and the stamps strictly increase in string order in processing order, so they are distinct. |
| DateAdder.CountedStampsIncrease | exif_date_adder.py:72-92 | Stamps for the counts 0, 1, … within a day strictly increase in string order. |
| DateAdder.ProcessFile | exif_date_adder.py:63-89 | One loop iteration leaves exactly the disk, count and abort flag that the step function gives. |
| DateAdder.StampAll | exif_date_adder.py:61-92 | The loop, with its break at a full day, computes the fold of the capped step over the image files. |
| DateAdder.Run | exif_date_adder.py:37-92 | A malformed date changes nothing. Otherwise the run is the fold of the capped step, and the count is at most 86400 and at most the number of image files. |
| DateAdder.StepBeforeFullDay | exif_date_adder.py:90-92 | Below a full day the capped step is the plain step. |
| DateAdder.FullDayStays | exif_date_adder.py:90-92 | After 86400 stamps the remaining files change nothing. |
| DateAdder.CountBounds | exif_date_adder.py:89-94 | The count never exceeds 86400 or the number of image files. |
| DateAdder.StepStaysWithinDay | exif_date_adder.py:89-92 | A step never lifts the count past a full day. |
| DateAdder.StepCountsAtMostOne | exif_date_adder.py:89 | A file adds at most one to the count. |
| DateAdder.StampedWithCount | exif_date_adder.py:72-89 | A stamped file's bytes become the encoding of the date plus the time of day of the count so far (hours below 24). No other file changes, and the count goes up by one. |
| DateAdder.SkippedWhenReadReturns | exif_date_adder.py:76-82 | Without `--overwrite`, a file whose timestamp read returns, even `None`, changes nothing. |
| DateAdder.StepTouchesOnlyEligible | exif_date_adder.py:64-89 | Only an existing, parsed and eligible file changes. No other file changes and no file appears or disappears. |
| DateAdder.SerialiseFailureEmptiesFile | exif_date_adder.py:86-87 | If serialising raises after the file was opened for writing, the file is left empty and the run ends. |
| DateAdder.StepKeepsWellFormed | exif_date_adder.py:86-87 | Stamping rewrites an existing file, so files and directories stay apart. |
| Uploader.Sanitize | google_uploader.py:30-32 | The sanitised name is no longer than the name and holds only ASCII characters taken from it. |
| Uploader.SanitizeAppend | google_uploader.py:30-32 | Sanitising distributes over concatenation. |
| Uploader.SanitizeKeepsAscii | google_uploader.py:30-32 | An ASCII name is unchanged. |
| Uploader.SanitizeIdempotent | google_uploader.py:30-32 | Sanitising twice is sanitising once. |
| Uploader.SanitizeDropsNonAscii | google_uploader.py:30-32 | The length drops by exactly the number of non-ASCII characters. |
| Uploader.SanitizeDropsBetween | google_uploader.py:30-32 | A non-ASCII character between ASCII text is dropped and the text closes up. |
| Uploader.UploadNameOfWalkedFile | google_uploader.py:38 | The upload header name of a walked file is its sanitised file name. |
| Uploader.DirAttempts | google_uploader.py:89-91 | A listing yields at most one attempt per file. |
| Uploader.SnocAttempts | google_uploader.py:94-102 | One more attempt adds one to the successes, or appends its path to the failures. |
| Uploader.SuccessesAndFailuresPartition | google_uploader.py:85-105 | Every tried file is counted as uploaded or listed as failed, never both. |
| Uploader.FailedAreUnsuccessful | google_uploader.py:98-102 | A listed failure is the path of a tried file that did not succeed. |
| Uploader.ReportLines | google_uploader.py:108-111 | The report has one line per failed file when no path holds a line break. |
| Uploader.UploadFile | google_uploader.py:90-102 | The inner loop body adds the file's outcome to the counters, and only for a qualifying name. |
| Uploader.UploadDirectory | google_uploader.py:89-102 | The inner loop adds the outcomes of one listing's qualifying files, in order. |
| Uploader.UploadAll | google_uploader.py:85-113 | The counters are the successes and failures of all attempts and add up to their number. The report is written exactly when something failed. |
| Uploader.Succeeds | google_uploader.py:94-99 | Definition, no contract: a non-empty token came back and creating the media item did not raise. |
| Uploader.SuccessCount | google_uploader.py:85-97 | Definition, no contract: `successful_uploads` after the given attempts. |
| Uploader.FailedPaths | google_uploader.py:86-102 | Definition, no contract: `failed_uploads` after the given attempts. |
| Uploader.Report | google_uploader.py:108-111 | Definition, no contract: one failed path per line. |

## Left out

- Authentication (`authenticate`, OAuth, `token.json`) and the HTTP requests of the uploader are outside the model. Each file's upload outcome is an input.
- `create_media_item` only prints whether creation succeeded. The model keeps just whether it raised, because that alone affects the counts.
- Command-line parsing, the `abspath` of the input and output directories, and the checks that they exist (which exit early) are not modelled.
- Logging and all printed messages are not modelled.
- The directory scan (`glob`/`rglob`, `os.walk`) is an input sequence, and its order is taken as given.
- EXIF and image decoding, resampling and encoding are given per file, or as function parameters.
- Resizer.LargeImageResized: sizes are computed with exact rational arithmetic. The script's float `max_dim / x * x` can round below an integer and truncate one less.
- The resizer's fallback of saving without EXIF data when saving with it raises is taken to give the same bytes.
- `os.makedirs` is modelled as adding the bucket directory alone; missing parent directories are not modelled. A bucket path that exists as a regular file makes the later write raise, as in the scripts.
- Paths are compared as plain strings, with no normalisation, links or case-insensitive filesystems.
- Renamer: `image.get("datetime_original")` is taken to return, not raise. If it raised, the script would reuse the previous file's `date_time` for the name, or fail on an unbound variable for the first file.
- Uploader.UploadAll: `failed_uploads.txt` is returned as its intended content rather than written.
- Renamer.Step: a write raises only onto a directory, under a bucket that is a regular file, or (copying) onto the source. Other operating-system failures are not modelled, such as a cross-device `os.rename`, permissions or a full disk.
- Renamer.Step: each file's EXIF read is fixed when the directory is scanned. The script reads a file only when the loop reaches it. By then an earlier `--overwrite` write in the same run may have replaced it.
- Resizer.Step: likewise, each file's open result and size are fixed at scan time.
- Resizer.Save: a save that raises is taken to leave the disk unchanged. A partly written or truncated destination is not modelled.
- DateAdder.DateFormatOk: the Unicode table of decimal digits that `\d` matches is a parameter. The model assumes only that it holds the ASCII digits and not `:`.
- google_downloader.py and backup_photos.py are not part of this model.
