# normalize: a verified model of the format-to-conversion dispatch

The `normalize` scripts prepare a directory of archival files for
preservation. DROID identifies each file's format. Each file is then routed by
MIME type to a conversion:
- ffmpeg for audio and video;
- LibreOffice for documents;
- Inkscape for PostScript;
- a plain copy when no conversion is needed.

The results are tallied into a report of successes, failures and unhandled
formats.

This project models the decision-making around those external tools in Dafny
and proves what that logic guarantees. It covers two scripts.

`normalize.py`:
- `construct_output_path` and `replace_suffix` over POSIX paths;
- the parsing half of `identify_file`, which reads a header row and a value row of comma-separated fields;
- the return values of `norm_to_mp3`, `norm_to_mp4`, `norm_to_doc`, `norm_to_pdf`, `norm_to_svg` and `no_norm`;
- the `if`/`elif` routing of `norm_file`;
- the `batch_norm` table lookup and its accounting loop.

`convert_all_chatgpt.py`, the older single-file converter:
- `identify_file`, which builds a `key: value` dictionary and extracts the MIME line;
- the output paths of `convert_to_mp4`, `convert_to_doc` and `convert_to_svg`;
- the routing of `convert_file`.

Modules:
- `Text`: the Python `str` operations used: `strip`, ASCII `lower`, `in`, `split`, `replace(pat, "")`.
- `PosixPath`: `os.path.basename`, `dirname`, `splitext` and two-argument `join`, with posixpath semantics:
  - leading dots of a name are not an extension;
  - `dirname` trims trailing separators unless the head is all separators.
- `Tools`: the shared pieces:
  - `Option`/`Result`;
  - `Effect`, the outcome of one external step: it completed, it exited non-zero (`CalledProcessError`), or something else was raised;
  - the conversion targets and their suffixes;
  - first-match rule tables.
- `Normalize`: the single-file parts of `normalize.py`.
- `Batch`: `batch_norm`. Its loop is a method over the profile. It is proved equal to reference functions, and those functions carry the accounting lemmas.
- `ConvertAll`: `convert_all_chatgpt.py`, and how it compares with `normalize.py`.

External programs are not run. DROID is represented by the text of its
report, the `output` string that `identify_file` parses. Each other tool is
represented by an `Effect` parameter: how its one call ended, which is all the
Python code observes.

Two behaviours of the code are worth knowing before reading the model:
- **MIME types missing from the table.** `batch_norm` copies such a file through and counts it as a success. Yet its closing report (normalize.py:277-279) asks the user to review the file types left unconverted and prints `status_dict['unconverted']`, which therefore always stays empty; see Findings.
- **Conversion failures.** Each `norm_to_X` catches `CalledProcessError` and returns `None` (normalize.py:100-166). `batch_norm` ignores that return value, so the file still counts as a success (`Batch.SwallowedFailureCounts`).

## Model

| member | source | states |
|---|---|---|
| `Normalize.ConstructOutputPath` | normalize.py:75-94 | The output's basename is the input's basename with its last extension replaced by the suffix. Its `dirname` is the input's `dirname` when `output_dir` is not truthy. When `output_dir` is truthy and already in `dirname`'s canonical form (no trailing `/` unless it is all slashes), its `dirname` is `output_dir` itself; for `/out/` it would be `/out`. |
| `Normalize.ReplaceSuffix` | normalize.py:96-98 | The result ends with the new suffix. What precedes the suffix, followed by the old extension, gives back the basename. The result has no directory part. |
| `Normalize.OutputPathExtension` | normalize.py:88 | For a suffix `.ext`, `splitext` of the output path yields exactly that suffix. |
| `Normalize.OutputPathOfNamedFile` | normalize.py:88-94 | For `dir/stem.ext`, the output path is `join(output_dir or dir, stem + suffix)`. Only the last extension is dropped. |
| `Normalize.ConstructOutputPathExamples` | convert_pytest.py:81-93 | These test-suite cases hold: with and without an output directory. |
| `Normalize.ConstructOutputPathSuffixExamples` | convert_pytest.py:95-105 | These test-suite cases hold: an empty suffix drops the extension, and an output directory containing `.` is untouched. |
| `Normalize.ConstructOutputPathNameExamples` | convert_pytest.py:108-119 | These test-suite cases hold: `file.v1.txt` becomes `file.v1.doc`, and relative paths work. |
| `Normalize.ZipLastWins` | normalize.py:69-71 | The dictionary built over the key row has exactly the first-line keys. Each key holds the value at its last position. |
| `Normalize.IdentifyFile` | normalize.py:65-73 | The loop's dictionary is the parse of the stripped output: `IndexError` if there are too few lines or fields, and the key-to-value map otherwise. |
| `Normalize.IdentificationNeedsTwoLines` | normalize.py:65-67 | Output that is a single line after stripping raises `IndexError`. |
| `Normalize.IdentificationShortValueRow` | normalize.py:66-71 | A value row with fewer fields than the header raises `IndexError`. |
| `Normalize.IdentificationRoundTrip` | normalize.py:65-71 | Header and value rows joined by commas parse back to a map. Its keys are the header fields. Each key maps to the value at its last occurrence. Extra values are ignored. |
| `Normalize.NormTo` | normalize.py:100-166 | When the tool completes, `norm_to_X` returns `construct_output_path(filepath, '.X', output_dir)`. It returns `None` exactly when the tool exits non-zero, and raises exactly on any other failure. |
| `Normalize.NormToExtension` | normalize.py:100-111 | A successful conversion's path has the target's extension. |
| `Normalize.NoNorm` | normalize.py:168-182 | Without a truthy `output_dir`, the input path is returned and nothing is copied. Otherwise the file is copied to the output path built with an empty suffix, in `output_dir`, and that path is returned unless the copy raised. |
| `Normalize.NormRouteIsFirstMatch` | normalize.py:191-216 | `norm_file` takes the first matching rule of its ordered table: substrings `audio`, `video`, `image/svg`, `postscript`, `text/xml`, the DOCX type, then exactly `text/plain`. Otherwise the type is unsupported. |
| `Normalize.NormFile` | normalize.py:184-216 | Per route: audio yields `splitext(filepath)[0] + '.mp3'` once pydub completes; a conversion yields `construct_output_path(filepath, suffix)`; SVG and plain text yield the input path. It raises exactly when pydub fails or a converter crashes. It returns `None` exactly for an unsupported type or a converter that exited non-zero. A returned path lies in the input's directory. |
| `Normalize.NormFileExtension` | normalize.py:191-210 | A derivative from the audio route ends in `.mp3`, and one from a conversion route ends in that target's suffix, as `splitext` sees it (the checks of convert_pytest.py:163-190). |
| `Normalize.CompoundXmlRoutesToDoc` | normalize.py:206-207 | `application/xml, text/xml` routes to DOC. |
| `Normalize.PlainTextWithParameters` | normalize.py:212-216 | `text/plain; charset=UTF-8` is unsupported: the plain-text test is an exact comparison, and no substring needle matches this type. |
| `Normalize.PlainTextAnyCase` | normalize.py:189 | The MIME type is lowercased before routing, so `TEXT/PLAIN` is kept as it is. |
| `Normalize.NormFileWithoutMime` | normalize.py:189 | Metadata without `MIME_TYPE` routes the empty string, which yields `None`. |
| `Batch.Lookup` | normalize.py:252 | `.get(mime, default)`: the table entry when present, else the default. |
| `Batch.RelPath` | normalize.py:255 | For a file beneath the working directory, the relative path is clean, and the directory prefix plus the relative path is the file path. |
| `Batch.CallFor` | normalize.py:257-267 | Copy-through exactly for `no_norm`. Every call reads the profile's file path. |
| `Batch.Attempt` | normalize.py:259-270 | An action raises exactly when its external step crashed. |
| `Batch.OutcomeOf` | normalize.py:252-275 | A file is unhandled exactly when the lookup gives nothing. It fails exactly when an action was found and crashed. |
| `Batch.RunBatch` | normalize.py:245-275 | The loop's `f_count`, `success`, `fail`, `unconverted` and calls are the reference counts, path lists, histogram and calls, in profile order. |
| `Batch.BatchNorm` | normalize.py:245-275 | Every File record lands in exactly one of `success` and `fail`. `fail` holds exactly the crashed files and `unconverted` stays empty. The calls made are the reference calls. |
| `Batch.BatchNormIntended` | normalize.py:245-275 | With a lookup that has no default, `success`, `fail` and the unhandled count add up to `f_count`. `unconverted` counts each unhandled MIME type. There is one call per handled file. |
| `Batch.EveryFileAccountedOnce` | normalize.py:245-275 | Succeeded, failed and unhandled files together number exactly the File records. |
| `Batch.PathsWithMembers` | normalize.py:264-270 | A path is in `success` (or `fail`) exactly when some File record with that path had that outcome. |
| `Batch.AsWrittenLeavesNothingUnhandled` | normalize.py:252-253 | With the `no_norm` default, no file is unhandled and the histogram is empty. |
| `Batch.HistogramCounts` | normalize.py:271-275 | The histogram's keys are exactly the unhandled MIME types, each mapped to its number of files. |
| `Batch.OneCallPerHandledFile` | normalize.py:259-270 | Exactly one action is invoked per handled File record. |
| `Batch.NoCrashNoFailure` | normalize.py:268-270 | With no crashed action, `fail` stays empty. |
| `Batch.SwallowedFailureCounts` | normalize.py:261-264 | A conversion whose tool exits non-zero returns `None`, and the file still counts as a success. |
| `Batch.CopyKeepsName` | normalize.py:255-266 | A copied file keeps its name in the target tree. |
| `Batch.TopLevelDerivative` | normalize.py:257-263 | For a top-level file, the derivative is `join(target_dir, stem + suffix)`. |
| `Batch.MirroredDirectory` | normalize.py:255-263 | For a file in a subdirectory of the working directory, the conversion receives `join(target_dir, dirname(relpath))` as its output directory, so the target tree mirrors the input tree. |
| `PosixPath.DirnameOfJoinedPath` | normalize.py:257-261 | `dirname(join(d, rel)) == join(d, dirname(rel))` for a clean relative path `rel` with a directory part. |
| `Batch.UnknownTypeAsWritten` | normalize.py:252-267 | A File record with a MIME type missing from the table is copied through. It counts as a success, or as a failure when the copy crashes. The histogram stays empty. |
| `Batch.UnknownTypeIntended` | normalize.py:271-275 | With the intended lookup, such a file is in neither list. The histogram counts it once. |
| `Batch.OctetStreamHasNoEntry` | normalize.py:221-234 | `application/octet-stream` has no table entry. |
| `Batch.VideoMp4Disagrees` | normalize.py:232 | The batch table copies `video/mp4` through, while `norm_file` would convert it to MP4. |
| `ConvertAll.ColonLineRoundTrip` | convert_all_chatgpt.py:24-26 | A `key: value` line parses back to the stripped key and value. |
| `ConvertAll.FillMetadata` | convert_all_chatgpt.py:22-26 | The loop's dictionary is the left fold of the parsed lines. |
| `ConvertAll.AssignKeys` | convert_all_chatgpt.py:22-26 | The dictionary's keys are exactly the keys of the colon lines. |
| `ConvertAll.AssignLastWins` | convert_all_chatgpt.py:22-26 | A duplicate key holds the value of its last line. |
| `ConvertAll.ExtractMime` | convert_all_chatgpt.py:29 | `IndexError` exactly when there are fewer than two lines. `KeyError` exactly when `Selected folder or file` was never parsed. A result contains no comma. |
| `ConvertAll.MimeLineRoundTrip` | convert_all_chatgpt.py:29 | A line `selection,mime` yields `mime` once the selection and the commas are removed. |
| `ConvertAll.IdentifyFile` | convert_all_chatgpt.py:16-34 | The method's result is the reference outcome: the colon-line dictionary and the extracted MIME type. |
| `ConvertAll.ReportRoundTrip` | convert_all_chatgpt.py:16-34 | A report with a `Selected folder or file: path` line, then a `path,mime` result line and a final newline, yields a dictionary holding just the selected path. Its MIME type is `mime`, or the filename guess when `mime` is `Unknown`. |
| `ConvertAll.UnknownUsesGuess` | convert_all_chatgpt.py:29-33 | For such a report whose result line is `path,Unknown`, the MIME type is the filename guess (possibly `None`), whatever the path is. |
| `ConvertAll.ConvertToTarget` | convert_all_chatgpt.py:36-74 | On success, `splitext(filepath)[0]` plus the target suffix. `None` exactly on a non-zero exit, and raises exactly on a crash. |
| `ConvertAll.DerivativeBesideInput` | convert_all_chatgpt.py:36-74 | The derivative lies in the input's directory. Its extension is the suffix, and its stem is the input's stem. |
| `ConvertAll.ConvertRoute` | convert_all_chatgpt.py:83-99 | It only ever converts to MP4 or DOC. |
| `ConvertAll.ConvertRouteIsFirstMatch` | convert_all_chatgpt.py:83-99 | `convert_file` takes the first matching rule: `audio`, `video`, `image/svg`, then the DOCX type. Otherwise the type is unsupported. |
| `ConvertAll.NormFileExtendsConvertFile` | convert_all_chatgpt.py:83-96 | Wherever `convert_file` routes, `norm_file` routes the same way (normalize.py:191-210). The one exception is DOCX types that `norm_file` catches earlier. |
| `ConvertAll.ConvertFile` | convert_all_chatgpt.py:76-99 | Per route: audio yields `splitext(filepath)[0] + '.mp3'` once pydub completes, a conversion yields `splitext(filepath)[0]` plus the target suffix, and SVG yields the input path. It raises exactly when no route can be taken (failed identification or a `None` type), pydub fails or a converter crashes. It returns `None` exactly for an unsupported type or a non-zero exit. Returned paths lie in the input's directory. |
| `ConvertAll.ConvertFileExtension` | convert_all_chatgpt.py:83-96 | A derivative from the audio route ends in `.mp3`, and one from a conversion route ends in that target's suffix (the checks of convert_pytest.py:163-190). |
| `ConvertAll.OldPathAgreesWithConstruct` | convert_all_chatgpt.py:40 | With a single separator before the name, `splitext(path)[0] + suffix` equals `construct_output_path(path, suffix)` (normalize.py:75-94). |
| `ConvertAll.DoubledSeparatorDiffers` | convert_all_chatgpt.py:40 | For `a//x.wav` the old script writes `a//x.mp3`, while `construct_output_path` gives `a/x.mp3`. |
| `PosixPath.BasenameOfJoin` | normalize.py:90-92 | `basename(join(d, n)) == n` for a name `n`. |
| `PosixPath.DirnameOfJoin` | normalize.py:90-92 | `dirname(join(d, n)) == d` for a canonical directory and a non-empty name. |
| `PosixPath.SplitExtOfName` | normalize.py:88 | `splitext(s + "." + e) == (s, "." + e)` unless `s` is all dots. |
| `PosixPath.StemPathIsJoin` | convert_all_chatgpt.py:40 | `splitext(p)[0] + suffix` is `join(dirname(p), stem(basename(p)) + suffix)` when a single separator precedes the name. |
| `PosixPath.BesideInput` | normalize.py:193 | Replacing the extension keeps the directory. |
| `Text.SplitJoinWith` | normalize.py:65-67 | Splitting a separator-joined list gives the list back. |
| `Text.RemoveCharGone` | convert_all_chatgpt.py:29 | `replace(',', '')` leaves no comma. |
| `Tools.FirstMatchIsFirst` | normalize.py:191-216 | An ordered rule chain yields the route of the first rule that matches. |

## Left out

- The external programs are not modelled: DROID, ffmpeg, LibreOffice `soffice`, Inkscape, pydub and the file copies. DROID appears as the report text that `identify_file` parses. Each of the others appears as an `Effect` parameter, because the scripts observe nothing more of them.
- DROID exiting non-zero is not modelled. `subprocess.check_output` would then raise `CalledProcessError` in `identify_file` (normalize.py:63, convert_all_chatgpt.py:20). The identification error types cover only the `IndexError` and `KeyError` raised while parsing the report.
- `build_droid_profile` (normalize.py:21-55) is not modelled. It is shell plumbing around DROID and a library CSV reader. The batch takes the profile as a sequence of `{TYPE, FILE_PATH, MIME_TYPE}` records.
- The directory mirroring with `os.walk`/`makedirs` (normalize.py:238-243) is not modelled, and neither are the written files. They touch only the real filesystem.
- The printed report, `pprint` and the error messages on stderr are not modelled, because they are output only.
- `Batch.RelPath` covers only file paths beneath the working directory, written without `.`/`..` segments or doubled separators. General `os.path.relpath` normalisation is not modelled.
- The `mimetypes.guess_type` fallback (convert_all_chatgpt.py:32) is not modelled: the guess is a parameter of `ConvertAll.IdentifyFile`.
- `Text.Lower` folds ASCII letters only. Python's Unicode case mapping is not modelled.
- `Text.Strip` states only that the result has no whitespace at either end. That it removes nothing but whitespace is not stated.
- The names LibreOffice gives its own output files are not modelled. The paths modelled are the ones the Python code returns.
- The quoting of shell commands is not modelled. Neither is the script-level configuration: tool paths and the default `working_dir`.
- `norm_to_pdf` is modelled through `Normalize.NormTo` with the `Pdf` target. No routing chooses it.
- `ConvertAll.IdentifyFile` parses each line into an optional key/value pair before the dictionary loop. The loop in the source splits and strips inside its body.
- normalize-report.py is not part of this model. It is command-line bootstrapping only.
- convert_test.py is not part of this model. convert_pytest.py is used only as the source of concrete cases.

## Findings

| source | as written | input that shows it | evidently intended | confidence | as-written member | corrected member |
|---|---|---|---|---|---|---|
| normalize.py:252-275 | `mime_normalization_map.get(mime_type, no_norm)` never yields a falsy value, so the `unconverted` branch cannot run. A file of unknown type is silently copied and counted as a success. | A profile with one `File` record of MIME type `application/octet-stream` | The file is counted once under its MIME type in `unconverted`, and in neither `success` nor `fail`, as the closing report asks the user to review unconverted types | medium; not executed | `Batch.UnknownTypeAsWritten` | `Batch.UnknownTypeIntended` |
