# externalize-rvdata2 in Dafny

`externalize-rvdata2.py` unpacks the script archive of an RPG Maker project
(`Scripts.rvdata2`, a Ruby Marshal dump of `[id, title, code]` records). It
writes each script into its own `.rb` file under an output directory, and it
opens a folder for each record whose title carries a marker glyph (`▼` for a
flat folder, `■` for a nested one). This project models that program's logic
and proves what it does:

- `Text` models the Python `str` built-ins the program relies on: character
  replacement, regex deletion and squeezing of runs, `strip`, `split`,
  `join`, `splitlines` and `str(int)`.
- `Sanitize` models `sanitize_filename`.
- `Newlines` models `replace_newlines`, `decode_utf8` and UTF-8 encoding.
  Code is modelled as `bytes`, a `str`, or any other decoded object.
- `Script` models `script_info` and `process_script`. An exception is
  modelled as a `Result`.
- `Files` models the filesystem the program touches.
  - It is a set of directories plus a map from file path to text. A path is
    a sequence of segments.
  - It models `os.makedirs(..., exist_ok=True)` and `open(..., "w")`.
    The failures modelled are those the filesystem's own state causes (a
    file in the way, a missing parent, a directory at the target) and, for
    writes, an oracle of refusals; see "Left out".
  - It models `create_directory_structure` as a loop on a `Disk` object.
- `Extract` models the record loop of `extract_scripts`.
  - The pure step functions `Step` and `Run` define the loop.
  - An imperative method, `ExtractScripts`, runs the loop and is proved to
    match `Run`.
  - The lemmas relate `Run` to independent reference definitions: marker
    count, script count and last marker folder.
- `Rerun` proves that running the extraction again, on the directory a
  completed run left behind, reproduces that run.

An exception that `extract_scripts` does not catch (a failing `makedirs`)
ends the run. The model records this in an `aborted` flag, and nothing
changes after it.

## Model

| member | source | states |
|---|---|---|
| Sanitize.SanitizeIsSafe | externalize-rvdata2.py:23-28 | The output has no space, `\n`, `\r`, `\t`, `/`, `:`, `*`, `?`, `"`, `<`, `>` or `\|`, no `__`, and no `_` at either end |
| Sanitize.SanitizeKeeps | externalize-rvdata2.py:24-27 | Every other character (not `_`, not one of those) occurs in the output exactly as often as in the input |
| Sanitize.SanitizeKeepsBackslash | externalize-rvdata2.py:26 | A backslash survives: the character class does not contain it |
| Sanitize.SanitizeNotLonger | externalize-rvdata2.py:23-28 | The output is never longer than the input |
| Sanitize.SanitizeEmptyIff | externalize-rvdata2.py:23-28 | The output is empty exactly when every input character is a forbidden one or `_` |
| Sanitize.SanitizeFixedPoint | externalize-rvdata2.py:23-28 | A name is unchanged by sanitizing exactly when it already has the sanitized shape |
| Sanitize.SanitizeIdempotent | externalize-rvdata2.py:23-28 | Sanitizing twice equals sanitizing once |
| Sanitize.SanitizeKeepsLeadingDigit | externalize-rvdata2.py:23-28 | A name starting with a digit gives a non-empty output starting with that digit |
| Newlines.ReplaceNewlinesOutcome | externalize-rvdata2.py:11-14 | `bytes` stay `bytes`, lose one byte per CRLF pair, keep every LF, and come back unchanged exactly when they hold no CRLF; a `str` or any other value is returned as it is |
| Newlines.ReplaceCrlfLength | externalize-rvdata2.py:13 | The output is shorter than the input by the number of `\r\n` pairs in the input |
| Newlines.ReplaceCrlfKeepsLf | externalize-rvdata2.py:13 | The number of `\n` is preserved |
| Newlines.ReplaceCrlfUnchangedIff | externalize-rvdata2.py:13 | The input comes back unchanged exactly when it has no `\r\n` |
| Newlines.CrlfCanSurvive | externalize-rvdata2.py:13 | One pass is not enough: `\r\r\n` becomes `\r\n`, which still holds a CRLF |
| Newlines.EncodeThenReplace | externalize-rvdata2.py:42-44 | UTF-8 encoding commutes with CRLF replacement, so `str` code gets the same normalisation as `bytes` code |
| Script.ScriptInfoOfEmptyCode | externalize-rvdata2.py:31-37 | Empty code gives exactly the two header lines, with no trailing newline |
| Script.ScriptInfoStartsWithHeader | externalize-rvdata2.py:31-37 | The text begins with `# encoding: utf-8`, `\n`, `# Name: ` and the unsanitized title |
| Script.ScriptInfoLines | externalize-rvdata2.py:31-37 | For a title without `\n`: split at `\n`, the text is the two header lines followed by `splitlines(code)` |
| Script.ScriptInfoOfPlainCode | externalize-rvdata2.py:31-37 | Code whose only line breaks are `\n`, not at the end, follows the header verbatim |
| Script.ProcessScriptOutcome | externalize-rvdata2.py:40-48 | It raises exactly for code that is neither `str` nor `bytes`. Otherwise the file name is `sanitize_filename(name) + ".rb"` and the text starts with the header naming the unsanitized title |
| Script.ProcessScriptOfBytes | externalize-rvdata2.py:40-48 | `bytes` code reaches the decoder one byte shorter per CRLF pair, with every LF kept, and unchanged when it holds no CRLF; the text is the header plus the lines of the decoded code |
| Script.ProcessScriptOfText | externalize-rvdata2.py:40-48 | With a decoder that inverts the encoder, `str` code is CRLF-normalised and then split into lines |
| Text.SplitJoin | externalize-rvdata2.py:37 | Splitting a `\n`-join of newline-free lines gives back the lines |
| Text.JoinSplit | externalize-rvdata2.py:37 | Joining the parts of a split with the separator gives back the string |
| Text.SplitLinesOfPlainText | externalize-rvdata2.py:36 | For text whose only boundaries are single `\n`s not at the end, `splitlines()` equals `split("\n")` |
| Files.MakeDirsOutcome | externalize-rvdata2.py:56 | `makedirs` succeeds exactly when the path is non-empty and no prefix is a file; then every prefix is a directory, and files are never touched |
| Files.MakeDirsAgain | externalize-rvdata2.py:56 | Making an existing directory again is not an error and changes nothing |
| Files.StructureIsOneMakeDirs | externalize-rvdata2.py:51-57 | Making the directories segment by segment has the same result as one `makedirs` of the whole path, in both success and failure |
| Files.StructureOutcome | externalize-rvdata2.py:51-57 | The result is `base` extended by the stripped segments in order, with every intermediate directory made; it fails exactly when one of those paths is a file |
| Files.Disk.MakeDirsAlong | externalize-rvdata2.py:53-57 | The loop's final state and path are those of `StructureOn` on the stripped segments |
| Files.Disk.CreateDirectoryStructure | externalize-rvdata2.py:51-57 | Splits the title at `/` and ends at `base` extended by the stripped segments |
| Extract.ExtractScripts | externalize-rvdata2.py:65-97 | The filesystem, manifest and completion flag after the loop are those of `Run` over all records |
| Extract.ExtractRecord | externalize-rvdata2.py:72-97 | One pass of the loop body updates the state as `Step` says: nameless records are skipped, marker records open a folder, others are saved as scripts |
| Extract.OpenFolder | externalize-rvdata2.py:76-84 | One marker record updates the state as `FolderStep` says |
| Extract.SaveScript | externalize-rvdata2.py:86-97 | One script record updates the state as `LeafStep` says |
| Extract.AbortIsFinal | externalize-rvdata2.py:84 | After an uncaught `makedirs` exception, later records change nothing |
| Extract.StepFacts | externalize-rvdata2.py:72-97 | After an abort, or for a record without a title, nothing changes. A marker step that does not raise raises the counter by one and makes the marker's directory current; that directory exists and the manifest is unchanged. Other records leave the counter, the current directory and the abort flag as they are |
| Extract.UnnamedIsSkipped | externalize-rvdata2.py:72-74 | A record with a nil or empty title changes no state and writes nothing; putting any other untitled record in its place leaves every state of the run the same |
| Extract.FoldersCountMarkers | externalize-rvdata2.py:71-77 | After any prefix of the stream, `id_carpeta` equals the number of marker records in it |
| Extract.CurrentIsLastFolder | externalize-rvdata2.py:70-84 | `current_dir` is the folder of the most recent marker (`output_dir` if none), and that directory exists |
| Extract.FlatGlyphWins | externalize-rvdata2.py:75-81 | `▼` takes precedence over `■`: a title holding both opens exactly one directory under `output_dir`, the sanitized `{k}_` title without its `▼`, even when the title contains `/` |
| Extract.GlyphRemoval | externalize-rvdata2.py:78 | Only the chosen glyph is removed from the folder title; every other character that is not whitespace, `_` or a digit keeps its count (the `{k}_` prefix adds `_` and digits) |
| Extract.FlatTitleKeepsNested | externalize-rvdata2.py:75-78 | A `▼` title loses every `▼` and keeps every `■` |
| Extract.FlatFolderDir | externalize-rvdata2.py:79-81 | `▼` gives a single directory `output_dir/sanitize("{k}_" + rest)`, non-empty and starting with the counter's first digit |
| Extract.NestedFolderDir | externalize-rvdata2.py:78-82 | `■` nests one directory per `/`-segment; the counter prefixes only the first segment |
| Extract.LeafPlacement | externalize-rvdata2.py:86-93 | A script at 0-based position `n` is listed as `{last marker folder}/{n+1}_{sanitized title}.rb` whatever happens to the write. The file holds `content.strip()` exactly when the write is not refused and the path is not a directory |
| Extract.FailedScriptIsSkipped | externalize-rvdata2.py:86-97 | An exception in `process_script` adds no manifest line and writes nothing |
| Extract.ManifestCountsScripts | externalize-rvdata2.py:86-89 | The manifest has one line per script record that `process_script` accepts |
| Extract.LeafNamesDistinct | externalize-rvdata2.py:88 | Records at different positions never get the same file name |
| Rerun.RerunIsIdempotent | externalize-rvdata2.py:65-97 | Running again, with the same records and refusals, on what a completed run left behind gives the same directories, the same files with the same text and the same manifest |
| Rerun.Replay | externalize-rvdata2.py:65-97 | Replaying any prefix of the records on the final filesystem of a completed run gives that run's state after the prefix, with the final filesystem unchanged |
| Rerun.MakeDirsReplay | externalize-rvdata2.py:56 | A `makedirs` that succeeded succeeds again, changing nothing, on any later filesystem of the same run |
| Rerun.RunKeepsFile | externalize-rvdata2.py:88-93 | The file a script record wrote keeps its text until the run ends: no later record writes to the same path |
| Extract.ManifestEntryShape | externalize-rvdata2.py:89 | A manifest line is the joined path with every `\` turned into `/`, plus a trailing newline |

## Left out

- `rubymarshal.reader.load` (externalize-rvdata2.py:67-68) is not modelled. The records are an input sequence: an identifier, an optional title, and code that is `bytes`, a `str` or another value.
- `decode_utf8`'s codec (externalize-rvdata2.py:17-20) is a parameter `decode`. CPython's UTF-8 decoder with `errors="replace"` is not modelled. The encoder `str.encode("utf-8")` is modelled for strings of Unicode scalar values.
- The line boundaries of `str.splitlines` are a parameter `breaks`, with the CRLF rule built in. `Text.PythonLineBreaks` gives the set CPython uses.
- `logging`, `print` and the `__main__` block (externalize-rvdata2.py:63, 91, 95, 97, 99, 102-110) only report progress and are not modelled.
- Which scripts fail after their manifest line and before anything is written is an oracle `refused` indexed by the record's position: an `open` the operating system refuses (permissions, a read-only disk), or the progress `print` at externalize-rvdata2.py:91 raising. `open` also fails in the model when the parent is not a directory or the path is a directory.
- Extract.LeafPlacement: a `write` that fails after `open` succeeded (disk full) is not modelled. `open(..., "w")` has already truncated the file then, so the file may be left empty or partly written; the model only knows writes that leave the file with the whole text and refusals that leave it untouched.
- Files.MakeDirsOutcome: `makedirs` refusals by the operating system (permissions, a read-only disk, a name too long for the platform) are not modelled. In the model `makedirs` fails only for an empty path or a file in the way, so a run aborts only for those.
- Script.ProcessScriptOutcome: a `str` holding a lone surrogate is not modelled. `str.encode("utf-8")` raises on it, the exception is caught at externalize-rvdata2.py:96 and the record is skipped. A Dafny `char` is a Unicode scalar value and cannot hold a surrogate, so in the model every `str` encodes.
- Rerun.RerunIsIdempotent assumes the second run meets the same refusals as the first; a run that aborted is not covered.
- externalize-rvdata2.py:89 puts a backslash inside an f-string replacement field, which Python accepts only from version 3.12 on (PEP 701). Older interpreters reject the whole file with a `SyntaxError`; the model follows 3.12 and later.
- Paths are sequences of segments. `os.path.join` details are not modelled. An empty or absolute segment, the segments `.` and `..`, and the platform separator are not special. A segment that strips to `""` is kept as an empty segment. `..` does not climb to the parent: a nested marker such as `■ A/../1_x.rb` makes a new directory in the model, where the operating system would resolve the path to an existing file and `makedirs` would raise.
- `extract_scripts` keeps `list_scripts` in a local variable and never returns it. The model returns it as the run's observable result.
- A title that is neither `None` nor a `str` is not modelled. On such a title the glyph test would raise.
- Extract.ExtractScripts, Extract.ExtractRecord, Extract.OpenFolder, Extract.SaveScript, Files.Disk.MakeDirsAlong and Files.Disk.CreateDirectoryStructure are each proved equal to a step function. They compute each folder title once and pass it in as a parameter, which is equivalent because the computation is pure.
