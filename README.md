# Quran-aider file blob tools, modelled in Dafny

Quran-aider ships a folder of Dart sources around as one plain-text blob.
`exporter.py` walks a folder, and for every file whose name ends in `.dart`
appends a section `// Title: <name>\n\n<content>\n\n` to one string. It
writes that string to an output file and copies it to the clipboard.
`lib/updateFiles.py` goes the other way:

- `parse_text` cuts a blob into an insertion-ordered dictionary from titles
  to contents. A line starting with `//` opens a record; the following lines
  are appended to it, each with its line feed.
- `update_files` visits every entry in order. It joins the base path and
  the key, runs `os.makedirs` on the target's directory and asks
  `Update <path>? [y/N]`. It overwrites the file only when the answer
  lower-cases to `y`.
- `main` parses the embedded sample, prints a preview of every entry and
  then updates the files below `./lib`.

The model follows the code line by line. The three loops (`parse_text`,
`update_files`, the nested loops of the exporter) are Dafny methods with
loop invariants. Each is proved equal to a specification function:
`Parser.Parse`, `Writer.Updates` and `Exporter.Blob(Exporter.Entries(...))`.
The properties are then proved about those functions. The file system is a
class `FileSystems.FileSystem` whose methods change its `files` map and
`dirs` set. The clipboard is a class `Exporter.Clipboard`. Standard input
is a sequence of answers, and standard output is a transcript of printed
lines.

Modules:

| module | file | contents |
|---|---|---|
| `Text` | `text.dfy` | Python's `str.split('\n')`, `startswith`, `endswith`, `strip`, `replace(p, '')`, `lower` |
| `OrderedDict` | `ordered_dict.dfy` | the insertion-ordered `dict`, and a reference reading `Assign` of a run of assignments |
| `Parser` | `parser.dfy` | `parse_text`: the loop, its specification, a reference reading of the blob as preamble plus blocks, and the properties |
| `Paths` | `paths.dfy` | `os.path.join`, `os.path.dirname`, and what `os.makedirs` creates |
| `FileSystems` | `fs.dfy` | the file system object |
| `Writer` | `writer.dfy` | `update_files` and `main` |
| `Exporter` | `exporter.dfy` | `export_and_copy_dart_files` |
| `RoundTrip` | `round_trip.dfy` | what `parse_text` makes of the exporter's output |

Notes on what the code does:

- The exporter's marker is `// Title: <name>`, so a file comes back under
  the key `Title: <name>`.
- A parsed value keeps the section's framing: `"\n" + content + "\n\n"`,
  and one more `"\n"` on the last file.
- A title is the line stripped, with every `"// "` removed, stripped again.
  The `//` prefix itself stays when no space follows it: `//x` is titled `//x`.
- A failing `os.makedirs` is not caught. `makedirs('')`, reached when
  the joined path has no directory part, raises and ends the run, and so
  does an `input()` at end of input.

## Model

| member | source | states |
|---|---|---|
| `Text.Strip` | lib/updateFiles.py:10 | definition: `strip()` drops ASCII whitespace at both ends (`StripLeft`, then `StripRight`) |
| `Text.DeleteAll` | lib/updateFiles.py:10 | `replace(p, '')` scans left to right, removes each non-overlapping occurrence, and never lengthens the string |
| `Text.StripShape` | lib/updateFiles.py:10 | `strip()` yields `""` exactly when every character is whitespace; otherwise neither end of the result is whitespace |
| `Text.StripUnchanged` | lib/updateFiles.py:10 | a string with no whitespace at either end is its own `strip()` |
| `Text.DeleteAllAbsent` | lib/updateFiles.py:10 | `replace(p, '')` changes nothing when `p` does not occur |
| `Text.DeleteAllKeepsLast` | lib/updateFiles.py:10 | `replace('// ', '')` keeps the last character of a string that does not end in a space |
| `Text.Split` | lib/updateFiles.py:7 | `split('\n')` has one more piece than the text has line feeds, and no piece holds a line feed |
| `Text.SplitAppend` | lib/updateFiles.py:7 | splitting `a + "\n" + b` gives the pieces of `a`, then those of `b` |
| `Text.SplitSingle` | lib/updateFiles.py:7 | a text without line feeds is one piece |
| `Text.Join` | lib/updateFiles.py:13 | the lines each followed by `"\n"`: empty exactly for no lines, otherwise ending in a line feed |
| `Text.JoinAppend` | lib/updateFiles.py:13 | joining `a + b` is joining `a`, then `b` |
| `Text.JoinSplit` | lib/updateFiles.py:7-13 | re-joining the pieces of a text gives the text plus one final line feed |
| `Text.SplitJoin` | lib/updateFiles.py:7-13 | splitting joined line-feed-free lines gives the lines plus a final empty piece |
| `Text.Lower` | lib/updateFiles.py:27 | `lower()` keeps the length and lower-cases each character |
| `Text.LowerIsY` | lib/updateFiles.py:27 | `answer.lower() == 'y'` exactly for `y` and `Y` |
| `OrderedDict.Empty` | lib/updateFiles.py:5 | `{}` has no keys and no values |
| `OrderedDict.Put` | lib/updateFiles.py:11 | `d[k] = v` keeps the dictionary well formed: distinct keys in order, the same keys as the map |
| `OrderedDict.PutMeaning` | lib/updateFiles.py:11 | after `d[k] = v`, `k` holds `v`; other keys are unchanged; the old order is a prefix; `k` is appended exactly when new |
| `OrderedDict.Append` | lib/updateFiles.py:13 | `d[k] += s` keeps the order and changes only `k`'s value, by appending `s` |
| `OrderedDict.PutPut` | lib/updateFiles.py:11 | two assignments to one key leave only the second |
| `OrderedDict.PutAppend` | lib/updateFiles.py:11-13 | `d[k] = v` then `d[k] += s` is `d[k] = v + s` |
| `OrderedDict.FirstOccurrences` | lib/updateFiles.py:11 | the first occurrences are distinct, have the same elements, and are no more numerous |
| `OrderedDict.FirstOccurrencesDistinct` | lib/updateFiles.py:11 | without repeats nothing is dropped |
| `OrderedDict.FirstOccurrencesRepeat` | lib/updateFiles.py:11 | a repeat makes the first occurrences strictly fewer than the elements |
| `OrderedDict.AssignKeys` | lib/updateFiles.py:11 | the keys after a run of assignments are the assigned keys without repeats, in first-assignment order |
| `OrderedDict.AssignLastWins` | lib/updateFiles.py:11 | a key holds the value of its last assignment |
| `OrderedDict.AssignValues` | lib/updateFiles.py:11-13 | every key and value comes from one of the assignments |
| `OrderedDict.AssignKeysGrow` | lib/updateFiles.py:11 | later assignments only append keys |
| `OrderedDict.AssignKeyPlace` | lib/updateFiles.py:11 | a key keeps the place its first assignment gave it |
| `OrderedDict.AssignDistinct` | lib/updateFiles.py:11 | with distinct keys the order is the assignment order and each key holds its value |
| `Parser.IsMarker` | lib/updateFiles.py:9 | definition: `line.startswith('//')` on the raw, unstripped line |
| `Parser.Title` | lib/updateFiles.py:10 | definition: `line.strip().replace('// ', '').strip()` |
| `Parser.TitleNonEmpty` | lib/updateFiles.py:10 | the title of a marker line is never empty, so `elif current_file:` never meets an empty title |
| `Parser.TitleOfPlainName` | lib/updateFiles.py:9-10 | `"// " + name` is a marker titled `name` when `name` has no outer whitespace and no `"// "` |
| `Parser.IndentedLineIsContent` | lib/updateFiles.py:9 | a line starting with whitespace is never a marker, like the indented comments at lines 325 and 381 |
| `Parser.Init` | lib/updateFiles.py:5-6 | the initial state is consistent |
| `Parser.Step` | lib/updateFiles.py:8-13 | one iteration keeps the current title a key, so `files_content[current_file] +=` never raises `KeyError` |
| `Parser.RunFrom` | lib/updateFiles.py:8-13 | definition: the `for line in lines` loop as a fold of `Step` over the lines, in order; every state it reaches is `Consistent` |
| `Parser.Parse` | lib/updateFiles.py:4-14 | the fold of `Step` from `Init` over `split('\n')` yields a well-formed ordered dictionary |
| `Parser.ParseText` | lib/updateFiles.py:4-14 | the loop of `parse_text` returns `Parse(input_text)` |
| `Parser.RunAppend` | lib/updateFiles.py:8 | the loop over `a + b` is the loop over `a`, then over `b` |
| `Parser.RunPreamble` | lib/updateFiles.py:12 | lines before the first marker leave the state as it started |
| `Parser.RunBody` | lib/updateFiles.py:12-13 | content lines under a title are appended to its value, in order, each with a line feed |
| `Parser.RunBlock` | lib/updateFiles.py:9-13 | a marker and its body make the title current, holding the joined body |
| `Parser.SegmentConcat` | lib/updateFiles.py:8 | the reference cut into preamble and blocks loses and reorders no line |
| `Parser.SegmentWellFormed` | lib/updateFiles.py:9 | the preamble has no marker; every block starts with one and has none in its body |
| `Parser.SegmentTitles` | lib/updateFiles.py:10 | there is one block per marker line, titled by that line |
| `Parser.RunBlocks` | lib/updateFiles.py:8-13 | the loop over a preamble and blocks performs exactly the blocks' assignments |
| `Parser.ParseCharacterization` | lib/updateFiles.py:4-14 | `parse_text` assigns each block's joined body to its title, block after block |
| `Parser.ParseKeys` | lib/updateFiles.py:9-11 | the keys are the marker titles without repeats, in first-seen order; every `//` line opens a record, even one meant as content |
| `Parser.ParseKeyCount` | lib/updateFiles.py:11 | there are at most as many keys as marker lines |
| `Parser.ParseNoMarkers` | lib/updateFiles.py:5-14 | a text with no marker line parses to `{}` |
| `Parser.ParseEmptyText` | lib/updateFiles.py:5-14 | the empty text parses to `{}` |
| `Parser.ParseIgnoresPreamble` | lib/updateFiles.py:12 | text before the first marker does not change the result |
| `Parser.ParseValues` | lib/updateFiles.py:12-13 | every value is `""` or ends in a line feed, is the joined body of a block with that title, and has no marker line |
| `Parser.ParseRepeatedTitle` | lib/updateFiles.py:11 | a repeated title holds its last block's body and keeps the key position of its first block |
| `Parser.ParseNamedBlocks` | lib/updateFiles.py:4-14 | blocks marked `// <name>` for distinct plain names parse to exactly those keys, in order, with their bodies |
| `Parser.SampleFilesPlain` | lib/updateFiles.py:44-370 | the six file names of the sample are plain and distinct |
| `Parser.SampleKeys` | lib/updateFiles.py:43-452 | the sample's shape (opening line feed, six marker lines at 44, 68, 81, 90, 280, 370) gives exactly the six keys, in order |
| `Paths.JoinPath` | lib/updateFiles.py:19 | definition: posixpath `join` of two components, with an absolute second component replacing the first and no `/` added after an empty or `/`-ending base |
| `Paths.Dirname` | lib/updateFiles.py:20 | definition: posixpath `dirname`, cutting after the last `/` and stripping trailing slashes unless only slashes remain |
| `Paths.StripSlashesShorter` | lib/updateFiles.py:20 | `rstrip('/')` never lengthens a path |
| `Paths.DirnameShorter` | lib/updateFiles.py:20 | `dirname` is never longer than its argument |
| `Paths.Ancestry` | lib/updateFiles.py:23 | `makedirs(d)` leaves `d` in place, and names no empty directory |
| `Paths.JoinRelative` | lib/updateFiles.py:19 | a relative key is joined below the base path |
| `Paths.JoinAbsolute` | lib/updateFiles.py:19 | an absolute key replaces the base path |
| `Paths.JoinInjective` | lib/updateFiles.py:19 | below one base, different relative keys give different targets |
| `Paths.DirnameAppend` | lib/updateFiles.py:20 | a last component without `/` does not change `dirname` |
| `Paths.DirnameOfJoin` | lib/updateFiles.py:19-20 | a plain name joined to a base not ending in `/` has the base as directory |
| `FileSystems.FileSystem.constructor` | lib/updateFiles.py:17 | the file system starts with the given files and directories |
| `FileSystems.FileSystem.MakeDirs` | lib/updateFiles.py:23 | `makedirs(d, exist_ok=True)` fails exactly on `''`; otherwise it adds `d` and its ancestors and touches no file |
| `FileSystems.FileSystem.Read` | exporter.py:15-16 | reading returns the file's content and changes nothing |
| `FileSystems.FileSystem.Write` | lib/updateFiles.py:28-29 | writing replaces exactly one file's content and no directory |
| `Writer.Items` | lib/updateFiles.py:18 | definition: `files_content.items()`, the key-value pairs in insertion order |
| `Writer.Target` | lib/updateFiles.py:19 | definition: `os.path.join(base_path, relative_path)` for an entry |
| `Writer.Prompt` | lib/updateFiles.py:26 | definition: the prompt `Update <path>? [y/N] ` |
| `Writer.Updated` | lib/updateFiles.py:30 | definition: the line `Updated <path>` |
| `Writer.Skipped` | lib/updateFiles.py:32 | definition: the line `Skipped updating <path>` |
| `Writer.Confirms` | lib/updateFiles.py:27 | definition: `confirm.lower() == 'y'`, which `Text.LowerIsY` shows holds exactly for `y` and `Y` |
| `Writer.Handled` | lib/updateFiles.py:23-32 | definition: a completed iteration adds the directories, prints the prompt, then writes and prints `Updated`, or prints `Skipped updating` |
| `Writer.Visit` | lib/updateFiles.py:19-32 | definition: one iteration stops on `makedirs('')` and on end of input after the prompt, and is otherwise `Handled` |
| `Writer.Updates` | lib/updateFiles.py:17-32 | definition: the entries visited in order, entry `i` reading answer `i`, until the first exception |
| `Writer.UpdateFiles` | lib/updateFiles.py:17-32 | the loop of `update_files` ends in the disk, transcript and stop of `Updates` |
| `Writer.UpdateOne` | lib/updateFiles.py:19-32 | one iteration makes the directories, prompts, then writes and reports, or reports the skip |
| `Writer.UpdatesStep` | lib/updateFiles.py:18 | iteration `i` of a running loop visits entry `i` |
| `Writer.UpdatesStuck` | lib/updateFiles.py:23-26 | after an exception, later entries change nothing |
| `Writer.UpdatesDone` | lib/updateFiles.py:18-26 | the loop runs to the end exactly when every entry has an answer and a non-empty directory |
| `Writer.UpdatesLast` | lib/updateFiles.py:18-32 | the last iteration of a completed run is one confirmed-or-skipped visit |
| `Writer.UpdatesTranscript` | lib/updateFiles.py:18-32 | entry `i`, in order, prints exactly one prompt and then `Updated` or `Skipped` for its target |
| `Writer.UpdatesFiles` | lib/updateFiles.py:26-32 | in a completed run, a path no confirmed entry aims at is untouched, and a target holds the content of its last confirmed entry |
| `Writer.UpdatesSpared` | lib/updateFiles.py:26-32 | in a completed run, a path that no confirmed entry aims at is untouched |
| `Writer.UpdatesUnconfirmedUntouched` | lib/updateFiles.py:19-29 | however the run ends (end of the entries, `EOFError` or `makedirs('')`), a path that no entry with a confirming answer aims at is untouched |
| `Writer.UpdatesUnaimedUntouched` | lib/updateFiles.py:19-29 | however the run ends, a path that no entry aims at is untouched |
| `Writer.UpdatesLastWrite` | lib/updateFiles.py:28-29 | a completed run leaves each confirmed entry that no later confirmed entry overrides written at its target |
| `Writer.UpdatesDirs` | lib/updateFiles.py:20-23 | every entry's directory exists afterwards, confirmed or not; no other directory appears |
| `Writer.UpdatesEndOfInput` | lib/updateFiles.py:23-26 | at end of input the entry still gets its directory and prompt, no write happens, and the run stops |
| `Writer.UpdatesConfirmed` | lib/updateFiles.py:26-32 | with distinct relative keys, a confirmed entry's file holds its content and a declined one keeps its prior state |
| `Writer.LastConfirmedAt` | lib/updateFiles.py:18-29 | if a confirmed entry aims at a path, some confirmed entry aimed at it has no later confirmed entry aimed at it |
| `Writer.UpdatesIdempotent` | lib/updateFiles.py:17-32 | a second run over the same entries with the same answers, `y`, `Y` or declining in any mix, changes no file and no directory |
| `Writer.Take` | lib/updateFiles.py:39 | definition: `content[:30]`, the whole string when it is at most 30 characters long |
| `Writer.Preview` | lib/updateFiles.py:39 | definition: `Filename: <key> - Content starts with: <first 30 characters>...` |
| `Writer.ParseAndUpdate` | lib/updateFiles.py:35-40 | `main` prints `Parsed content:` and one preview per entry, then runs `update_files` on the parse |
| `Writer.NothingToUpdate` | lib/updateFiles.py:35-40 | a text without markers asks nothing and touches nothing |
| `Writer.LibTarget` | lib/updateFiles.py:19-20 | for the base `./lib` of line 453, a plain name below `./lib` is `./lib/<name>`, in directory `./lib` |
| `Writer.LibAncestry` | lib/updateFiles.py:23 | for the base `./lib` of line 453, after `makedirs('./lib')` the directories `./lib` and `.` both exist; `.` already did |
| `Writer.UpdatesLib` | lib/updateFiles.py:17-32 | for the call at lines 453-455, below `./lib`, with plain names and enough answers, the run completes, prompts for `./lib/<name>` in order, and leaves the directory set equal to the old set plus `./lib` and `.` |
| `Exporter.IsDart` | exporter.py:10 | definition: `filename.endswith('.dart')` |
| `Exporter.Section` | exporter.py:19 | definition: `// Title: <name>`, a blank line, the content, a blank line |
| `Exporter.Blob` | exporter.py:5-19 | definition: the sections of the entries, concatenated in order from `""` |
| `Exporter.LevelEntries` | exporter.py:9-16 | definition: the `.dart` names of one directory, in listed order, each with the content read from `os.path.join(root, name)` |
| `Exporter.Entries` | exporter.py:8-16 | definition: the entries of every directory of the walk, directory after directory |
| `Exporter.BlobSnoc` | exporter.py:19 | one more file appends its section |
| `Exporter.BlobAppend` | exporter.py:19 | the export of two runs of files is the two exports concatenated |
| `Exporter.LevelEntriesSnoc` | exporter.py:9-16 | one more listed name adds its entry exactly when it ends in `.dart` |
| `Exporter.EntriesStep` | exporter.py:8-19 | each directory of the walk appends its sections after those before it |
| `Exporter.Clipboard.constructor` | exporter.py:26 | makes the model of the system clipboard that `pyperclip.copy` writes to; it holds no text, and no contract depends on what it held before the copy |
| `Exporter.Clipboard.Copy` | exporter.py:26 | `pyperclip.copy(s)` puts exactly `s` on the clipboard |
| `Exporter.Aggregate` | exporter.py:5-19 | the nested loops build the in-order concatenation of the sections of the walked `.dart` files |
| `Exporter.AggregateLevel` | exporter.py:9-19 | the inner loop appends, in listed order, the section of each `.dart` file of one directory with the content read from `os.path.join(root, name)` |
| `Exporter.ExportAndCopy` | exporter.py:4-27 | the same string goes to the output file and the clipboard; no other file changes; one line is printed |
| `Exporter.BlobLength` | exporter.py:19 | the export is as long as the names and contents of its files plus 14 characters per file |
| `Exporter.LevelEntriesDart` | exporter.py:10 | a directory gives one entry per `.dart` name, and every entry is a listed `.dart` file |
| `Exporter.LevelEntriesAppend` | exporter.py:9 | the entries of `a + b` are those of `a`, then those of `b` |
| `Exporter.NonDartIgnored` | exporter.py:10 | a name not ending in `.dart` contributes nothing, wherever it is listed |
| `Exporter.NoDartNoExport` | exporter.py:5-10 | a walk without `.dart` files exports `""` |
| `Exporter.NoDartCount` | exporter.py:10 | names without `.dart` count zero matches |
| `Exporter.RootIndependent` | exporter.py:12-19 | the sections carry the bare name only: equal files in another directory export the same sections |
| `RoundTrip.SplitSection` | exporter.py:19 | under `split('\n')` (lib/updateFiles.py line 7) a section splits into its marker, a blank line, its content lines and a blank line |
| `RoundTrip.SplitBlob` | exporter.py:19 | under `split('\n')` (lib/updateFiles.py line 7) the export splits into the lines of its sections, in order |
| `RoundTrip.SplitExport` | lib/updateFiles.py:7 | for the export built at exporter.py line 19, the lines the parser sees are the sections' blocks, the last one ending in the empty piece after the final line feed |
| `RoundTrip.KeyOfSection` | lib/updateFiles.py:9-10 | the marker written at exporter.py line 19, `// Title: <name>`, is a marker titled `Title: <name>` |
| `RoundTrip.BlockValue` | lib/updateFiles.py:13 | for a section written at exporter.py line 19, the body joins to `"\n" + content + "\n\n"`, and with the final piece to one more `"\n"` |
| `RoundTrip.ParsedBlock` | lib/updateFiles.py:9-13 | each block of the export is a marker, has no marker in its body, and means its file's assignment |
| `RoundTrip.ParsedBlocksMeaning` | lib/updateFiles.py:9-13 | the blocks of the export are well formed and mean one assignment per file |
| `RoundTrip.ExportThenParse` | lib/updateFiles.py:4-14 | parsing the export of exporter.py lines 4-19 performs exactly one assignment per exported file, in order |
| `RoundTrip.KeyInjective` | exporter.py:19 | different names give different keys |
| `RoundTrip.DistinctKeys` | exporter.py:19 | distinct names give distinct assignments |
| `RoundTrip.AssignDistinctNames` | lib/updateFiles.py:11 | with distinct names every assignment survives, in order |
| `RoundTrip.RoundTrip` | lib/updateFiles.py:4-14 | parsing the export of exporter.py lines 4-19: with distinct exportable names the keys are `Title: <name>` in file order, each valued `"\n" + content + "\n\n"`, plus `"\n"` for the last file |
| `RoundTrip.RoundTripDuplicate` | lib/updateFiles.py:11 | for the export of exporter.py line 19, two files with one name collapse into one key holding the later file's section; there are fewer keys than files |

## Left out

- `os.walk` (exporter.py:8) is a parameter. The model takes the directories in it and the names each lists, in the walk's order. The ordering, the `dirs` list and the link between the walk and `source_folder` are not modelled.
- `FileSystems.FileSystem.Read` does not model universal newlines: exporter.py:15 opens the file in text mode, so Python's `read()` turns `"\r\n"` and a lone `"\r"` into `"\n"`. `Read` returns the stored string unchanged, so the model's `files` map holds each file's text as `read()` returns it, not its bytes on disk. `FileSystems.FileSystem.Read` also requires the file to exist. Every name it is called with comes from the walk, whose listed files the model requires to be readable (`Exporter.Readable`).
- `FileSystems.FileSystem.Write` and `FileSystems.FileSystem.MakeDirs` do not model OS errors. Neither do `Read` and the `open`/`write` calls of the exporter. In the model, files and directories never clash: a path can be both a key of `files` and a member of `dirs`. For example, take the parsed keys `sub/a.dart` then `sub` below `./lib`. The first entry makes `./lib/sub`. Python's `open('./lib/sub', 'w')` (lib/updateFiles.py:28) then raises `IsADirectoryError` and ends the loop. `Writer.Handled` instead writes `files["./lib/sub"]` and goes on prompting, and `Writer.UpdatesTranscript` describes that run. Other errors not modelled: decoding errors, missing permissions, a full disk, a file that vanished after the walk listed it, and a directory component that exists as a file. The source does not catch any of them.
- `input()` and `print` (lib/updateFiles.py:26, 30, 32, 37-39, exporter.py:27) are an answer sequence and a transcript of printed lines. The prompt that `input(...)` writes to standard output goes into the transcript as one line.
- `pyperclip.copy` is the `Exporter.Clipboard` object. A foreign library's behaviour is not modelled.
- Paths are plain strings. `./lib/a` and `lib/a` are different files; the model does no normalisation, symlinks or case folding.
- `os.makedirs` is modelled as adding the directory and every ancestor named by `dirname`. `Paths.Ancestry` records these ancestors as existing whether or not `makedirs` had to create them: `makedirs('./lib')` creates only `./lib`, and `.` already exists.
- `str.strip` and `str.lower` are ASCII only: whitespace is code points 9-13 and 28-32, and only `A`-`Z` are lower-cased. Unicode behaviour is not modelled.
- `Parser.SampleKeys`: the 400-line Dart sample embedded at lib/updateFiles.py:43-452 is not reproduced as a string. The lemma takes its shape as hypotheses: an opening line feed, then six blocks marked `// main.dart` through `// quran_data_service.dart`, with no other line starting with `//`.
- The module-level call `main(input_text, './lib')` (lib/updateFiles.py:453-455) is modelled only through the `./lib` lemmas (`Writer.LibTarget`, `Writer.LibAncestry`, `Writer.UpdatesLib`). The call itself is not modelled.
- The module-level call `export_and_copy_dart_files('./lib/', './lib/output.txt')` (exporter.py:30-32) is not modelled.
- `Writer.Preview`: `content[:30]` counts characters, and characters are Dafny `char`s. Surrogate pairs are not modelled.
