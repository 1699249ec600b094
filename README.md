# SRT Fixer: subtitle character repair, modelled in Dafny

SRT Fixer repairs subtitle (`.srt`) files whose text was mis-decoded. One example is a UTF-8 apostrophe that shows up as `â€™`.

A CSV file of `corrupted,replacement` rows is loaded once into an insertion-ordered dictionary. Each subtitle file is then rewritten by applying every entry, in dictionary order, as a Python `str.replace`.

Around this engine sits a small window. It keeps:
- a list of chosen `.srt` files, each with a checkbox;
- the "Clear all files" and "Save file(s)" buttons and whether each is enabled;
- the repaired files in memory, each named by replacing ".srt" with "_tr.srt" in its path.

The project models these parts:
- `text.dfy` (module `Text`): Python's `str.replace` and `str.count` on strings, with the empty-pattern case. It also has a `split`/`join` reference for replacement. `SplitJoin` and `SplitPiecesHoldNoMatch` pin down the split on their own terms: the pieces rebuild the text, and no occurrence of the pattern starts inside a piece.
- `mapping_table.dfy` (module `MappingTable`): the mapping rows and their load into an insertion-ordered dictionary, including the `KeyError` a row missing a field raises.
- `subtitle_processor.dfy` (module `SubtitleProcessing`): the class `SubtitleProcessor` and the repair fold `Repair`. The class has the loading loop (`LoadCharacterMappings`), the construction (`Create`) and the replacement loop (`FixCorruptedSrtFile`).
- `app.dfy` (module `App`): the class `SubtitleFixer`, which holds the window's state. Its methods are `AddFile`, `ClearAllFiles` and `FixFiles`. The fixing loop is specified by the fold `FixRun`.

Loops stay loops: each method is proved against a fold function, and the properties are proved about that fold as lemmas.

Reading a subtitle file, detecting its encoding and decoding it are one parameter, `readDecoded: String -> Option<String>`. `None` stands for any exception those steps raise, and the repair propagates it. `FixCorruptedSrtFile` therefore takes this reader instead of opening the file. The mapping source is given as its rows, one `map` from header field to cell per CSV record, as `csv.DictReader` yields them.

The save button does not behave as "enabled exactly when a run produced files". `fix_files` only ever enables it (app.py:149-150). Nothing in the modelled operations disables it, and an aborted run leaves it as it was. `FixFiles` states that behaviour: the new value is the old value, or true after a completed run with at least one file.

Replacement is a single left-to-right pass. `ReplaceCanLeaveMatch` shows that an occurrence of the pattern can survive it: with pattern "ab" and replacement "a", "aabb" becomes "aab".

## Model

| member | source | states |
|---|---|---|
| Text.ReplaceAll | subtitle_processor.py:68 | the definition of Python's `s.replace(c, r)`: a left-to-right scan that replaces each leftmost, non-overlapping occurrence of a non-empty `c` and copies every other character; an empty `c` is handed to `Interleave` |
| Text.Interleave | subtitle_processor.py:68 | the definition of `s.replace("", r)`: `r` before every character of `s` and once more at the end |
| Text.SplitFirstPiece | subtitle_processor.py:68 | the first piece of a split is the text before the leftmost occurrence of the pattern, or the whole text when there is none; the remaining pieces split the text after that occurrence |
| Text.EveryMatchIsSeparator | subtitle_processor.py:68 | for a pattern that cannot overlap itself, every occurrence in the text is where a separator of the split starts; with `ReplaceIsJoinOfSplit`, every occurrence is replaced |
| Text.SplitPiecesHoldNoMatch | subtitle_processor.py:68 | no occurrence of the pattern starts inside any piece of the split; with `SplitJoin` this fixes the matches that replacement rewrites independently of the scan |
| Text.ReplaceAllLength | subtitle_processor.py:68 | each of the `str.count` matches of the pattern trades its length for the replacement's length; the empty pattern counts `len + 1` matches |
| Text.ReplaceIsJoinOfSplit | subtitle_processor.py:68 | `s.replace(c, r)` equals `r.join(s.split(c))` for a non-empty `c`: the matches are exactly the separators of split |
| Text.CountZeroIffAbsent | subtitle_processor.py:68 | a non-empty pattern has zero matches exactly when it does not occur in the text |
| Text.ReplaceAbsent | subtitle_processor.py:68 | replacing a non-empty pattern that does not occur leaves the text unchanged |
| Text.ReplaceSelf | subtitle_processor.py:68 | replacing a pattern by itself leaves the text unchanged, the empty pattern included |
| Text.ReplaceCanLeaveMatch | subtitle_processor.py:68 | one pass can create a new match across a replacement boundary: "aabb" with "ab" to "a" gives "aab", which still contains "ab" |
| Text.ReplaceSingleMatch | subtitle_processor.py:68 | when the pattern's first character appears only where the pattern stands, exactly that occurrence is replaced and the rest is copied |
| Text.ReplaceTwoMatches | subtitle_processor.py:68 | two occurrences separated by text without the pattern's first character are both replaced, and the text around them is kept |
| Text.ReplaceKeepsSuffix | subtitle_processor.py:68 | when the pattern cannot overlap itself, a text ending in the pattern ends in the replacement afterwards |
| MappingTable.Put | subtitle_processor.py:30 | dictionary assignment: an existing key keeps its position and takes the new value, a new key is appended, other entries are untouched, keys stay distinct |
| MappingTable.MissingField | subtitle_processor.py:30 | the key reported for an incomplete row is a field the row lacks; "replacement" is reported first, because the right-hand side is evaluated first |
| MappingTable.Load | subtitle_processor.py:25-31 | a successful load never holds the same key twice |
| MappingTable.LoadOkIffWellFormed | subtitle_processor.py:28-30 | loading succeeds exactly when every data row has both fields; a header-only source never fails |
| MappingTable.LoadFailsAtFirstBadRow | subtitle_processor.py:28-30 | loading stops with `KeyError` at the first row missing a field, naming the field Python reports |
| MappingTable.LoadKeySet | subtitle_processor.py:28-30 | the loaded keys are exactly the values of the `corrupted` column |
| MappingTable.LoadLastRowWins | subtitle_processor.py:28-30 | each key maps to the `replacement` of the last row carrying that key |
| MappingTable.LoadFirstAppearanceOrder | subtitle_processor.py:28-30 | entries come in the order of each key's first row; a duplicate row does not move its key |
| SubtitleProcessing.Repair | subtitle_processor.py:67-68 | the definition of the text after the replacement loop: one replace-all per dictionary entry, in dictionary order, each working on the previous step's output |
| SubtitleProcessing.RepairConcat | subtitle_processor.py:67-68 | repairing with two tables in turn is repairing with their concatenation: the passes are sequential |
| SubtitleProcessing.RepairIsSequential | subtitle_processor.py:67-68 | a later entry rewrites what an earlier one produced: `a->b` then `b->c` turns "a" into "c" |
| SubtitleProcessing.RepairInert | subtitle_processor.py:67-68 | when every entry maps a key to itself or has a non-empty key absent from the text, repair returns the text unchanged |
| SubtitleProcessing.HeaderOnlySourceRepairsNothing | subtitle_processor.py:25-31 | a source without data rows loads as the empty table, and repair then returns the text unchanged |
| SubtitleProcessing.ApostropheTableLoads | subtitle_processor.py:25-31 | the rows for the mis-decoded apostrophe and left quote load as two entries, in row order |
| SubtitleProcessing.ApostropheScenario | subtitle_processor.py:67-70 | with that table, "Itâ€™s a test" is repaired to "It's a test" |
| SubtitleProcessing.SubtitleProcessor.FromTable | subtitle_processor.py:13 | the processor keeps the loaded table as its mappings |
| SubtitleProcessing.SubtitleProcessor.LoadCharacterMappings | subtitle_processor.py:25-31 | the row loop yields exactly the fold `Load` of the rows, including the `KeyError` case, and its table has distinct keys |
| SubtitleProcessing.SubtitleProcessor.Create | subtitle_processor.py:5-13 | a processor is created exactly when loading succeeds, and then holds the loaded table; otherwise the loading `KeyError` propagates |
| SubtitleProcessing.SubtitleProcessor.FixCorruptedSrtFile | subtitle_processor.py:59-72 | fails exactly when reading or decoding fails; otherwise returns the left fold of replace-all over the mappings in order |
| SubtitleProcessing.RepairTwice | subtitle_processor.py:67-72 | two repairs of the same file by one processor agree, because repair does not change the mappings |
| App.Selected | app.py:136-139 | an item is processed exactly when it is listed and ticked |
| App.FixedFilePath | app.py:143 | the definition of the output name: the path with every ".srt" replaced by "_tr.srt", by the same replace-all as the repair |
| App.FixedFilePathSuffix | app.py:143 | a path ending in ".srt" gets an output name ending in "_tr.srt" |
| App.FixedFilePathReplacesEveryMatch | app.py:143 | for every path, the output name is the path split at ".srt" and joined with "_tr.srt", and every occurrence of ".srt" in the path is one of the split's separators; so every ".srt" is replaced, not only the last one |
| App.FixedFilePathTwoMatches | app.py:143 | an instance: in a path `p.srt` `q.srt` whose other parts hold no '.', both occurrences become "_tr.srt" and the rest is kept |
| App.FixRun | app.py:136-147 | the definition of the fixing loop: ticked files in list order, each repaired and recorded under its output name, stopping at the first file whose read fails and keeping the files before it |
| App.FixRunCompletesIff | app.py:136-147 | a run completes exactly when every ticked file can be read and decoded |
| App.FixRunCompletedFiles | app.py:134-144 | a completed run holds one repaired file per ticked item, in list order, named by the ".srt" replacement; unticked items are skipped |
| App.FixRunAbortsAtFirstFailure | app.py:141-147 | a run stops at the first ticked file that fails, keeping the repaired files before it |
| App.FixRunAbortIsFinal | app.py:145-147 | after a failure the rest of the list is never looked at |
| App.FixRunOutputNames | app.py:143-144 | when every listed path ends in ".srt", every output name ends in "_tr.srt" |
| App.SubtitleFixer.constructor | app.py:40-64 | the window starts with an empty list, no repaired files and both buttons disabled |
| App.SubtitleFixer.ClearAllFiles | app.py:87-92 | the list becomes empty and "Clear all files" is disabled; the list rules still hold and nothing else changes |
| App.SubtitleFixer.AddFile | app.py:102-124 | a path not ending in ".srt" or already listed leaves the list unchanged; otherwise exactly one ticked entry is appended and "Clear all files" is enabled; the list rules (only ".srt", no duplicates) are preserved |
| App.SubtitleFixer.FixFiles | app.py:126-150 | an empty list changes nothing; otherwise the repaired files are those of `FixRun`, the list is untouched, and "Save file(s)" is switched on only by a completed run with files |

## Left out

- Encoding detection with chardet and the file read (subtitle_processor.py:33-47, 60-64): a statistical foreign library and I/O. They are the `readDecoded` parameter, and `None` stands for any exception they raise.
- Opening the mapping file and the csv module's dialect, quoting and header rules (subtitle_processor.py:26-27): library parsing. The rows are given as a sequence of complete maps.
- Rows shorter or longer than the header, where `csv.DictReader` fills in `None` or collects extra cells: not modelled, because every row is a map from field name to text.
- Qt plumbing (app.py:11-85, 94-100): widgets, layout, message boxes, file dialogs, drag and drop. A checkbox is a `bool`, and each message box is an `AddStatus` value or an early return.
- `choose_files` and `dropEvent` (app.py:76-85, 94-100): they only call `add_file` once per path.
- `save_files` (app.py:153-167): zip archive writing, `os.path.basename` and UTF-8 encoding are I/O. It is the only place that disables "Save file(s)".
- The window builds its processor from the fixed file name "character_mapping.csv" (app.py:64). The model passes the processor to the constructor instead, because loading that file is I/O.
- Ticking and unticking a file's checkbox is done by the Qt widget, not by a function of the window. No `SubtitleFixer` method changes `checked`, and `AddFile` adds items ticked, so the class never reaches a state with an unticked item. The skipping of unticked items is proved about `FixRun` and `Selected` only.
- The unused `fixed_contents` list (app.py:63, 135) and the `__main__` launcher (app.py:169-173).
- The `except Exception` in `fix_files` (app.py:145-147) is modelled for failures of `fix_corrupted_srt_file` only. The name replacement and the list append cannot fail in the model.
- App.SubtitleFixer.FixFiles: states that "Save file(s)" is enabled after a completed run with files, and otherwise keeps its old state. It does not state "enabled exactly when files were produced", because the code never disables the button here.
