# CSV game-object generation editor, modelled in Dafny

A model of the logic of the Unity editor window `CSVGameObjectGenerationEditor`.
The window has two operations with logic in them:

- **Create** turns a CSV text into a grid of prefab clones. It first copies the
  index-aligned key and prefab lists into the window's dictionary with
  `Dictionary.Add`. It then reads the text line by line with a `StringReader`
  (`Peek() >= 0` / `ReadLine`) and splits each line at `','`. For every token that is
  one of the keys, it instantiates that key's prefab at (token index, line index, 0)
  and names the clone after the prefab and a running serial number shared by the
  whole text.
- **CheckList** runs on every layout event while the requested count is not negative. It grows the key list with `""` and the
  prefab list with `null`, or drops their last entries, toward the requested number
  of fields. Its loop bounds are re-read while the lists change, so one call closes
  only half of the gap.

The window's state is the class `Editor.CsvGameObjectGenerationEditor`. Its fields
are `keyList`, `prefabList`, `objectDictionary`, `createNum` and `scene`. `scene` is
the sequence of objects instantiated so far: `Instantiate` is modelled as appending
an `Instance` record to it. The dictionary is created only in `OnEnable` (line 69)
and is never cleared by `Create`, so it carries over from one `Create` to the next.

The project has three modules:

- `Text` (`text.dfy`) models the .NET text handling: `String.Split` with one separator
  character, and `StringReader` with `Peek` and `ReadLine`. Only `'\n'` ends a line.
- `Placement` (`placement.dfy`) holds the specification functions:
  - `AddAll`, the dictionary build, with `Updated` as its independent reference
    definition;
  - `Cells`, the key tokens of the grid in scan order;
  - `FirstMissing`, the first cell whose key has no prefab;
  - `Records`, the objects made for a run of cells.

  Lemmas relate these functions to each other and to the text.
- `Editor` (`editor.dfy`) holds the class. Its methods keep the source's loops, and
  each loop is proved against the functions above.

## Model

| member | source | states |
|---|---|---|
| Text.Split | Scripts/Editor/CSVGameObjectGenerationEditor.cs:183 | `line.Split(',')` gives at least one field |
| Text.SplitNoSeparator | Scripts/Editor/CSVGameObjectGenerationEditor.cs:183 | no field holds the separator |
| Text.JoinSplit | Scripts/Editor/CSVGameObjectGenerationEditor.cs:183 | joining the fields with the separator gives the line back, so no character is lost or added |
| Text.SplitJoin | Scripts/Editor/CSVGameObjectGenerationEditor.cs:183 | any non-empty list of separator-free fields is what splitting its join returns |
| Text.Lines | Scripts/Editor/CSVGameObjectGenerationEditor.cs:177-181 | the lines the `Peek() >= 0` / `ReadLine` loop visits: the text up to each '\n', with the break consumed; it has no contract of its own, and `LinesAsSplit` and `StringReader.ReadLine` state what it is |
| Text.LinesAsSplit | Scripts/Editor/CSVGameObjectGenerationEditor.cs:177-181 | the lines the reader hands out are the text split at '\n': empty text has no line, one final '\n' adds no line, and an empty line between two breaks is still a line |
| Text.TrailingBreakAddsNoLine | Scripts/Editor/CSVGameObjectGenerationEditor.cs:177-181 | appending one '\n' to non-empty text that does not already end in '\n' leaves its lines unchanged |
| Text.StringReader.constructor | Scripts/Editor/CSVGameObjectGenerationEditor.cs:177 | a new reader will hand out exactly the lines of the text |
| Text.StringReader.Peek | Scripts/Editor/CSVGameObjectGenerationEditor.cs:179 | `Peek` is non-negative exactly when a line remains, and is -1 otherwise |
| Text.StringReader.ReadLine | Scripts/Editor/CSVGameObjectGenerationEditor.cs:181 | `ReadLine` returns the first remaining line and leaves the rest, in order |
| Placement.AddAll | Scripts/Editor/CSVGameObjectGenerationEditor.cs:167-170 | the `Add` loop: pairs go in in list order until `Add` meets a key the dictionary already holds; the key it stops at is one of the list's keys. `AddAllSucceeds`, `AddAllAdds` and `UpdatedContents` relate it to the reference definition `Updated` |
| Placement.AddAllSucceeds | Scripts/Editor/CSVGameObjectGenerationEditor.cs:167-170 | the `Add` loop gets through all keys exactly when the keys are distinct and none is in the dictionary yet |
| Placement.AddAllAdds | Scripts/Editor/CSVGameObjectGenerationEditor.cs:167-170 | the build stops at the first key that is already present, either from before or earlier in the list; the dictionary it leaves is the old one updated with the pairs before that key, each of which was new |
| Placement.UpdatedContents | Scripts/Editor/CSVGameObjectGenerationEditor.cs:167-170 | after adding new keys, the dictionary holds exactly the old keys plus the added ones; old entries are untouched and each added key maps to its prefab |
| Placement.AddAllCovers | Scripts/Editor/CSVGameObjectGenerationEditor.cs:167-170 | after a successful build every key of the list is in the dictionary, so the lookup at line 187 cannot miss |
| Placement.RebuildWithSharedKeyFails | Scripts/Editor/CSVGameObjectGenerationEditor.cs:167-170 | `Create` never clears the dictionary (only `OnEnable` creates it, at line 69), so after a successful build, any later build sharing a key with it fails |
| Placement.RowCells | Scripts/Editor/CSVGameObjectGenerationEditor.cs:183-194 | the cells of one line: its tokens that are keys, each at its own token index; it has no contract of its own, and `RowCellsSound` and `CellsComplete` state what it holds |
| Placement.Cells | Scripts/Editor/CSVGameObjectGenerationEditor.cs:179-198 | the cells of the whole text, line after line; it has no contract of its own, and `CellsSound`, `CellsComplete`, `CellsInScanOrder` and `CellsCount` state what it holds |
| Placement.RowCellsSound | Scripts/Editor/CSVGameObjectGenerationEditor.cs:183-193 | each cell of a row holds a key token, at that token's own index, whether or not earlier tokens matched |
| Placement.CellsSound | Scripts/Editor/CSVGameObjectGenerationEditor.cs:179-198 | each cell of the text holds a key token at (its index in its line, the index of its line) |
| Placement.CellsComplete | Scripts/Editor/CSVGameObjectGenerationEditor.cs:179-198 | every key token of the text has its cell |
| Placement.EmptyLineIsOneToken | Scripts/Editor/CSVGameObjectGenerationEditor.cs:181-185 | splitting the empty line gives the single token "", at x = 0; it is a cell exactly when "" is a key, which is the padding key of line 215 |
| Placement.CellsInScanOrder | Scripts/Editor/CSVGameObjectGenerationEditor.cs:179-198 | cells come in row-major order: row after row, left to right within a row |
| Placement.CellsCount | Scripts/Editor/CSVGameObjectGenerationEditor.cs:179-191 | the number of cells equals the number of grid positions whose token is a key |
| Placement.FirstMissing | Scripts/Editor/CSVGameObjectGenerationEditor.cs:185-187 | every cell before the returned index has a prefab, and the cell at the index (if any) has none |
| Placement.FirstMissingAt | Scripts/Editor/CSVGameObjectGenerationEditor.cs:185-187 | that property determines the first missing index uniquely |
| Placement.Records | Scripts/Editor/CSVGameObjectGenerationEditor.cs:187-190 | one object per cell, so a run of n cells makes exactly n objects; `RecordsLayout` says what each object is |
| Placement.RecordsNext | Scripts/Editor/CSVGameObjectGenerationEditor.cs:187-190 | one more cell appends one object, whose serial number is the count of objects before it |
| Placement.RecordsAppend | Scripts/Editor/CSVGameObjectGenerationEditor.cs:176-190 | the objects of two runs of cells are those of the first run, then those of the second numbered on from the first, because the counter is not reset per line |
| Placement.RecordsLayout | Scripts/Editor/CSVGameObjectGenerationEditor.cs:187-190 | the k-th object clones the prefab of the k-th cell's key, stands at (x, y, 0) of that cell, and is named after the prefab and serial number k |
| Placement.ObjectsStandOnKeys | Scripts/Editor/CSVGameObjectGenerationEditor.cs:172-198 | the k-th object made from a text stands at z = 0 on a key token of the text, clones that key's prefab, and carries serial number k |
| Placement.NamesUnique | Scripts/Editor/CSVGameObjectGenerationEditor.cs:188-190 | no two objects made by one run carry the same serial number, because `count` only goes up |
| Editor.CheckedLength | Scripts/Editor/CSVGameObjectGenerationEditor.cs:211-240 | the length one `CheckList` call leaves: it lies between the old length and the requested count, so the call moves toward the count and never passes it |
| Editor.CheckedLengthAfter | Scripts/Editor/CSVGameObjectGenerationEditor.cs:111-117 | the length after k layout events, each calling `CheckList`: it stays between the first length and the requested count |
| Editor.CheckedLengthStep | Scripts/Editor/CSVGameObjectGenerationEditor.cs:211-240 | one `CheckList` call changes nothing exactly when the length is already the count, and it reaches the count exactly when the gap is at most 1 |
| Editor.CheckListConverges | Scripts/Editor/CSVGameObjectGenerationEditor.cs:111-117 | with a count of at least 0, after k layout events where 2^k exceeds the initial gap, the list is exactly the requested length |
| Editor.CheckListStable | Scripts/Editor/CSVGameObjectGenerationEditor.cs:111-117 | once a list has the requested length, further layout events keep it there |
| Editor.CheckListFallsShort | Scripts/Editor/CSVGameObjectGenerationEditor.cs:213-216 | from an empty list and a count of 4, one call leaves 2 entries, and three calls are needed to reach 4 |
| Editor.Result | Scripts/Editor/CSVGameObjectGenerationEditor.cs:164-201 | how `Create` ends: a duplicate key it reports is one of the list's keys, and when no prefab is missing, the count is the number of key cells in the text |
| Editor.Produced | Scripts/Editor/CSVGameObjectGenerationEditor.cs:164-201 | the objects `Create` makes, agreeing with `Result`: none on a duplicate key, exactly the reported count when all cells were made, and fewer than the key cells when a prefab is missing |
| Editor.SecondCreateFails | Scripts/Editor/CSVGameObjectGenerationEditor.cs:167-170 | after a Create that got past the build, pressing Create again with the same non-empty lists stops at the first key and makes nothing |
| Editor.Resized | Scripts/Editor/CSVGameObjectGenerationEditor.cs:208-241 | a list cut or padded to exactly n entries keeps its first entries and pads with the given value |
| Editor.CsvGameObjectGenerationEditor.constructor | Scripts/Editor/CSVGameObjectGenerationEditor.cs:64-70 | a new window starts with empty lists, an empty dictionary, no objects and a requested count of 0 |
| Editor.CsvGameObjectGenerationEditor.SetCreateNum | Scripts/Editor/CSVGameObjectGenerationEditor.cs:98 | the "Number of Field" input sets the requested count and nothing else |
| Editor.CsvGameObjectGenerationEditor.SetEntry | Scripts/Editor/CSVGameObjectGenerationEditor.cs:253-257 | the list view sets row i of both lists and nothing else |
| Editor.CsvGameObjectGenerationEditor.CheckList | Scripts/Editor/CSVGameObjectGenerationEditor.cs:208-241 | each list ends `CheckedLength` long, where a gap g becomes a gap of g / 2; growth appends only "" keys or null prefabs; shrinking keeps the untouched prefix; two aligned lists stay aligned; nothing else changes |
| Editor.CsvGameObjectGenerationEditor.CheckKeys | Scripts/Editor/CSVGameObjectGenerationEditor.cs:211-224 | the key list is padded with "" or cut from the tail, to `CheckedLength` entries |
| Editor.CsvGameObjectGenerationEditor.CheckPrefabs | Scripts/Editor/CSVGameObjectGenerationEditor.cs:227-240 | the prefab list is padded with null or cut from the tail, to `CheckedLength` entries |
| Editor.CsvGameObjectGenerationEditor.CheckListAtOnce | Scripts/Editor/CSVGameObjectGenerationEditor.cs:208-241 | when each loop bound is taken once, both lists are exactly the requested length after one call, with their prefixes kept |
| Editor.CsvGameObjectGenerationEditor.Create | Scripts/Editor/CSVGameObjectGenerationEditor.cs:164-201 | the dictionary becomes `AddAll` of the old dictionary and the lists; the outcome is `Result`; and the scene grows by exactly `Produced`: nothing on a duplicate key, otherwise one object per key cell in scan order up to the first cell without a prefab |
| Editor.CsvGameObjectGenerationEditor.AddEntries | Scripts/Editor/CSVGameObjectGenerationEditor.cs:167-170 | the `Add` loop leaves the dictionary and the duplicate key exactly as `AddAll` says |
| Editor.CsvGameObjectGenerationEditor.Generate | Scripts/Editor/CSVGameObjectGenerationEditor.cs:172-199 | the reading loop appends the objects of the text's cells, up to the first cell without a prefab, and reports that cell or the number of objects made |
| Editor.CsvGameObjectGenerationEditor.InstantiateLine | Scripts/Editor/CSVGameObjectGenerationEditor.cs:181-198 | one pass of the reading loop consumes one line. If no key on it lacks a prefab, the objects so far are those of the lines read. Otherwise the scan stops at the first cell of the whole text without a prefab |
| Editor.CsvGameObjectGenerationEditor.InstantiateRow | Scripts/Editor/CSVGameObjectGenerationEditor.cs:183-194 | the `foreach` over one line's tokens appends the objects of the row's cells, numbered on from `count`, up to the first without a prefab, which it returns |
| Editor.CsvGameObjectGenerationEditor.CreateFresh | Scripts/Editor/CSVGameObjectGenerationEditor.cs:164-201 | with the dictionary emptied first, Create's outcome and objects depend only on the lists and the text |
| Editor.CsvGameObjectGenerationEditor.CreateFreshTwice | Scripts/Editor/CSVGameObjectGenerationEditor.cs:164-201 | two presses with a fresh dictionary have the same outcome, which is `Result` on an empty dictionary, and add the same objects twice; the lists and the requested count are unchanged, and the dictionary is what one build from empty leaves |
| Editor.MissingInRow | Scripts/Editor/CSVGameObjectGenerationEditor.cs:185-187 | a row scan that meets a key without a prefab at token j has met the row's first such cell, and the cells before it are exactly those given objects |
| Editor.NoneMissingInRow | Scripts/Editor/CSVGameObjectGenerationEditor.cs:183-194 | a row scan that reaches the end of the row has met every cell of the row, and none of them lacks a prefab |
| Editor.MissingPrefabIsFirst | Scripts/Editor/CSVGameObjectGenerationEditor.cs:179-198 | when the scan stops in some line, the cell it stops at is the first cell without a prefab in the whole text, and the objects made so far are those of the cells before it |
| Editor.LineOutcome | Scripts/Editor/CSVGameObjectGenerationEditor.cs:179-198 | after each line, the state matches either a scan of the lines read so far or a stop at the text's first missing prefab |
| Editor.AllLinesRead | Scripts/Editor/CSVGameObjectGenerationEditor.cs:179-199 | when `Peek` finds no more text, the cells scanned are all the cells of the text and none of them lacks a prefab |

## Left out

- The GUI is not modelled: `Init`, `OnSelectionChange`, `OnInspectorUpdate`, the `OnGUI` layout calls, the scroll view and the CSV object field. They are Unity editor plumbing. `SetCreateNum` and `SetEntry` stand for the two input fields that change the state. Unity runs `OnEnable` again whenever the window is re-enabled, which gives empty lists and a new, empty dictionary. That is the only way the source ever resets the dictionary, and it is not modelled: the constructor models the first enable only.
- `Instantiate`, `GameObject`, `Quaternion` and `Vector3` are Unity calls and float vectors. An object is a record of its prefab, its integer position and its name. The name is the pair (prefab name, serial number), so no integer is converted to a string.
- Placement.NamesUnique: the serial numbers are distinct, but the names the source builds by concatenating the prefab name and the decimal serial number can collide. For example, prefab "A1" with serial 0 and prefab "A" with serial 10 are both named "A10", so the source's names are not unique.
- A null prefab makes `Instantiate` throw `ArgumentException`. This is modelled as the `MissingPrefab` outcome: the objects made before it stay, and nothing after it is made.
- `Debug.Log(m_csv.text)` and the null dereference when no CSV asset is set are left out. `Create` takes the text itself.
- The empty `catch (System.FormatException)` in `OnGUI` is left out. The failures of `Create` are not format errors and are modelled as outcomes.
- Text.StringReader.ReadLine: requires that a line remains. .NET returns null at the end, but `Create` only calls `ReadLine` after `Peek` has found text.
- `'\r'` and `"\r\n"` line breaks are not modelled; only `'\n'` ends a line.
- The serial number `count` and the coordinates are unbounded integers. The 32-bit overflow of `count` after 2^31 objects is not modelled.
- Editor.CsvGameObjectGenerationEditor.CheckList: requires `createNum >= 0`. This is the guard of its only caller (line 111). With a negative count the shrinking loop can call `RemoveAt` on an empty list: a count of -1 with an empty list throws, while a list of 2 just becomes empty.
- Editor.CsvGameObjectGenerationEditor.Create: requires the two lists to have equal length. The `Add` loop indexes the prefab list by the key list's indices. `CheckList` and the constructor keep both lists the same length.

## Findings

| source | as written | input that shows it | evidently intended | confidence | as-written member | corrected member |
|---|---|---|---|---|---|---|
| Scripts/Editor/CSVGameObjectGenerationEditor.cs:213-216 | the `for` bound `m_create_num - m_key_list.Count` is re-read after each `Add`, so one call closes only half the gap (the same holds for the other three loops) | empty lists with "Number of Field" 4: one call leaves 2 entries, and the lists reach 4 only on the third layout event | one call pads or cuts both lists to exactly the requested count | medium, not executed | Editor.CheckListFallsShort | Editor.CsvGameObjectGenerationEditor.CheckListAtOnce |
| Scripts/Editor/CSVGameObjectGenerationEditor.cs:167-170 | the dictionary is created only in `OnEnable` (line 69) and `Create` only adds to it, so a second Create with the same lists throws on its first key | key list ["A"] with any prefab: press Create twice; the second press adds nothing and throws at "A" | each Create builds the association from the current lists, so pressing it again makes the same objects again | medium, not executed | Editor.SecondCreateFails | Editor.CsvGameObjectGenerationEditor.CreateFreshTwice |

The model of `Create` itself follows the code: the dictionary persists.
