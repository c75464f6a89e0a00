# Unit-price analysis query tool — a Dafny model

The repository is made of two Streamlit scripts that search a unit-price
analysis sheet (單價分析表):

- `Planting_tools.py` adds a second sheet of plants (植栽規格表). Plants
  and items are ticked into one selection.
- `everybody.py` is the item search on its own.

In both scripts the user:

1. uploads a workbook;
2. maps three columns to 項次 (item number), 項目及說明 (description) and
   單位 (unit);
3. types comma-separated search terms;
4. ticks the rows to keep;
5. gets the kept rows as a table to download.

This project models the data path of that process and proves what each step
guarantees:

- **Table cleaning** (`Table`, `Strings`). Rows without an item number or a
  description are dropped. Full-width spaces are removed from the
  description, and the description is stripped. The item number becomes
  text.
- **Keyword splitting** (`Strings.Keywords`). The character classes differ
  between the scripts: `[,，、]` in `Planting_tools.py`, `[，,]` in
  `everybody.py`.
- **The keyword search** (`Search`). For term i, the rows whose description
  or item number contains it get rank i (輸入順序) and a numeric key
  (項次數值). The frames are concatenated in term order. Duplicates on
  (description, unit) are dropped, keeping the first. The list is sorted by
  (rank, key) or by key alone, with NaN last. The key is the first digit run
  of the item number in `Planting_tools.py` and the whole item number read
  as a number in `everybody.py`.
- **The selection** (`Selection`). `selected_items` is an insertion-ordered
  dictionary, modelled as key order plus map. Beside it sit the checkbox
  states the UI library keeps.
  - A checkbox shows its stored state. Without one, it shows whether its key
    is selected.
  - A ticked box writes its record. An unticked box pops its key.
  - Because the UI library reruns the script on every interaction, the model
    proves that, for entries with distinct keys, a rerun with no click in
    between changes nothing. The item checkboxes of `Planting_tools.py` have
    distinct keys.
  - The reset button is meant to empty the selection and untick every
    `item_`/`plant_` checkbox. The model proves that intended reset; as
    written, the script raises inside it (see "## Left out"). The session
    object is a class whose methods are proved against these functions.
- **The plant section of `Planting_tools.py`** (`PlantingTools`):
  - the workbook engine is chosen from the file extension;
  - the plant table is cleaned: incomplete rows are dropped and the group is
    made an `int`;
  - the plant filter matches varieties literally; with no terms it takes the
    first five plants; either way it sorts by group;
  - each plant has a checkbox key, and each plant record has its fixed shape.
- **The item checkboxes of `Planting_tools.py`**:
  - the pid drops a leading `1.`;
  - keys are built from pid and list position, and are unique;
  - `float(pid)` raises on a non-numeric pid, and that stops the run.
- **The export in `Planting_tools.py`**: records are re-keyed by the first
  digit run of their item number and sorted by it. A record without a digit
  makes `astype(int)` raise.
- **`everybody.py`** (`Everybody`):
  - when nothing is found, the preview of at most ten distinct
    `項次｜說明` labels;
  - checkbox keys are the label itself;
  - the export is sorted by 項次數值.
- **Columns dropped** before display and download.

What the user types, clicks and uploads is a parameter. An uploaded sheet
is a sequence of rows whose mapped cells are already identified.

## Model

| member | source | states |
|---|---|---|
| Strings.Strip | Planting_tools.py:69 | the result has no whitespace (Python `isspace`) at either end and uses only the input's characters |
| Strings.StripCutsSpaces | Planting_tools.py:69 | the stripped text is a slice of the input with only whitespace cut away on each side |
| Strings.StripOfStripped | Planting_tools.py:69 | stripping a text that has no whitespace at either end returns it unchanged |
| Strings.Without | Planting_tools.py:69 | removing U+3000 leaves no such character, keeps every other character, and shortens the text by exactly the number of characters removed |
| Strings.WithoutOne | Planting_tools.py:69 | a single character is dropped iff it is one of the removed characters |
| Strings.WithoutAppend | Planting_tools.py:69 | removal works piece by piece, so the kept characters stay in their order |
| Strings.WithoutFree | Planting_tools.py:69 | removing a character that is absent changes nothing |
| Strings.AfterFirst | Planting_tools.py:172 | `split(".", 1)[1]` is the text after the first occurrence, with none of that character before it |
| Strings.Split | Planting_tools.py:116 | `re.split` on a character class gives exactly one piece more than there are delimiters |
| Strings.SplitSpec | Planting_tools.py:116 | `re.split` on a character class gives one piece more than there are delimiters; no piece holds a delimiter; the pieces joined give the input less its delimiters |
| Strings.NonEmptyStrippedSpec | Planting_tools.py:116 | there are no more terms than pieces; each term is nonempty, stripped and free of the characters the pieces are free of |
| Strings.NonEmptyStrippedAppend | Planting_tools.py:116 | keeping the stripped nonempty pieces works piece by piece |
| Strings.Keywords | Planting_tools.py:116 | the typed terms number at most delimiters + 1; each is nonempty, stripped and free of delimiters |
| Strings.SplitAtDelimiter | Planting_tools.py:151 | splitting at a delimiter splits the pieces in text order |
| Strings.KeywordsAtDelimiter | Planting_tools.py:151 | the terms before a delimiter come, in order, before the terms after it |
| Strings.KeywordsOfFree | everybody.py:56 | a text without delimiters is a single term (its stripped self) or none when blank |
| Strings.SplitOfFree | everybody.py:56 | a text without delimiters splits into itself |
| Strings.FirstDigitRun | Planting_tools.py:160 | `extract(r"(\d+)")` is absent iff the text has no digit, and otherwise is the first maximal run of digits |
| Strings.FirstRunUnique | Planting_tools.py:160 | the first maximal digit run and its position are unique |
| Strings.NatToString | Planting_tools.py:200 | `str(n)` is nonempty decimal digits denoting n, with no leading zero |
| Strings.NatToStringInjective | Planting_tools.py:174 | different numbers print differently |
| Strings.IntToString | Planting_tools.py:136 | `str(i)` is the decimal text of i, after a `-` when i is negative, and `int(str(i)) == i` |
| Strings.ParseInt | Planting_tools.py:107 | `int(s)` succeeds exactly on a nonempty digit run with an optional `-` or `+`, and gives its signed value |
| Strings.ParseNumber | Planting_tools.py:180 | `float(s)` and `pd.to_numeric` succeed exactly on an optionally signed decimal numeral: digits, or digits around one dot, with at least one digit; a plain digit run is its own value |
| Strings.ParseUnsigned | Planting_tools.py:180 | an unsigned text is accepted exactly when it is digits, or digits around one dot |
| Strings.ParseNumberAt | Planting_tools.py:180 | a numeral with its dot at p is the whole digits plus the fraction digits over ten to the power of their count |
| Strings.ParseNumberDecimal | Planting_tools.py:180 | `w.f` for digit runs w and f, not both empty, is w + f / 10^|f| |
| Strings.ParseNumberSign | Planting_tools.py:180 | a leading `-` negates the value of the rest, a leading `+` keeps it, and the signed text fails iff the rest fails |
| Strings.ParseDecimalExample | Planting_tools.py:171 | the item number `1.329` reads as 1.329 |
| Strings.ParseSignedExample | Planting_tools.py:180 | `-12` reads as -12 |
| Strings.ParseTextExample | Planting_tools.py:171 | the item number `分析表33` is not a number |
| Strings.ParseNatToString | Planting_tools.py:136-139 | `float(str(n)) == n` |
| Seqs.SortBy | Planting_tools.py:165-167 | `sort_values`: the result is ordered by the key order and is a permutation of the input |
| Seqs.SortByLength | Planting_tools.py:165-167 | sorting keeps the length |
| Seqs.SortByMembership | Planting_tools.py:165-167 | sorting keeps exactly the same elements |
| Seqs.SortByKeepsDistinctKeys | Planting_tools.py:162-167 | sorting a deduplicated list keeps it free of duplicate keys |
| Seqs.Dedup | Planting_tools.py:162 | `drop_duplicates(subset=...)`: no two survivors share a key; the survivors are an order-preserving subsequence; every survivor comes from the input |
| Seqs.DedupCovers | Planting_tools.py:162 | every input element's key is represented among the survivors |
| Seqs.DedupKeepsFirst | Planting_tools.py:162 | each survivor is the first input element with its key |
| Seqs.DedupFirstSurvives | Planting_tools.py:162 | the first input element with a key survives |
| Seqs.FirstIndex | Planting_tools.py:162 | the position of the first element with a given key, or the length when there is none |
| Seqs.DedupInFirstOrder | Planting_tools.py:162 | the survivors come in the order in which their keys first occur in the input |
| Seqs.Map | Planting_tools.py:197 | a pointwise image of the same length |
| Seqs.MapPermutation | everybody.py:94-95 | images of permutations are permutations |
| Seqs.Filter | Planting_tools.py:121-123 | boolean indexing keeps exactly the elements satisfying the condition, in order |
| Seqs.FilterAppend | Planting_tools.py:121-123 | filtering works row by row |
| Seqs.MapFilterMembers | Planting_tools.py:67-71 | the images of the kept rows are exactly the images of the rows meeting the condition |
| Seqs.Take | Planting_tools.py:126 | `head(n)` is exactly the first n elements, or all of them when there are fewer |
| Seqs.IsSubseqTrans | everybody.py:79-80 | a subsequence of a subsequence is a subsequence |
| Table.CellText | Planting_tools.py:70 | `astype(str)` of a cell: a text is itself, a blank is `nan`, an integer is `str(i)` and reads back as that integer |
| Table.CleanDescription | Planting_tools.py:69 | a cleaned description is stripped, holds no U+3000 and uses only the original's characters |
| Table.CleanDescriptionIdempotent | Planting_tools.py:69 | cleaning twice is cleaning once |
| Table.CleanDescriptionCuts | Planting_tools.py:69 | the cleaned description is a slice of the text with every U+3000 removed, with only whitespace cut from each end |
| Table.CleanRow | Planting_tools.py:65-72 | a kept row has the item number as text and the description cleaned (stripped, no U+3000); unit and other columns are kept |
| Table.Normalise | Planting_tools.py:65-72 | the cleaned table is no longer than the sheet, and every description in it is clean |
| Table.NormaliseMembers | Planting_tools.py:65-72 | a row is in the cleaned table iff it is the cleaning of a sheet row with both item number and description present (the same step as everybody.py:39-41) |
| Table.NormaliseAppend | Planting_tools.py:65-72 | cleaning keeps row order |
| Table.KeyLeTotalPreorder | Planting_tools.py:165-167 | the float order with NaN last is a total preorder |
| Table.KeyLe | Planting_tools.py:165-167 | numbers compare by value; NaN sorts after every number and ties with NaN |
| Table.DropColumns | Planting_tools.py:201 | `drop(columns=..., errors="ignore")` keeps exactly the columns not named, in order |
| Table.DropColumnsAppend | Planting_tools.py:201 | dropping works column by column |
| Search.KeyOf | Planting_tools.py:160 | first-digit key: NaN iff no digit, else the value of the first digit run; whole-number key (everybody.py:42): exactly `pd.to_numeric` of the item number, NaN iff it is not a numeral |
| Search.KeyRulesDiffer | everybody.py:42 | `分析表33` has first-digit key 33 but whole-number key NaN; `1.329` has whole-number key 1.329 |
| Search.Matches | Planting_tools.py:158 | an empty term matches every row; a term longer than both description and item number matches none |
| Search.Frame | Planting_tools.py:158-159 | a term's frame holds exactly the table rows containing the term in description or item number, tagged with its rank and key |
| Search.FrameAppend | Planting_tools.py:158-159 | the frame works row by row: the hits of two parts of the table follow each other in table order |
| Search.FrameOne | Planting_tools.py:158-159 | one row gives one hit with the rank and its key when it contains the term, and none otherwise |
| Search.Concatenated | Planting_tools.py:161-162 | no terms give no rows; a single term gives its frame |
| Search.ConcatenatedSnoc | Planting_tools.py:157-161 | each further term appends its frame with the next rank |
| Search.ConcatenatedHit | Planting_tools.py:156-162 | every concatenated row contains the term of its rank and carries its key |
| Search.ConcatenatedRanks | Planting_tools.py:156-162 | the concatenation lists frames in term order (ranks never decrease) |
| Search.ConcatenatedCovers | Planting_tools.py:156-162 | every row containing term k is in the concatenation with rank k |
| Search.AppendRanks | Planting_tools.py:161-162 | appending a later frame keeps ranks ordered |
| Search.OrderTotal | Planting_tools.py:164-167 | both search orders are total preorders |
| Search.DedupKey | Planting_tools.py:162 | duplicates are judged on (description, unit) |
| Search.RankKeyLe | Planting_tools.py:165 | the order by (輸入順序, 項次數值): rank first, the key within a rank |
| Search.KeyOnlyLe | Planting_tools.py:167 | the order by 項次數值 alone |
| Search.View | Planting_tools.py:162-167 | the found list is sorted by the chosen order and has no two rows with the same (description, unit) |
| Search.Find | Planting_tools.py:155-167 | the loop over terms gives nothing without terms, and otherwise the deduplicated, sorted concatenation |
| Search.ViewMatches | Planting_tools.py:155-167 | every found row is a table row containing the term of its rank, with its item number's key |
| Search.ViewKeepsFirst | Planting_tools.py:162 | every found row is the first of the concatenation with its (description, unit) |
| Search.ViewHoldsFirst | Planting_tools.py:162 | the first row of the concatenation with a given (description, unit) is found |
| Search.ViewCovers | Planting_tools.py:155-167 | a row containing term k is represented by a found row with its (description, unit) and rank at most k |
| Search.EarliestSurvivor | Planting_tools.py:162 | with ranks ordered, the survivor of a key has rank no greater than any row with that key |
| Search.ViewEmpty | everybody.py:76 | the found list is empty iff no row contains any term |
| Search.ConcatenatedEmpty | everybody.py:59-67 | the concatenated frames are empty iff no row contains any term |
| Search.ViewEmptyIffNone | everybody.py:69-76 | deduplicating and sorting leave nothing iff there was nothing |
| Selection.Remove | Planting_tools.py:142 | `pop(k, None)` on the key order: removes exactly k, keeps the other keys in their order, keeps distinctness, no-op when absent |
| Selection.Put | Planting_tools.py:135 | `selected_items[k] = r`: k maps to r; an existing key keeps its place, a new key goes to the end; checkbox states are untouched |
| Selection.Pop | Planting_tools.py:142 | `selected_items.pop(k, None)`: k is gone, the other keys keep their order and records; an absent key changes nothing |
| Selection.Ticked | Planting_tools.py:133-134 | a checkbox shows its stored state, or without one whether its key is selected |
| Selection.Shown | Planting_tools.py:133-142 | one checkbox: its state is recorded; ticked, the record is written (new keys at the end); unticked, the key is popped; fails exactly when ticked with an unbuildable record, and then leaves the key order alone |
| Selection.ShownTwice | Planting_tools.py:133-142 | drawing a checkbox twice equals drawing it once |
| Selection.Rendered | Planting_tools.py:130-142 | a render loop keeps the selection well formed |
| Selection.RenderedFrame | Planting_tools.py:130-142 | a render loop leaves undrawn keys unchanged |
| Selection.ShownSettled | Planting_tools.py:133-142 | a checkbox whose state matches the selection changes nothing |
| Selection.RerunIsStable | Planting_tools.py:130-142 | with distinct keys, rerunning the loop without a click changes nothing |
| Selection.RenderedSucceeds | Planting_tools.py:130-142 | with every record buildable, the loop does not fail |
| Selection.ResetState | Planting_tools.py:185-192 | the intended reset (as written the script raises at line 192) empties the selection, keeps the set of checkbox keys and unticks exactly the `item_`/`plant_` ones |
| Selection.ClearedStaysEmpty | Planting_tools.py:185-192 | after a reset, drawing the scripts' checkboxes selects nothing |
| Selection.ResetClears | Planting_tools.py:185-192 | a reset leaves the session cleared |
| Selection.Values | Planting_tools.py:197 | `selected_items.values()` lists the stored records in key insertion order, one per key |
| Selection.Session.constructor | Planting_tools.py:39 | a new session has nothing selected and no checkbox state |
| Selection.Session.Click | Planting_tools.py:134 | a click sets only the clicked checkbox's state |
| Selection.Session.Show | Planting_tools.py:133-142 | the in-place checkbox step computes exactly `Shown` |
| Selection.Session.Render | Planting_tools.py:130-142 | the in-place loop computes exactly `Rendered`, stopping at the first failure |
| Selection.Session.ClearSelection | Planting_tools.py:74 | `selected_items = {}` leaves checkbox states alone |
| Selection.Session.Reset | Planting_tools.py:185-192 | the in-place reset loop over the state keys computes exactly `ResetState`, the intended reset |
| PlantingTools.LastIndexOf | Planting_tools.py:11 | the last occurrence of a character, or -1 |
| PlantingTools.LastIndexOfIs | Planting_tools.py:11 | an occurrence with none after it is the last |
| PlantingTools.NonDotBetweenAt | Planting_tools.py:11 | a non-dot character in a range makes the range not all dots |
| PlantingTools.Extension | Planting_tools.py:11 | `splitext(name)[1]` is empty or a dot followed by neither dot nor slash, and is a suffix of the name |
| PlantingTools.ExtensionOf | Planting_tools.py:11 | for a stem that is not all dots plus a dotted extension, `splitext` finds that extension |
| PlantingTools.LowerChar | Planting_tools.py:11 | a capital A–Z becomes the small letter 32 code points later; any other character is kept |
| PlantingTools.LowerAscii | Planting_tools.py:11 | lowercasing keeps the length and lowercases character by character |
| PlantingTools.EngineFor | Planting_tools.py:9-21 | xlrd only for a name ending in `.xls`, openpyxl only for `.xlsx` (in any case), and none when there is no extension |
| PlantingTools.EngineForName | Planting_tools.py:11-16 | for a stem plus an extension, the engine follows the lowercased extension: xlrd for `.xls`, openpyxl for `.xlsx`, none otherwise |
| PlantingTools.EngineForUpperCase | Planting_tools.py:11-16 | `BOOK.XLS` is read with xlrd |
| PlantingTools.AsInt | Planting_tools.py:107 | `astype(int)` of a cell: an integer is itself, a blank fails, a text converts exactly when it is an optionally signed digit run |
| PlantingTools.CleanPlant | Planting_tools.py:107-109 | a row converts iff its group does; the plant has that group and the description and variety as text |
| PlantingTools.CleanPlants | Planting_tools.py:98-109 | cleaning fails iff a complete row's group is not an integer; otherwise every complete row's plant is kept, and every plant comes from a complete row |
| PlantingTools.CleanPlantsAppend | Planting_tools.py:98-109 | cleaning works row by row: the plants of two parts of the sheet follow each other in sheet order, and either part failing fails the whole |
| PlantingTools.GroupLeTotal | Planting_tools.py:128 | ordering by group is a total preorder |
| PlantingTools.MatchesAny | Planting_tools.py:119-122 | the variety contains one of the keywords; never true without keywords |
| PlantingTools.PlantView | Planting_tools.py:116-128 | sorted by group; with terms, a permutation of the boolean-mask filter of the plants whose variety contains one term, so each matching plant once per occurrence; without, a permutation of the first five |
| PlantingTools.PlantKey | Planting_tools.py:132 | a plant's checkbox key starts with `plant_` |
| PlantingTools.PlantKeyInjective | Planting_tools.py:132 | two plants share a checkbox key only with the same group and variety |
| PlantingTools.NoUnderscoreInInt | Planting_tools.py:132 | a printed integer holds no `_` |
| PlantingTools.PlantRecord | Planting_tools.py:135-140 | a plant's record: the id is `str(group)` and reads back as the group, the key is the group as a float, description `品種，說明`, unit 株, no rank and no other columns |
| PlantingTools.ShowPlants | Planting_tools.py:98-142 | the plant section fails, leaving the session alone, iff cleaning raises; otherwise it renders the plant view |
| PlantingTools.Pid | Planting_tools.py:172 | a number starting with `1.` loses those two characters; other numbers are kept |
| PlantingTools.ItemKey | Planting_tools.py:174 | an item's checkbox key starts with `item_` |
| PlantingTools.ItemKeyInjective | Planting_tools.py:174 | item keys differ when position or pid differ |
| PlantingTools.ItemRecord | Planting_tools.py:176-181 | the record fails iff `float(pid)` fails; otherwise the id is the pid and the key its value, with rank, description, unit and the row's other columns kept |
| PlantingTools.ItemEntries | Planting_tools.py:170-183 | one checkbox per found row, keyed by pid and position, keys pairwise distinct |
| PlantingTools.ShowItems | Planting_tools.py:150-183 | without terms nothing changes; otherwise the found list is rendered with first-digit keys |
| PlantingTools.ItemRerunIsStable | Planting_tools.py:170-183 | rerunning the item loop without a click changes nothing |
| PlantingTools.WidgetKeys | Planting_tools.py:189-192 | plant and item checkbox keys are the ones the reset unticks |
| PlantingTools.Number | Planting_tools.py:198 | 純項次 is absent iff the item number has no digit, else the value of its first digit run |
| PlantingTools.Numbering | Planting_tools.py:198 | fails iff a record has no digit; otherwise numbers each record in place |
| PlantingTools.ToLine | Planting_tools.py:200-201 | the exported item number is `str(純項次)`: decimal digits denoting it, no leading zero; description, unit and key are kept; the bookkeeping columns are dropped |
| PlantingTools.Export | Planting_tools.py:197-201 | fails iff a record has no digit; otherwise one line per record, item numbers all digits and in ascending numeric order |
| PlantingTools.ExportPermutation | Planting_tools.py:197-201 | the export lists each numbered record's line exactly as often as it occurs |
| Everybody.Preview | everybody.py:79-80 | at most ten distinct labels, each `項次｜說明` of a table row |
| Everybody.PreviewOrder | everybody.py:79-80 | the preview keeps table order |
| Everybody.PreviewCovers | everybody.py:79-80 | a preview shorter than ten lists every row's label |
| Everybody.PreviewInOrder | everybody.py:79-80 | the preview lists its labels in the order of their first occurrence in the table |
| Everybody.PreviewFirstTen | everybody.py:79-80 | a table label missing from the preview means the preview is full, with ten labels that all first occur earlier |
| Everybody.Label | everybody.py:84 | a label is the item number, a full-width bar `｜` and the description |
| Everybody.Query | everybody.py:55-80 | no terms: no list; no match: the preview; otherwise the found list with whole-number keys |
| Everybody.RowKeyOfRow | everybody.py:84-87 | a row's checkbox key depends only on its item number and description |
| Everybody.ShowRows | everybody.py:83-90 | the render loop of the found list never fails |
| Everybody.RowRecord | everybody.py:88 | the stored row keeps item number, description, unit, other columns, key and rank |
| Everybody.RecordKeyLeTotal | everybody.py:95 | ordering by 項次數值, NaN last, is a total preorder |
| Everybody.ToLine | everybody.py:96-98 | item number, description and unit kept; exactly the non-bookkeeping columns kept, in order |
| Everybody.Export | everybody.py:94-99 | one exported line per selected record |
| Everybody.ExportSorted | everybody.py:94-99 | the export is the lines of a key-sorted permutation of the selected records |
| Everybody.ExportPermutation | everybody.py:94-99 | the export holds each record's line as often as the record is selected |

## Left out

- The Streamlit page is not modelled: titles, widgets, messages, previews
  of the raw sheet and the download button. Search terms, the sort checkbox,
  clicks and file names are parameters.
- Reading Excel files (sheet choice, skipped rows, cell types) and stripping
  column names are outside the model. A sheet arrives as rows of already
  mapped cells; cells are blank, text or integer.
- Float cells are not modelled. `str(1.0)` gives `"1.0"`, which matters for
  numeric item numbers read as floats.
- Writing the CSV with a byte-order mark is not modelled.
- `Planting_tools.py:80` uses `xls_plant`, which is never defined, so the
  plant section raises there as written. The model reads the plant sheet as
  `read_excel_safely` would.
- Strings.ParseNumber: accepts only optionally signed decimal numerals of
  ASCII digits. The exponent form, `inf`/`nan`, surrounding whitespace, `_`
  separators and non-ASCII decimal digits such as full-width `３`, which
  `float` and `pd.to_numeric` accept, count as failures.
- Strings.ParseNumber: 項次數值 is an exact rational, not a float64. Rounding
  is not modelled, so long digit runs that are equal as floats are strictly
  ordered in the model.
- Strings.ParseInt: surrounding whitespace, `_` separators and non-ASCII
  decimal digits such as full-width `３`, which `int` accepts, count as
  failures.
- Strings.FirstDigitRun: `\d` and `isdigit` are taken as the ASCII digits.
  Python also accepts other Unicode decimal digits.
- PlantingTools.LowerAscii: lowercases ASCII letters only. `str.lower()`
  also folds non-ASCII letters, which never affects `.xls`/`.xlsx`.
- Search.Matches: `str.contains(term)` is a regular-expression search in
  the scripts. The model reads the term literally, so terms holding regex
  metacharacters are not modelled. The plant filter escapes its terms, so
  it is literal in the source as well.
- Seqs.SortBy: pandas' default sort is not stable. The model's order among
  equal keys is one of the orders pandas may produce; only sortedness and
  permutation are claimed.
- `astype(int)` is taken as unbounded. int64 overflow is not modelled.
- Streamlit raises when a widget's state is written after the widget is
  created, and when two widgets share a key. Neither error is modelled.
  Such keys arise for two plants with the same group and variety, and for
  two everybody rows with the same item number and description but
  different units.
- Selection.ResetState: models the intended reset, not the script as
  written. The loop at `Planting_tools.py:190-192` writes the state of
  widgets already drawn in the same run: the uploader `plant_uploader`
  (`Planting_tools.py:29-31`) always, and the `item_` checkboxes drawn
  above the button (`Planting_tools.py:176`). Streamlit raises on such a
  write, so the reset as written stops at line 192. Line 187 has already
  emptied the selection by then. On the next rerun, boxes still ticked add
  their records back. Selection.Session.Reset and PlantingTools.WidgetKeys
  share this reading.
- Streamlit drops the states of widgets not drawn in a run. This cleanup is
  not modelled: checkbox states persist.
- In `Planting_tools.py` an item's key holds its list position. The model
  does not claim keys are stable across different queries.
- The export's DataFrame is a union of the records' columns with NaN fill.
  The model carries each record's own extra columns and assumes they do not
  repeat the mapped names.
- Column order in the export is not modelled. A line lists item number,
  description and unit first, then the record's other columns. The source
  keeps the sheet's column order, and in `Planting_tools.py:197` the columns
  follow the order of the first selected record's dictionary.
- `everybody.py` computes 項次數值 once, when the mapping is confirmed
  (`everybody.py:42`). The model computes it from the same item number during
  the search. The value is the same.
