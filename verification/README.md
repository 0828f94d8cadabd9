# Impact-factor annotation of a citation table, in Dafny

A model of the content script of a browser extension that annotates the
citation list of a scholar profile page with journal impact factors (JIF).
The script reads a bundled spreadsheet of journals once, keeps a map from
lower-cased journal name to JIF in the extension's local storage, and, for
every citation row of the page's table, extracts the journal name from the
row's metadata line, looks it up and inserts a cell with the value (or
"N/A") at column 3, next to an "Impact Factor" header cell. A mutation
observer repeats the pass when the page appends more citation rows.

Modules, one per component of `scripts/content.js`:

- `Text`: ASCII whitespace, digits, lower-casing and `trim`, with the facts
  about them the other modules need.
- `JournalName`: `extractJournalName`. The two regular expressions are
  modelled by what they match: `HasYearSuffix` for `/,\s*\d{4}$/`, and a
  lazy group tried at growing lengths (`LazyGroupEnd`) for
  `/^([^0-9]+?)\s*\d/`. The lemmas prove that the result is the trimmed text
  before the first digit, "" when there is none or the text starts with one.
- `FactorTable`: the fold of the spreadsheet rows into the lookup map
  (a method with a loop, proved against the function `FactorMapOf`), the
  keys and last-row-wins lemmas, and the lookup with its "N/A" sentinel.
- `Annotator`: the citation table as a class whose `rows` the annotation
  pass updates in place, proved against the function `Pass`; lemmas give
  the header and row insertions, the frame conditions and idempotence.
- `Watcher`: the predicate that decides which mutation records start a pass,
  and how many passes a batch starts.
- `Extension`: the extension object holding the stored map and the table:
  store read, spreadsheet read, store initialisation, the pass, start-up and
  the observer callback.

The fetched and decoded spreadsheet is a parameter of the initialisation
(`None` when the fetch or the decode fails); the local storage is the field
`stored`; the page's table is a `CitationTable` object or null.

Three behaviours of the code that the model keeps as they are:

- A failed fetch or decode makes `readImpactFactorFile` throw inside the
  `try` of `checkAndInitializeImpactFactors` (scripts/content.js:105-113), so
  the initial annotation pass is skipped, not run with an empty map. Rows
  only get "N/A" cells later, from passes the observer starts
  (`CheckAndInitializeImpactFactors`, `Annotator.PassWithEmptyTable`).
- After initialising an empty store, the store is non-empty only when the
  spreadsheet was read AND at least one row had a truthy "Name" and "JIF"
  (`FactorTable.FactorMapEmpty`); a kept row whose "Name" is a number makes
  `toLowerCase` throw, which fails the whole read (`BuildFactorMap`).
- The header cell goes before the fourth child of the header row, or at its
  end when it has fewer than four children (`insertBefore` with an undefined
  reference node appends).

## Model

| member | source | states |
|---|---|---|
| `Text.LowerIdempotent` | scripts/content.js:25 | a key lower-cased when stored is found again when lower-cased for lookup: lower-casing twice equals lower-casing once |
| `Text.TrimShape` | scripts/content.js:58 | `trim` returns a contiguous slice of its input with only whitespace removed before and after it, and the slice neither starts nor ends with whitespace |
| `Text.TrimAppendSpaces` | scripts/content.js:54-58 | trailing whitespace in the captured group never changes the trimmed name |
| `JournalName.StripYear` | scripts/content.js:50 | the text loses exactly the part from the comma of a `,\s*dddd` suffix ending the string, and is unchanged when there is no such suffix |
| `JournalName.YearSuffixUnique` | scripts/content.js:50 | the year-suffix pattern can match from one index only |
| `JournalName.LazyGroupEnd` | scripts/content.js:54 | the lazy group ends at a length from which `\s*\d` matches |
| `JournalName.MatchGroupBeforeFirstDigit` | scripts/content.js:54-56 | no match when the text has no digit or starts with one; otherwise the trimmed group equals the trimmed text before the first digit |
| `JournalName.ExtractIsTrimmedPrefix` | scripts/content.js:48-61 | the extracted name is `trim(t[..k])` for `t` the text without its year suffix and `k` its first digit, and "" when `t` has no digit or `k` is 0 |
| `JournalName.ExtractedNameShape` | scripts/content.js:54-58 | the extracted name holds no digit and has no leading or trailing whitespace |
| `JournalName.ExtractEmptyWithoutLeadingName` | scripts/content.js:50-60 | with no digit left after the year suffix, or a leading digit, the name is "" |
| `JournalName.ExampleNature` | scripts/content.js:53 | "Nature 489 (7414), 91-100, 2016" yields "Nature" |
| `JournalName.ExampleYearOnly` | scripts/content.js:50-60 | "Nature, 2016" yields "" |
| `FactorTable.BuildFactorMap` | scripts/content.js:21-27 | the loop succeeds exactly when every kept row has a text name and then returns `FactorMapOf(rows)`; otherwise it fails at a kept row with a numeric name |
| `FactorTable.FactorMapKeys` | scripts/content.js:22-26 | a key is in the map exactly when some row with truthy Name and JIF has that lower-cased name |
| `FactorTable.FactorMapLastWins` | scripts/content.js:25 | for duplicate names the JIF of the last kept row wins |
| `FactorTable.FactorMapEntries` | scripts/content.js:24-25 | every stored JIF is truthy (a JIF of 0 is skipped) and every key is a non-empty lower-case name |
| `FactorTable.FactorMapEmpty` | scripts/content.js:21-27 | the map is empty exactly when no row has a truthy Name and JIF |
| `FactorTable.LookupBuilt` | scripts/content.js:89-98 | looking a name up in the built map is case-insensitive: it finds a value exactly when a kept row's name matches up to case, and then the last such row's JIF |
| `FactorTable.LookupEmptyName` | scripts/content.js:89-98 | a row without a journal line looks up "" and shows "N/A" |
| `Annotator.CitationTable.UpdateWithFactors` | scripts/content.js:68-99 | the rows after the pass are `Pass(old rows, factors)` |
| `Annotator.PassHeader` | scripts/content.js:72-78 | after a pass row 1 has a marked header cell; when it had none it has exactly one, inserted at index 3 (or at the end of a shorter row), the other cells keeping their order and the row its journal line; when it had one, row 1 is unchanged; row 0 never changes |
| `Annotator.PassDataRow` | scripts/content.js:81-99 | a row from index 2 without a marked cell gets exactly one, at index 3, with the looked-up text, the other cells shifted right; a marked row is unchanged |
| `Annotator.PassAnnotatable` | scripts/content.js:81-99 | a pass leaves a table the next pass can run on |
| `Annotator.PassIdempotent` | scripts/content.js:72-99 | a second pass, with any lookup map, changes nothing |
| `Annotator.PassAfterNewRows` | scripts/content.js:81-84 | rows appended after a pass are each annotated by the next pass and the rows annotated before stay as they were |
| `Annotator.PassWithEmptyTable` | scripts/content.js:98 | with an empty lookup map every cell a pass adds shows "N/A" |
| `Watcher.HasNewRowsIff` | scripts/content.js:124-128 | `some` holds exactly when an added node is an element with class `gsc_a_tr` |
| `Watcher.TriggersIff` | scripts/content.js:122-130 | a record starts a pass exactly when it is a `childList` record that added such an element |
| `Watcher.TriggerCountAppend` | scripts/content.js:121 | records are counted one by one across a batch |
| `Watcher.TriggerCountBounds` | scripts/content.js:121-133 | a batch starts at most one pass per record, and none exactly when no record triggers |
| `Extension.ImpactFactorExtension.GetStoredImpactFactors` | scripts/content.js:39-45 | the stored map, or the empty map when nothing is stored |
| `Extension.ImpactFactorExtension.ReadImpactFactorFile` | scripts/content.js:6-36 | fails on an unreadable spreadsheet or a numeric name and then stores nothing; otherwise stores and returns the built map |
| `Extension.ImpactFactorExtension.UpdateTableWithImpactFactors` | scripts/content.js:64-101 | the table becomes `Pass` of its rows with the stored map; no table, no change |
| `Extension.ImpactFactorExtension.CheckAndInitializeImpactFactors` | scripts/content.js:104-114 | a non-empty store is never overwritten; an empty one is filled with the built map when the read succeeds; the pass then runs with the new store; a failed read skips the pass and changes nothing |
| `Extension.ImpactFactorExtension.InitializeExtension` | scripts/content.js:116-141 | initialisation as above, then the observer watches exactly when the table exists |
| `Extension.ImpactFactorExtension.OnMutations` | scripts/content.js:120-135 | a batch starts as many passes as it has triggering records; the table ends as after one pass if any did and unchanged otherwise |

## Left out

- Fetching the asset, `arrayBuffer`, `XLSX.read`, the choice of the first sheet and `sheet_to_json` (scripts/content.js:8-18): I/O and a foreign library; their outcome is the parameter `sheet`, `None` for any failure.
- The asynchronous storage API (scripts/content.js:30, 39-45): the store is the field `stored`; a failing `chrome.storage.local.set` is not modelled.
- DOM selectors, `createElement`, the `gsc_a_y` class and the `20px` widths: a row is its cells (tag, marker flag, text) and its optional journal line.
- `console.error` logging: failures are the `Failure`/`InitFailed` values.
- `FactorTable.CellValue`: JIF values are numbers or texts with JavaScript truthiness; NaN, booleans, dates and the rendering of a number as cell text are not modelled (a cell holds `Factor(v)`).
- `Text.IsSpace`: `\s` and `trim` are restricted to ASCII whitespace, and `Text.Lower` to ASCII letters; Unicode whitespace and case mapping are not modelled.
- JavaScript object semantics of the lookup map: `FactorTable.Lookup` reads a plain map, not a JavaScript object, so keys inherited from the object prototype ("constructor") and the special key "__proto__" are not modelled.
- `Annotator.CitationTable.UpdateWithFactors`: a table with fewer than two rows, or a row to annotate with fewer than three cells, makes the source throw; the model requires neither to happen (`Annotatable`).
- `Extension.ImpactFactorExtension.OnMutations`: the passes the callback starts are not awaited and each first awaits the storage read; the model runs them one after the other. As the store no longer changes and a pass is idempotent, the end state is the same; the interleaving itself is not modelled.
- Registration of the observer, `DOMContentLoaded` and the page's own mutations of the table: only the callback's decision and its passes are modelled; `InitializeExtension` records whether the observer is live.
