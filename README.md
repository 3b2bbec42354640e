# Cloud Native Threat Matrix: extractor and matrix layout

This project models the two pieces of logic of the Cloud Native Threat Matrix site.

- **The spreadsheet extractor** (`scripts/parseXlsx.ts`) turns the rows of the matrix
  worksheet into the list of technique records the site shows. It works in four steps:
  - Every cell is normalised: an empty cell or a lone CR LF becomes null.
  - Rows left without a truthy cell are dropped.
  - The first surviving row is taken off as the header of categories.
  - The remaining rows are walked two at a time. For each truthy cell of the upper
    ("value") row, it emits a record. The record's category is the header above the cell
    and its value is the cell's text. Its id is the text of the cell below up to the first
    CR LF, and its description is the rest of that cell, joined with LF.
- **The matrix page** (`pages/index.tsx`) does the following:
  - It lists the distinct categories in first-seen order.
  - It partitions the records by category.
  - It lays the records out as a row-major grid, one column per category.
  - It writes into every shown record the type named by the second dot-separated segment
    of its id, looked up in a five-entry table.
  - It maps a type to its tags.
  - It toggles the selected tag when a tag button is clicked, and dims the cards that do
    not carry the selected tag.
  - It collapses runs of line feeds in a description and splits the description into
    paragraphs.

Modules:

- `Basics` (basics.dfy): `Option`, `Result` and `NoDuplicates`.
- `JsString` (js_string.dfy): the JavaScript `indexOf`, `split` and `join` on strings.
  Its central lemma is `JoinSplit`: joining the pieces of a split rebuilds the string.
- `Extractor` (extractor.dfy): the extractor.
  - `Extraction` is the specification: either the records the script writes, or the
    error it throws.
  - `Extract`, `ExtractRows` and `ExtractPair` are the script's loops, proved equal to
    `Extraction`.
- `Classify` (classify.dfy): the `types` table, `Number(id.split(".")[1])` and `typeToTags`.
- `Layout` (layout.dfy): `Home`'s layout. Records are objects of class `Row`, whose type
  field the matrix loop writes in place.
  - `IndexCategories`, `Partition`, `FillMatrix` and `Home` are the page's loops.
  - They are proved against the functions `Distinct`, `Lists`, `Longest` and `Matrix`.
- `TagFilter` (tag_filter.dfy): the selected-tag state (class `TagBar`) and the dim
  predicate.
- `Description` (description.dfy): the `\n+` collapse and the split into lines.

## Model

| member | source | states |
|---|---|---|
| Extractor.NormalizeRow | scripts/parseXlsx.ts:13 | the row keeps its length; a cell becomes null exactly when it was missing, empty or a lone CR LF, and is otherwise unchanged |
| Extractor.NormalizeRowIdempotent | scripts/parseXlsx.ts:13 | normalising an already normalised row changes nothing |
| Extractor.NormalizeRows | scripts/parseXlsx.ts:7-14 | the map succeeds exactly when every row is an array, giving each row normalised in place; otherwise the error names the first row that is not an array |
| Extractor.Prepare | scripts/parseXlsx.ts:7-17 | the preparation succeeds exactly when every row is an array; it never adds rows, and every row it keeps has a truthy cell |
| Extractor.PreparedNormalized | scripts/parseXlsx.ts:13-17 | every present cell of the prepared rows, header and data rows alike, is a non-empty string, so there a cell is truthy exactly when it is present |
| Extractor.KeepNonEmpty | scripts/parseXlsx.ts:15-17 | every kept row has a truthy cell, and no rows are added |
| Extractor.KeepNonEmptyAppend | scripts/parseXlsx.ts:15-17 | the filter distributes over concatenation, so kept rows stay in their original relative order |
| Extractor.KeepNonEmptyMembership | scripts/parseXlsx.ts:15-17 | a row is kept exactly when it was in the input and has a truthy cell |
| Extractor.NormalizedKeptIffPresentCell | scripts/parseXlsx.ts:13-17 | a normalised row survives the filter exactly when one of its cells is non-null |
| Extractor.MakeRecord | scripts/parseXlsx.ts:33-43 | builds the record from the header, the value cell and the cell below; it only computes, and MakeRecordFields and RecordRebuildsPairedCell state its fields |
| Extractor.MakeRecordFields | scripts/parseXlsx.ts:33-43 | the record's category is the header cell of its column (null past the header's end) and its value is the value cell; its id is the cell below up to its first CR LF and contains no CR LF; with no CR LF the id is the whole cell and the description is empty; otherwise the description is the remaining pieces joined with LF |
| Extractor.RecordRebuildsPairedCell | scripts/parseXlsx.ts:35-42 | the id and the description pieces, joined again with CR LF, rebuild the cell below exactly |
| Extractor.ValueSlots | scripts/parseXlsx.ts:23-31 | the cells visited from a position on are present cells of even data rows, at or after that position |
| Extractor.ValueSlotsComplete | scripts/parseXlsx.ts:23-31 | every present cell of an even data row is visited, whatever the cell below holds |
| Extractor.ValueSlotsOrdered | scripts/parseXlsx.ts:23-28 | cells are visited in strict reading order: row pair by row pair, column by column, none twice |
| Extractor.ValueSlotsCount | scripts/parseXlsx.ts:23-31 | one cell is visited per present cell of the even data rows |
| Extractor.RecordsAt | scripts/parseXlsx.ts:35-36 | any failure is a missing row below or a missing cell below |
| Extractor.RecordsAtSucceeds | scripts/parseXlsx.ts:23-44 | the records exist exactly when every visited value cell has a non-null cell below it; they are then one per visited cell, in order |
| Extractor.RecordsAtFails | scripts/parseXlsx.ts:35-36 | a failure is the error of the first visited value cell without a cell below, and every cell before it was paired |
| Extractor.Extraction | scripts/parseXlsx.ts:7-11 | the extraction fails with the not-an-array error exactly when some row is not an array |
| Extractor.Extract | scripts/parseXlsx.ts:7-45 | the script's result, including the case where the shift leaves no rows, is the specification `Extraction` |
| Extractor.ExtractRows | scripts/parseXlsx.ts:21-45 | on prepared (normalised) rows, the outer loop over row pairs yields the records of all visited value cells, or the first error |
| Extractor.ExtractPair | scripts/parseXlsx.ts:24-44 | on prepared (normalised) rows, one pass of the inner loop, which tests each cell's truthiness as the script does, appends exactly the records of its row pair, or stops at the first value cell without a cell below |
| Extractor.ExtractionCount | scripts/parseXlsx.ts:23-31 | the number of records equals the number of present cells in the even data rows below the header |
| Extractor.ExtractionRecords | scripts/parseXlsx.ts:23-43 | record k comes from the k-th present value cell in reading order, with the header above it and the cell below it |
| Extractor.ExtractionFails | scripts/parseXlsx.ts:23-36 | when every row is an array, extraction fails exactly when some present value cell has no non-null cell below it |
| Extractor.OddDataRowsFail | scripts/parseXlsx.ts:15-36 | an odd number of data rows always fails, because the last one is a value row with a present cell and no row below |
| JsString.IndexOf | scripts/parseXlsx.ts:35-36 | no result exactly when the separator does not occur; otherwise the result is its first occurrence |
| JsString.Join | scripts/parseXlsx.ts:42 | the first part starts the joined string; JoinSplit states that join undoes split |
| JsString.Split | scripts/parseXlsx.ts:35-36 | there is at least one piece, and no piece contains the separator |
| JsString.JoinSplit | scripts/parseXlsx.ts:35-42 | joining the pieces of a split with the same separator gives the string back |
| JsString.SplitAfterFirst | pages/index.tsx:91 | a one-character separator after a separator-free prefix splits off exactly that prefix |
| Classify.TypeOfCode | pages/index.tsx:21-27 | the table has an entry exactly for 0 to 4, and each entry sits at its own type's position |
| Classify.TypeOfCodeOfCode | pages/index.tsx:21-27 | every type is in the table |
| Classify.ParseNumber | pages/index.tsx:91 | a number exactly for digit strings, and 0 for the empty string |
| Classify.ParseDecimal | pages/index.tsx:91 | reading the decimal spelling of n gives n |
| Classify.TypeOfId | pages/index.tsx:91-92 | a type is found only for an id whose second dot-separated segment is a digit string, and the type's table position is that segment's value |
| Classify.TypeOfIdSuffixNames | pages/index.tsx:21-27 | the ids `<major>.0` to `<major>.4` get the types named "Cloud and containers", "Cloud", "Containers", "CI/CD" and "Cloud, containers and CI/CD" |
| Classify.TypeNameInjective | pages/index.tsx:6-11 | the five type names are distinct, so a name identifies its type |
| Classify.TagNameInjective | pages/index.tsx:35-50 | the three tag names are distinct, so a name identifies its tag |
| Classify.TypeOfIdWithoutDot | pages/index.tsx:91-92 | an id without a dot has no type |
| Classify.TypeOfIdSecondSegment | pages/index.tsx:91-92 | only the second dot-separated segment decides the type; what comes before it, and anything from a second dot on, is ignored |
| Classify.TypeOfIdWithCode | pages/index.tsx:91-92 | the id `<major>.<n>` gets the table entry n, which exists for n from 0 to 4 |
| Classify.TypeOfIdEmptyMinor | pages/index.tsx:91-92 | `<major>.` reads as number 0: "Cloud and containers" |
| Classify.TypeOfIdNonDigit | pages/index.tsx:91-92 | a second segment holding a non-digit gives no type |
| Classify.TypeToTags | pages/index.tsx:35-50 | the tags are duplicate-free and in the order Cloud, Containers, CI/CD; they are empty exactly for an undefined type |
| Classify.TypeToTagsCarried | pages/index.tsx:35-50 | a type's tags are exactly those its name lists |
| Classify.TypeToTagsInjective | pages/index.tsx:35-50 | no two types have the same tags |
| Layout.CategoriesOf | pages/index.tsx:68 | the category of each record, in record order |
| Layout.Distinct | pages/index.tsx:68 | the categories have no duplicates, and they are exactly the records' categories |
| Layout.FirstIndex | pages/index.tsx:68 | the position of the first occurrence |
| Layout.DistinctInFirstSeenOrder | pages/index.tsx:68 | the categories are listed in the order in which they first occur |
| Layout.IndexCategories | pages/index.tsx:69-72 | the index has one key per category, mapping it to a position holding that category, namely its last |
| Layout.CategoryList | pages/index.tsx:79-81 | a category's list holds only records of that category |
| Layout.CategoryListMembership | pages/index.tsx:79-81 | a record is in a category's list exactly when it is a record of that category |
| Layout.CategoryListAppend | pages/index.tsx:79-81 | the lists keep the records' original order: the list of a concatenation is the concatenation of the lists |
| Layout.Lists | pages/index.tsx:74-81 | there is one list per category; every record in category i's list is a record of category i, and every record of category i is in that list (the order within a list is stated by CategoryListAppend) |
| Layout.CategoryListsMembership | pages/index.tsx:74-81 | for every category at once: its list holds exactly the records of that category |
| Layout.Partition | pages/index.tsx:74-81 | the pushes build, for each category, the list of its records in record order |
| Layout.PartitionIsPermutation | pages/index.tsx:68-81 | together the lists hold every record exactly once |
| Layout.PartitionSizes | pages/index.tsx:68-81 | the list lengths sum to the number of records |
| Layout.Longest | pages/index.tsx:83 | the longest list length is at least every list's length and is attained, or 0 when there are no lists |
| Layout.Matrix | pages/index.tsx:85-96 | the first `height` grid rows one after another; it only computes, and MatrixLength, MatrixCell and MatrixShowsHeads state its shape and contents |
| Layout.MatrixShowsHeads | pages/index.tsx:85-96 | the first `height` grid rows show exactly the first `height` records of every list, with multiplicity |
| Layout.MatrixLength | pages/index.tsx:85-96 | the matrix has longestList times the number of categories cells |
| Layout.MatrixCell | pages/index.tsx:85-96 | cell j*n+i is category i's j-th record when it has one, and empty otherwise |
| Layout.MatrixShowsEveryRecordOnce | pages/index.tsx:68-96 | the matrix shows every record exactly once |
| Layout.FillMatrix | pages/index.tsx:85-96 | the loop pushes the matrix, writes into each record it passes the type its id names, and leaves every other record's type as it was |
| Layout.RecordIsVisited | pages/index.tsx:83-96 | the loop passes every record |
| Layout.Home | pages/index.tsx:67-96 | the page gets the distinct categories and the matrix of their lists, and every record ends up typed from its id |
| TagFilter.Toggled | pages/index.tsx:118-144 | the selection becomes null exactly when the clicked tag was selected, and otherwise becomes the clicked tag |
| TagFilter.ToggledTwice | pages/index.tsx:118-144 | two clicks on the same tag leave it selected if it was, and leave nothing selected otherwise |
| TagFilter.ToggledTwiceRestores | pages/index.tsx:118-144 | two clicks on a tag restore the previous selection exactly when it was nothing or that tag |
| TagFilter.TagBar.Click | pages/index.tsx:118-144 | the state after a click is the toggled selection |
| TagFilter.ClickTwiceFromStart | pages/index.tsx:118-144 | from the initial state, two clicks on a tag leave nothing selected and no card dimmed |
| TagFilter.NotCurrentTag | pages/index.tsx:167 | nothing is dimmed without a selection, and a dimmed card's tags do not include the selected tag; CardDimmed states both directions |
| TagFilter.CardDimmed | pages/index.tsx:165-167 | a card is dimmed exactly when a tag is selected and the card's type is undefined or does not carry it |
| TagFilter.NothingDimmedWithoutSelection | pages/index.tsx:167 | with no tag selected, no card is dimmed |
| TagFilter.UntypedCardDimmed | pages/index.tsx:165-167 | a card whose id names no type is dimmed under every selection |
| TagFilter.OnlyTheFullTypeIsNeverDimmed | pages/index.tsx:165-167 | only "Cloud, containers and CI/CD" is shown undimmed under every selection |
| Description.SkipNewlines | pages/index.tsx:200 | skipping a run leaves no leading line feed |
| Description.SkipNewlinesSplits | pages/index.tsx:200 | the string is the skipped run of line feeds followed by what is left |
| Description.CollapseNewlines | pages/index.tsx:200 | the collapse never lengthens the text; CollapseHasNoRun, CollapseKeepsRunFree and CollapseIdempotent state what it does |
| Description.CollapseHasNoRun | pages/index.tsx:200 | after the collapse no two line feeds are adjacent, and the first character is kept |
| Description.CollapseKeepsRunFree | pages/index.tsx:200 | a string without a run of line feeds is left unchanged |
| Description.CollapseIdempotent | pages/index.tsx:200 | collapsing twice is collapsing once |
| Description.Lines | pages/index.tsx:201 | there is at least one line, and no line holds a line feed |
| Description.DescriptionLines | pages/index.tsx:199-201 | there is at least one paragraph, and none holds a line feed |
| Description.KeepTail | pages/index.tsx:199-201 | the last line is kept, and every kept line before it is non-empty |
| Description.CollapseDropsBlankLines | pages/index.tsx:199-201 | the paragraphs are the lines of the raw text without the empty lines between them, with the first and last kept |
| Description.InteriorParagraphsNotEmpty | pages/index.tsx:199-201 | every paragraph but the first and the last is non-empty |
| Description.ParagraphsRejoin | pages/index.tsx:199-201 | joining the paragraphs with line feeds gives the collapsed text, so no text is lost |

## Left out

- Reading the workbook with `xlsx.parse` and writing `data.json` (scripts/parseXlsx.ts:4-6, 47) are file I/O through a foreign library. The input is a sequence of rows and the output a sequence of records.
- Cells are modelled as optional strings. Numbers, booleans and dates that a worksheet can hold are not modelled, nor is calling `.split` on such a cell.
- `null`, `undefined` and a hole in a sparse row are all one absent cell. A record's category is `None` past the header's end or under a null header cell. The serialiser's dropping of an `undefined` category is not modelled.
- Extractor.MakeRecord: the record's category is an optional string, while the page's `Row` (pages/index.tsx:13-19) types it as a string; the `Layout` model takes records with string categories.
- The error values name the row and column at which the script throws; the script's thrown exceptions carry no such data.
- Full JavaScript `Number()` semantics (whitespace, signs, hex, exponents, fractions) at pages/index.tsx:91 are left out. Only a string of decimal digits reads as a number, and the empty string reads as 0.
- `Math.max()` of an empty list is `-Infinity` (pages/index.tsx:83). `Layout.Longest` gives 0 there, which drives the matrix loop the same way: it runs no grid row.
- `categoryIds` is a plain JavaScript object (pages/index.tsx:69). Keys such as `__proto__` behave differently there; the model uses a map.
- `Layout.Home` and `Layout.FillMatrix` take the records as a parameter, not as the static import of `data.json` (pages/index.tsx:3).
- The React `useState` hooks (pages/index.tsx:98-99) become the field of `TagFilter.TagBar`. The selected-card dialog state (`selected`, `setSelected`) is UI and is not modelled.
- The rendering is not modelled: JSX, the Radix dialog, `RowType`, `tagToColor` and the grid styling (pages/index.tsx:29-33, 52-65, 101-117, 121-129, 133-141, 145-164, 168-198, 202-223).
- The URL-linkifying regex and the HTML output (pages/index.tsx:206-212) need a regex engine and HTML; only the `\n+` collapse and the split at 199-201 are modelled.
