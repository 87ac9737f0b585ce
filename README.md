# mtg-divider in Dafny

This project models the logic of the mtg-divider scripts. Those scripts
build print orders and divider images for Magic: The Gathering collections.
The model covers six scripts:

- `create-mpcfill-csv.js` turns a collection CSV into print-service order
  CSVs. It normalises each card name and looks it up in the order
  manifests, newest first. It pairs each matched front with its back by
  slot. Then it sorts the rows by set code and collector number, and
  drains them into numbered files of at most 612 cards each.
- `update-mpc-fill-images.js` reconciles a target order manifest against a
  directory of source manifests. It copies the `id` and `name` of the first
  source card, newest file first, whose `query` equals the target card's.
  Fronts are matched only against fronts, and backs only against backs.
- `generate-cn-range-csv.js` builds collector-number ranges, cycles them
  over a number of cards, decodes background file names and writes a
  header that is the union of the record keys.
- `update-sets.js` parses its command line and filters the set list,
  either by the requested codes or by the default rules. It picks and
  decodes a background for each set, sorts the sets by one field, and
  builds the header union and the code-to-icon map.
- `generate-images-from-csv.jsx` is the range-image Illustrator script. The
  model covers its quote-aware CSV line parser, the CSV reader, trimming,
  URL file names and dates. It also covers `padStart`/`repeat`, the title
  abbreviation, the subtitle and artist lines, and the export loop.
- `generate-images.jsx` is the set-image Illustrator script. The model
  covers its comma-split CSV reader, the subtitle and artist lines, the
  export slug and the five-row export loop.

## Modules

| module | what it holds |
|---|---|
| `Wrappers` | `Option` |
| `Seqs` | Generic sequence helpers: first-seen de-duplication, filter, map, map with index, and "values up to the first failure" (`Run`) |
| `Strings` | The string operations the scripts use: ASCII case mapping, `indexOf`, `split`/`join`, trimming, `parseInt`, decimals |
| `Sorting` | A stable insertion sort standing in for `Array.prototype.sort`, with its ordering, permutation and stability lemmas |
| `Records` | JavaScript objects as ordered key/value lists (the `Object.keys` order of non-numeric keys), and the `Set`-based header union |
| `Manifests` | Parsed XML order manifests (cards `{query, name, id, slot}`) and the newest-first file order |
| `OrderRows` | `normalizeName`, the front/back manifest scan of `processRow`, and the row enrichment |
| `RowOrdering` | The row sort comparator of `processFiles` |
| `Batching` | The 612-card drain loop and the batch file names |
| `Pipeline` | `processFiles` end to end |
| `Reconcile` | `updateCards` and `updateTargetXML` |
| `Backgrounds` | The `Name (Artist) [SET] {CN}.jpg` file-name pattern and the fields it sets |
| `CnRanges` | `generate-cn-range-csv.js` |
| `UpdateSets` | `update-sets.js` |
| `ScriptText` | Helpers shared by the two Illustrator scripts: `parseCSV` over a line parser, `getFileNameFromURL`, `formatDate`, the artist line |
| `RangeImages` | `generate-images-from-csv.jsx` |
| `SetImages` | `generate-images.jsx` |

Operations that work step by step are methods. This covers the batching
loop, the per-row manifest scan, the section update over an array of
cards, the range loops, the argument loop, the CSV loops, `repeat`,
`setTitle` and the export loops. Each method is proved against a function
of its inputs, and the lemmas state the properties of that function.

Inputs become parameters:
- the directory listings (already ordered by modification time, or sorted
  here by `mtime`);
- the parsed XML and CSV;
- the command line;
- the random picks.

Outputs are returned as values, for example the list of CSV files with
their batches.

### Details taken from the code

- **The manifest scan** (`src/create-mpcfill-csv.js:163-193`). The scan does
  not stop at the first matching front. Each later matching front in the
  same manifest overwrites `Front`/`FrontID` again. Only a match that
  finds a paired back ends the scan, through the `break` at line 190.
- **The manifest side is not split on `" // "`**
  (`src/create-mpcfill-csv.js:164-169`). Only the row name is cut at the
  first face. A manifest `query` that holds `" // "` can therefore never
  equal a normalised row name. Such a card matches only through name
  containment.
- **The two artist lines differ.** `src/generate-images.jsx:74-81` joins artist
  and collector number with `" | "`, while
  `src/generate-images-from-csv.jsx:101-105` uses `" - CN "`. The
  range-image script's subtitle also carries the parent set code
  (`" [PARENT] - "`, lines 140-147).
- **`setTitle` cuts a long title to 29 characters and appends `"..."`**
  (`src/generate-images-from-csv.jsx:173-174`). A shortened title is therefore
  32 characters long, not 30.

## Model

| member | source | states |
|---|---|---|
| OrderRows.NormalizeName | src/create-mpcfill-csv.js:30-32 | The result is no longer than the name and contains none of `’`, `'` or `` ` `` |
| OrderRows.NormalizeNameFirstFace | src/create-mpcfill-csv.js:30-32 | The normalised name is the lower-cased, apostrophe-folded text before the first `" // "`, and it never contains `" // "` |
| OrderRows.NormalizeNameIdempotent | src/create-mpcfill-csv.js:30-32 | Normalising a normalised name changes nothing |
| OrderRows.NormalizeNameExample | src/create-mpcfill-csv.js:30-32 | `"Bruna's // Gisela's"` normalises to `"bruna_s"` |
| OrderRows.FoldApostrophes | src/create-mpcfill-csv.js:31 | Each of the three apostrophes becomes `_`; every other character is kept, position for position |
| OrderRows.ManifestForm | src/create-mpcfill-csv.js:164-169 | The manifest side keeps its length (no face split) and contains no apostrophes |
| OrderRows.NormalizedSeparator | src/create-mpcfill-csv.js:31 | Folding and lower-casing create no `" // "` that was not already there |
| OrderRows.EmptyNameMatchesEveryCard | src/create-mpcfill-csv.js:170-173 | An empty normalised row name matches every front, through containment |
| OrderRows.ContainmentIsDirectional | src/create-mpcfill-csv.js:170-173 | A card named `Bolt` does not match the row `Lightning Bolt`: the card name must contain the row name, not the other way round |
| OrderRows.ManifestSideKeepsBothFaces | src/create-mpcfill-csv.js:164-172 | A `Fire // Ice` front fails the query-equality rule, because its query is not split, but it still matches by containment |
| OrderRows.FindBySlot | src/create-mpcfill-csv.js:184-186 | `find` returns the first back with the slot, and `None` exactly when no back has it |
| OrderRows.PairedBack | src/create-mpcfill-csv.js:179-191 | A back is paired only from a present backs section, and only a back with the front's slot |
| OrderRows.ScanFronts | src/create-mpcfill-csv.js:163-194 | A hit's front is a matching card of the manifest, and its back is the paired back of that front's slot |
| OrderRows.ScanFrontsFound | src/create-mpcfill-csv.js:163-194 | The scan of one manifest finds a front exactly when some front matches |
| OrderRows.ScanFrontsPaired | src/create-mpcfill-csv.js:174-191 | The first matching front that has a paired back ends the scan, with that front and that back |
| OrderRows.ScanFrontsUnpaired | src/create-mpcfill-csv.js:170-176 | When no matching front has a paired back, the last matching front wins and no back is set |
| OrderRows.LookupFirstManifest | src/create-mpcfill-csv.js:155-199 | The result is the scan of the first manifest that has a matching front; older manifests are not consulted |
| OrderRows.LookupNoMatch | src/create-mpcfill-csv.js:152-204 | When no manifest has a matching front, nothing is found |
| OrderRows.Enrich | src/create-mpcfill-csv.js:174-189 | Name, set code, collector number and quantity are kept. Front and FrontID come from the hit. Back and BackID come from a paired back, and are otherwise left as they were. With no hit the row is unchanged |
| OrderRows.ScannedMatch | src/create-mpcfill-csv.js:170-176 | An unpaired match moves the "last match so far" to the current front |
| OrderRows.ScannedMiss | src/create-mpcfill-csv.js:170-173 | A non-matching front leaves the scan state alone |
| OrderRows.MatchManifest | src/create-mpcfill-csv.js:157-195 | The nested loop with its `break` reports `frontFound` exactly when the manifest has a hit, and writes exactly the hit's fields into the row |
| OrderRows.ProcessRow | src/create-mpcfill-csv.js:152-204 | Walking the manifests and stopping after the first one with a matching front gives the row enriched with the first manifest's hit, or the row unchanged |
| Manifests.NewerThanIsWeakOrder | src/create-mpcfill-csv.js:65-69 | Comparing by descending `mtime` is a strict weak order |
| Manifests.ByRecencyOrdered | src/update-mpc-fill-images.js:44-53 | The sorted listing is a permutation of the files, newest first |
| Manifests.ByRecencyStable | src/update-mpc-fill-images.js:53 | Files with the same `mtime` keep their listing order |
| Manifests.EquivalentFilesShareTime | src/update-mpc-fill-images.js:53 | Two files tie under the comparator exactly when their `mtime`s are equal |
| RowOrdering.CollectorKey | src/create-mpcfill-csv.js:90-93 | The key is `MAX_SAFE_INTEGER`, or a number the collector number parses to |
| RowOrdering.RowTie | src/create-mpcfill-csv.js:86-100 | Two rows tie exactly when their set codes and collector keys are equal |
| RowOrdering.RowBeforeIsWeakOrder | src/create-mpcfill-csv.js:86-100 | The comparator is a strict weak order |
| RowOrdering.SortRowsOrdered | src/create-mpcfill-csv.js:86-100 | The sorted rows are a permutation of the rows, ordered by set code and then by collector key within one set code |
| RowOrdering.SortRowsStable | src/create-mpcfill-csv.js:86 | Rows that tie keep their original order |
| RowOrdering.SortRowsExample | src/create-mpcfill-csv.js:87-99 | An unparsable collector number sorts after the numbered cards of its set and before the next set code |
| RowOrdering.ExampleKeys | src/create-mpcfill-csv.js:90-93 | `"x"` gets `MAX_SAFE_INTEGER`, and `"3"` gets 3 |
| Batching.Quantity | src/create-mpcfill-csv.js:115-116 | A row contributes its parsed quantity when that is positive, and nothing for a missing, NaN, zero or negative quantity |
| Batching.Flush | src/create-mpcfill-csv.js:123-135 | Flushing writes one more batch, numbered by its position, holding the current items and the fitting part |
| Batching.PlaceRow | src/create-mpcfill-csv.js:116-142 | Placing a row keeps the open batch's total within capacity |
| Batching.PlaceRows | src/create-mpcfill-csv.js:114-143 | Placing all rows keeps the open batch's total within capacity |
| Batching.DrainIntoBatches | src/create-mpcfill-csv.js:109-148 | The nested `for`/`while` loop produces exactly the batches of the specification function `Batches` |
| Batching.TotalAppend | src/create-mpcfill-csv.js:124 | Adding an item adds its quantity to the batch total |
| Batching.TotalPositive | src/create-mpcfill-csv.js:138-139 | Items of positive quantity give a positive total |
| Batching.FlushGood | src/create-mpcfill-csv.js:118-135 | A flush at exact capacity keeps the invariant: full, consecutively numbered batches |
| Batching.PushGood | src/create-mpcfill-csv.js:136-141 | Adding a part that fits keeps the invariant |
| Batching.PlaceRowGood | src/create-mpcfill-csv.js:116-142 | Placing one row keeps the invariant and only appends batches |
| Batching.PlaceRowsGood | src/create-mpcfill-csv.js:114-143 | Placing every row keeps the invariant and only appends batches |
| Batching.BatchesShape | src/create-mpcfill-csv.js:109-148 | Batches are numbered 0, 1, 2, … without gaps and none is empty. Every batch but the last totals exactly 612. The last holds a positive total of at most 612, made of positive items |
| Batching.FinishOpen | src/create-mpcfill-csv.js:146-148 | A non-empty open batch is written last with the next number |
| Batching.FinishClosed | src/create-mpcfill-csv.js:146-148 | An empty open batch is not written |
| Batching.RepeatAdd | src/create-mpcfill-csv.js:123-138 | Splitting a quantity into parts does not change the cards it stands for |
| Batching.ExpandAppend | src/create-mpcfill-csv.js:123-138 | The cards of a batch grow by the cards of each item added |
| Batching.ExpandBatchesAppend | src/create-mpcfill-csv.js:127 | The cards written grow by the cards of each batch written |
| Batching.FlushHeld | src/create-mpcfill-csv.js:118-135 | A flush neither loses nor invents cards |
| Batching.PushHeld | src/create-mpcfill-csv.js:136-141 | Adding an item neither loses nor invents cards |
| Batching.PlaceRowHeld | src/create-mpcfill-csv.js:116-142 | Placing a row adds exactly `quantity` copies of that row, with every field but `Quantity` copied |
| Batching.PlaceRowsHeld | src/create-mpcfill-csv.js:114-143 | Placing the rows adds the cards of every row, in row order |
| Batching.BatchesKeepCards | src/create-mpcfill-csv.js:109-148 | The cards in the batches, in order, are exactly each row repeated by its quantity |
| Batching.ExpandLength | src/create-mpcfill-csv.js:123-138 | A batch holds as many cards as its total |
| Batching.ExpandBatchesLength | src/create-mpcfill-csv.js:109-148 | The cards written number the sum of the batch totals |
| Batching.ExpandRowsLength | src/create-mpcfill-csv.js:114-115 | The rows stand for the sum of their positive quantities |
| Batching.BatchesCount | src/create-mpcfill-csv.js:109-148 | The quantities in all batches sum to the sum of the rows' positive quantities |
| Batching.ZeroLineExample | src/create-mpcfill-csv.js:118-135 | When a row fills a batch exactly and another row follows, a zero-quantity line for the next row closes that batch |
| Batching.ClosingStep | src/create-mpcfill-csv.js:118-135 | The closing step of that example, taken once |
| Batching.Repeat | src/create-mpcfill-csv.js:123-138 | `quantity` copies of the row |
| Batching.StripCsv | src/create-mpcfill-csv.js:41 | `replace(/\.csv$/, "")` removes exactly one trailing `.csv` and otherwise leaves the path alone |
| Batching.BatchFileName | src/create-mpcfill-csv.js:41 | Every batch file name ends in `.csv` |
| Batching.BatchFileNamesDistinct | src/create-mpcfill-csv.js:41 | Different batch numbers give different file names |
| Batching.MiddleDiffers | src/create-mpcfill-csv.js:41 | Names that differ only in the number differ |
| Pipeline.RecentManifests | src/create-mpcfill-csv.js:65-69 | One parsed manifest per file, in the newest-first order |
| Pipeline.MatchAll | src/create-mpcfill-csv.js:102-107 | Matching keeps the number of rows |
| Pipeline.ProcessRows | src/create-mpcfill-csv.js:102-107 | The per-row loop matches every row independently, in order |
| Pipeline.WriteBatches | src/create-mpcfill-csv.js:40-58 | One CSV file per batch, named by the batch's number, holding that batch |
| Pipeline.ProcessFiles | src/create-mpcfill-csv.js:60-150 | Sorting the files, sorting the rows, matching them and draining them equals `Outputs` |
| Pipeline.MatchAllKeepsQuantity | src/create-mpcfill-csv.js:152-204 | Matching never changes any quantity, so the quantities sum to the same total |
| Pipeline.OutputsKeepCount | src/create-mpcfill-csv.js:60-150 | The files written together hold every positive quantity of the input rows |
| Pipeline.OutputsShape | src/create-mpcfill-csv.js:109-148 | Every file but the last holds exactly 612 cards, and the last holds between 1 and 612. No two files share a path |
| Reconcile.FindByQuery | src/update-mpc-fill-images.js:73-86 | The first card with exactly that query, or `None` exactly when there is none |
| Reconcile.FirstSourceNone | src/update-mpc-fill-images.js:60-89 | Nothing is found exactly when no source card of that section, in any file, has the query |
| Reconcile.FirstSourceAt | src/update-mpc-fill-images.js:62-89 | The first file (newest first) that has the query decides, and later files are not consulted |
| Reconcile.FirstSourceQuery | src/update-mpc-fill-images.js:74 | The source found has the target's query, compared with no normalisation |
| Reconcile.FirstSourceStep | src/update-mpc-fill-images.js:62-89 | One step of the file loop: this file's first match, otherwise the rest |
| Reconcile.FindByQueryAt | src/update-mpc-fill-images.js:73-86 | The first card with the query is the one found |
| Reconcile.UpdatedFields | src/update-mpc-fill-images.js:82-83 | `query` and `slot` are never written. An unmatched card is unchanged. A matched card takes the source's `id` and `name` |
| Reconcile.UpdateCard | src/update-mpc-fill-images.js:61-89 | The loops over files and source cards, with their `found` flag and `break`s, rewrite card k to `Updated` (the first newest-file match) and leave every other card alone |
| Reconcile.UpdateCards | src/update-mpc-fill-images.js:56-97 | Every card of the section array is rewritten in place to `Updated` |
| Reconcile.UpdatedSection | src/update-mpc-fill-images.js:57-96 | A missing section stays missing, and a present one keeps its number of cards |
| Reconcile.UpdateSection | src/update-mpc-fill-images.js:57-96 | The section update on a copy of the card list equals `UpdatedSection` |
| Reconcile.UpdateTargetXml | src/update-mpc-fill-images.js:39-110 | Sources are sorted newest first, then fronts and backs are updated. A target without an `order` root gives no result, since the rejected promise writes nothing. The output path defaults to `updated.xml` |
| Reconcile.UpdatedOrderShape | src/update-mpc-fill-images.js:56-101 | Sections stay present or absent. The number and order of cards are kept, and so are `query` and `slot` |
| Reconcile.UpdateIdempotent | src/update-mpc-fill-images.js:74-83 | Updating twice with the same sources equals updating once |
| Reconcile.FirstSourceReadsSection | src/update-mpc-fill-images.js:65-71 | A lookup reads only the source files' cards of that one section |
| Reconcile.SectionsStaySeparate | src/update-mpc-fill-images.js:100-101 | Target fronts depend only on source fronts, and target backs only on source backs |
| Reconcile.NewestFileWins | src/update-mpc-fill-images.js:53-87 | When two source files both hold the query, the newer one supplies the `id` and `name` |
| CnRanges.Setting | src/generate-cn-range-csv.js:20-23 | `parseInt` of the value under the key, or the fallback: an absent key gives the fallback; otherwise the result is the fallback or the non-zero number the value parses to |
| CnRanges.CommanderOptions | src/generate-cn-range-csv.js:6-18 | `program.opts()` holds the camel-cased keys `cardCount`, `step`, `maxCn` and `initialCn`, each with the flag text or the declared default |
| CnRanges.FlagSetting | src/generate-cn-range-csv.js:7-23 | A flag read under its own key is its fallback, or the non-zero number its text (or default text) parses to |
| CnRanges.ReadSettings | src/generate-cn-range-csv.js:20-23 | As written: with no `card-count`, `max-cn` or `initial-cn` key, those settings are 440, 450 and 51 |
| CnRanges.IntendedSettings | src/generate-cn-range-csv.js:20-23 | Corrected: with no `cardCount`, `maxCn` or `initialCn` key, those settings are 440, 450 and 51 |
| CnRanges.OnlyStepIsRead | src/generate-cn-range-csv.js:18-23 | As written, whatever the command line, card count, maximum and initial collector number are 440, 450 and 51, and only `--step` takes effect |
| CnRanges.IntendedSettingsUseFlags | src/generate-cn-range-csv.js:6-23 | Read under commander's keys, each of the four flags gives its own setting |
| CnRanges.CardCountFlagIgnored | src/generate-cn-range-csv.js:20 | `--card-count 100` gives 440 cards as written, and 100 as corrected |
| CnRanges.NegativeStepRead | src/generate-cn-range-csv.js:21 | `--step -5` reaches the script as the step -5 |
| CnRanges.DefaultSettings | src/generate-cn-range-csv.js:7-23 | With no flags both readings give 440, 50, 450 and 51, and with every flag `0` the corrected reading does too |
| CnRanges.DefaultSetting | src/generate-cn-range-csv.js:20-23 | A missing flag or `0` gives the value of the default text |
| CnRanges.Ranges | src/generate-cn-range-csv.js:25-31 | One range per start not above `maxCn` |
| CnRanges.CountAt | src/generate-cn-range-csv.js:27 | The n-th start lies within `maxCn` exactly when n is below the number of ranges |
| CnRanges.NonPositiveStepNeverStops | src/generate-cn-range-csv.js:27 | With a step of at most 0 and `initialCn <= maxCn`, the counter is within `maxCn` after every number of rounds, so the loop never ends |
| CnRanges.GenerateCnRanges | src/generate-cn-range-csv.js:25-31 | The stepping loop returns `Ranges` |
| CnRanges.RangesShape | src/generate-cn-range-csv.js:25-31 | There are ranges exactly when `initialCn <= maxCn`, and the first starts at `initialCn`. Each has `max = min + step - 1` and `min <= maxCn`. Consecutive ranges are contiguous. One more step would pass `maxCn` |
| CnRanges.DefaultRanges | src/generate-cn-range-csv.js:20-33 | With the defaults there are 8 ranges, 51-100 through 401-450, so the 440 cards use each range 55 times |
| CnRanges.RangeTitleRoundTrip | src/generate-cn-range-csv.js:47-49 | A range's `min - max` title parses back to the range |
| CnRanges.FirstDefaultTitle | src/generate-cn-range-csv.js:47-49 | The first default title is `51 - 100` |
| CnRanges.LastDefaultTitle | src/generate-cn-range-csv.js:47-49 | The last default title is `401 - 450` |
| CnRanges.GetCnRanges | src/generate-cn-range-csv.js:35-45 | The loop produces `cardCount` records (none for a count of at most 0), and record k is titled with range `k mod n` |
| CnRanges.CyclesSnoc | src/generate-cn-range-csv.js:39-42 | Pushing the next title keeps the cycling invariant |
| CnRanges.ModNext | src/generate-cn-range-csv.js:41 | Advancing the index modulo the count is the next position modulo the count |
| CnRanges.WithBackgrounds | src/generate-cn-range-csv.js:51-70 | An empty listing gives no result exactly when there are records, since `file.match` throws on `undefined`. Otherwise there is one record out per record in |
| CnRanges.BackgroundsDrawn | src/generate-cn-range-csv.js:55-68 | From a non-empty listing, each record gets the file drawn for it as `background` and keeps its keys |
| CnRanges.SheetHeader | src/generate-cn-range-csv.js:72-96 | From a non-empty listing, the header of the written sheet starts with `title` and contains `background` |
| Backgrounds.ScanSound | src/update-sets.js:68 | A successful match, read lazily, splits the name at the four delimiters, with no line break in a group |
| Backgrounds.RestSound | src/update-sets.js:68 | Each later group starts right after its delimiter |
| Backgrounds.ScanLeast | src/update-sets.js:68 | If any split exists, the lazy match succeeds, and its group lengths are lexicographically least among all splits: the shortest card name, then the shortest artist, then the shortest set code |
| Backgrounds.RestLeast | src/update-sets.js:68 | The same for each later group |
| Backgrounds.WeaveFront | src/update-sets.js:68 | A spelled-out name begins with its first group and delimiter |
| Backgrounds.WeaveGroups | src/update-sets.js:68 | A name spelled out from its four fields is `Name (Artist) [SET] {CN}.jpg` |
| Backgrounds.MatchBackgroundSound | src/update-sets.js:68 | A match spells out exactly the file name, with no group holding a line break |
| Backgrounds.MatchBackgroundLeast | src/update-sets.js:68 | Every file name of the pattern matches, and the group lengths are lexicographically least: the shortest card name, then the shortest artist, then the shortest set code |
| Backgrounds.MatchBackgroundPlain | src/update-sets.js:68 | Fields that do not hold their delimiter are read back exactly from the file name they spell |
| Backgrounds.EarlierDelimiter | src/update-sets.js:68 | An earlier delimiter shows in the group or straddles its end |
| Backgrounds.SameHead | src/update-sets.js:68 | A delimiter found first after the group fixes the group and the rest |
| Backgrounds.SpelledFront | src/update-sets.js:68 | The file name is the card name, `" ("` and the rest |
| Backgrounds.WithNameFields | src/update-sets.js:69-73 | The three matched fields are stored, other keys are untouched, and no key is lost |
| Backgrounds.AppendBackgroundKeys | src/update-sets.js:68-75 | No key is lost and `background` is present |
| Backgrounds.AppendBackgroundFields | src/update-sets.js:68-75 | `background` is always the file. On a match, `card_name`, `artist` and `collector_number` are the groups 1, 2 and 4. Without a match nothing else changes, and other keys never change |
| UpdateSets.ParsedArgs | src/update-sets.js:8-13 | No arguments give the defaults `[]`, `code`, `asc` and `false` |
| UpdateSets.ProcessArgs | src/update-sets.js:6-38 | The index loop with its skip equals `ArgsFrom` from index 2, that is `ParsedArgs` |
| UpdateSets.FlagsStartWithDashes | src/update-sets.js:16-32 | The three flags count as `--` arguments, so they are never set codes |
| UpdateSets.RandomArtFlag | src/update-sets.js:30-31 | `randomArt` is set exactly when `--random-art` occurs |
| UpdateSets.RandomArtFrom | src/update-sets.js:15-35 | The same from any index of the loop on |
| UpdateSets.PlainArguments | src/update-sets.js:15-35 | Without sort flags, the codes are the arguments not starting with `--`, in order, and the sort settings keep their defaults |
| UpdateSets.PlainFrom | src/update-sets.js:15-35 | The same from any index of the loop on |
| UpdateSets.CodesAreArguments | src/update-sets.js:32-33 | Every set code is an argument that does not start with `--` |
| UpdateSets.CodesFrom | src/update-sets.js:32-33 | The same from any index of the loop on |
| UpdateSets.SortSettings | src/update-sets.js:16-29 | `sortBy` and `sortDir` are their defaults, or a consumable argument right after their flag |
| UpdateSets.SortFrom | src/update-sets.js:16-29 | The same from any index of the loop on |
| UpdateSets.NumberOf | src/update-sets.js:206 | Only numbers and booleans convert to a number here |
| UpdateSets.JsLessStrict | src/update-sets.js:45 | `<` on the values compared is irreflexive and transitive |
| UpdateSets.BeforeIsStrict | src/update-sets.js:41-49 | The comparator is a strict order for either direction |
| UpdateSets.SortedDataOrder | src/update-sets.js:40-50 | The result is a permutation, ascending by the field exactly when the order is `asc` and descending for any other value |
| UpdateSets.SortData | src/update-sets.js:40-50 | The array is sorted in place and the same array is returned |
| UpdateSets.Requested | src/update-sets.js:188-190 | The lower-cased requests, each once |
| UpdateSets.SomeHasCode | src/update-sets.js:193 | With text codes, `some` is exactly "a set has this lower-cased code" |
| UpdateSets.UnknownSets | src/update-sets.js:191-195 | With text codes there is a result, and it is no longer than the requests |
| UpdateSets.UnknownSetsExactly | src/update-sets.js:191-195 | The unknown codes are exactly the requested codes no set has |
| UpdateSets.RequestedSets | src/update-sets.js:187-201 | With requests, the result is exactly the sets whose lower-cased code was requested. A set without a text code makes the call fail, and the result is `[]` |
| UpdateSets.DefaultSets | src/update-sets.js:161-210 | Without requests, a set is kept exactly when its code is not ignored, `card_count >= 50`, its type is allowed, it is not digital, and it is not both non-foil-only and foil-only |
| UpdateSets.FailedRequest | src/update-sets.js:212-215 | A failed request gives no sets |
| UpdateSets.MapKeys | src/update-sets.js:151-153 | The keys of the map, in insertion order |
| UpdateSets.MapGet | src/update-sets.js:151-153 | A key has a value exactly when it is in the map |
| UpdateSets.MapSet | src/update-sets.js:151-153 | Setting an existing key keeps the keys, and a new key goes last |
| UpdateSets.MapSetGet | src/update-sets.js:151-153 | Setting stores the value and leaves every other key alone |
| UpdateSets.MapSetExisting | src/update-sets.js:151-153 | The same for a key already present |
| UpdateSets.MapSetNew | src/update-sets.js:151-153 | The same for a new key |
| UpdateSets.MapSetNewOther | src/update-sets.js:151-153 | A new key leaves the values of the old keys alone |
| UpdateSets.Codes | src/update-sets.js:152 | The code of each set, in order |
| UpdateSets.CodeToIconMapKeys | src/update-sets.js:150-155 | The map has one entry per distinct code, in first-seen order |
| UpdateSets.CodeToIconMapLastWins | src/update-sets.js:150-155 | A code's icon is the one of its last occurrence |
| UpdateSets.FindFile | src/update-sets.js:62-64 | The first file containing `[CODE]`, or none exactly when no file does |
| UpdateSets.ChooseBackground | src/update-sets.js:57-66 | No file exactly when the listing is empty or, without random art, the code is not a string; otherwise the background chosen is one of the files |
| UpdateSets.ChooseBackgroundTagged | src/update-sets.js:61-66 | Without random art and with a text code, a file is chosen: the first one tagged with the upper-cased code, or the random pick when none is |
| UpdateSets.PickBackground | src/update-sets.js:57-66 | The branching code equals `ChooseBackground`, including its two throwing cases |
| UpdateSets.WithBackground | src/update-sets.js:56-76 | One set's body gives no record exactly when the listing is empty or, without random art, the code is not a string |
| UpdateSets.ThrowsAt | src/update-sets.js:56-76 | `Throws` holds exactly when the body throws for some set |
| UpdateSets.ReadBackgroundsAndAppendData | src/update-sets.js:52-77 | The loop stops at the first set whose body throws. Every set before it gets `WithBackground` in place, and it and every later set are unchanged |
| UpdateSets.WithBackgrounds | src/update-sets.js:56-76 | No result exactly when `Throws`; otherwise one set out per set in |
| UpdateSets.SheetShape | src/update-sets.js:219-226 | There is a sheet exactly when no set throws. It keeps the number of sets, and every set carries a background that is one of the files |
| UpdateSets.Run | src/update-sets.js:219-228 | The main block succeeds exactly when `Sheet` exists. Then the array is `Sheet`, the header is its `Header` and the icons are its `CodeToIconMap` |
| Records.Keys | src/update-sets.js:88 | `Object.keys`, in field order, which is JavaScript's order for the non-numeric keys the scripts use |
| Records.Get | src/update-sets.js:42-43 | A missing key reads as `undefined`, and a present key reads as its value |
| Records.Put | src/update-sets.js:69-75 | Assigning to an existing key keeps the key order, and a new key goes last |
| Records.PutGet | src/update-sets.js:69-75 | Assignment stores the value, leaves the other keys alone and keeps the keys distinct |
| Records.PutText | src/generate-images-from-csv.jsx:30-33 | Storing text keeps every value text |
| Records.GetText | src/generate-images-from-csv.jsx:30-33 | A key of a parsed row reads as text or `undefined` |
| Records.Header | src/update-sets.js:79-96 | No header for empty data. Otherwise the header has no duplicates and holds exactly the keys of the records |
| Records.AddKeys | src/update-sets.js:88-90 | Adding one record's keys to the `Set` gives the first-seen union so far |
| Records.HeaderUnion | src/update-sets.js:80-91 | The nested `forEach` loops build exactly that header |
| Seqs.DedupFirstSeen | src/generate-cn-range-csv.js:78-89 | The union has no duplicates and lists the keys in the order they were first seen |
| ScriptText.RecordOf | src/generate-images-from-csv.jsx:30-33 | The object built from a row has distinct keys and only text values |
| ScriptText.RecordOfKeys | src/generate-images-from-csv.jsx:31-33 | Its keys are the headers, each once, in first-seen order |
| ScriptText.RecordOfGet | src/generate-images-from-csv.jsx:31-33 | A key reads as the cell under the last header of that name |
| ScriptText.CsvRows | src/generate-images-from-csv.jsx:27-36 | No more records than lines |
| ScriptText.ParseCsv | src/generate-images-from-csv.jsx:23-38 | The loop over lines equals `ParsedCsv` with the given line parser |
| ScriptText.CsvRowsFrom | src/generate-images-from-csv.jsx:27-36 | The records are exactly the lines whose cell count equals the header count, each mapped header to cell |
| ScriptText.ParsedRecords | src/generate-images.jsx:23-39 | Every parsed record has distinct keys and text values |
| ScriptText.FileNameFromUrl | src/generate-images-from-csv.jsx:67-71 | The file name holds no `/` and no `?` |
| ScriptText.FileNameIsLastSegment | src/generate-images-from-csv.jsx:67-71 | The file name is the text after the last `/`, up to the first `?` after it |
| ScriptText.FileNameParts | src/generate-images.jsx:41-45 | The file name is the first `?` piece of the last `/` piece |
| ScriptText.SlashStart | src/generate-images-from-csv.jsx:68-69 | The last `/` piece starts after a `/`, or at the start, and holds no `/` |
| ScriptText.QueryEnd | src/generate-images-from-csv.jsx:70 | The end of the first `?` piece lies within the text |
| ScriptText.QueryEndShape | src/generate-images-from-csv.jsx:70 | The first `?` piece ends at the first `?`, or at the end |
| ScriptText.FormatIsoDate | src/generate-images-from-csv.jsx:73-93 | `YYYY-MM…` with a month from 01 to 12 gives `Mon YYYY` |
| ScriptText.FormatDateParts | src/generate-images.jsx:47-67 | The same, from the split parts |
| ScriptText.DateTextOf | src/generate-images.jsx:47-67 | The month name and year from the first two parts |
| ScriptText.IsoDateParts | src/generate-images-from-csv.jsx:74-76 | Splitting `YYYY-MM…` at `-` gives the year and the month first |
| ScriptText.FormatDateWithoutMonth | src/generate-images-from-csv.jsx:91-92 | A date without `-` formats as `undefined YYYY` |
| ScriptText.ArtistTextSplit | src/generate-images.jsx:74-81 | Splitting the artist line at its separator gives back the artist, and the collector number when there is one |
| RangeImages.TrimAllSnoc | src/generate-images-from-csv.jsx:50-56 | Each pushed field is trimmed |
| RangeImages.ParseCsvLine | src/generate-images-from-csv.jsx:40-58 | The character loop equals `ParsedLine` |
| RangeImages.FinishedFields | src/generate-images-from-csv.jsx:45-55 | A field is finished at each comma outside quotes |
| RangeImages.FieldCount | src/generate-images-from-csv.jsx:40-58 | There is one more field than commas outside quotes |
| RangeImages.FieldsTrimmed | src/generate-images-from-csv.jsx:50-56 | Every field is trimmed: it neither starts nor ends with whitespace |
| RangeImages.KeptSoFar | src/generate-images-from-csv.jsx:45-55 | Fields so far and the open value hold exactly the characters kept: every character except the toggling quotes and the separating commas |
| RangeImages.KeptCharacters | src/generate-images-from-csv.jsx:47-53 | An unescaped `"` is dropped, and an escaped one is kept with its backslash |
| RangeImages.QuoteFreeSoFar | src/generate-images-from-csv.jsx:45-55 | Without quotes, the fields so far rejoin with commas to the text read |
| RangeImages.QuoteFreeLine | src/generate-images-from-csv.jsx:40-58 | Without quotes, the parser is `split(",")` followed by trimming |
| RangeImages.RepeatedShape | src/generate-images-from-csv.jsx:224-230 | `repeat(s, n)` has length `n * |s|`, starts with `s`, repeats with period `|s|`, and uses only characters of `s` |
| RangeImages.Repeat | src/generate-images-from-csv.jsx:224-230 | The loop gives `s` repeated `count` times, and nothing for a count of at most 0 |
| RangeImages.CeilDiv | src/generate-images-from-csv.jsx:219 | `Math.ceil(t / d)` is the least multiple count covering `t` |
| RangeImages.PadText | src/generate-images-from-csv.jsx:213 | `String(padString \|\| " ")` is never empty |
| RangeImages.SlicePrefix | src/generate-images-from-csv.jsx:220 | `slice(0, n)` is the prefix of length n, or the whole text |
| RangeImages.PadStartShape | src/generate-images-from-csv.jsx:210-222 | The length is the larger of `|str|` and the target. `str` is a suffix and is returned unchanged when long enough. The padding is the pad text repeated |
| RangeImages.ExportNameDigits | src/generate-images-from-csv.jsx:243 | The export name is the digits of `i + 1`, at least 4 of them, and exactly 4 for i < 9999 |
| RangeImages.ExportNamesDistinct | src/generate-images-from-csv.jsx:243 | Different rows get different export names |
| RangeImages.AbbreviationsShorten | src/generate-images-from-csv.jsx:163-167 | Each abbreviation is no longer than its key |
| RangeImages.ReplaceAllShortens | src/generate-images-from-csv.jsx:170 | `split(key).join(short)` does not lengthen the text |
| RangeImages.AbbreviatedShortens | src/generate-images-from-csv.jsx:169-171 | Applying abbreviations in order does not lengthen the text |
| RangeImages.SetTitle | src/generate-images-from-csv.jsx:160-176 | The reassigning code equals `TitleText` |
| RangeImages.TitleLength | src/generate-images-from-csv.jsx:160-176 | A title shorter than 30 is unchanged. Any result is shorter than 30 or exactly 32 long. A short result is no longer than the input. A 32-long result is 29 characters of the abbreviated text plus `...` |
| RangeImages.SubtitleOfIsoDate | src/generate-images-from-csv.jsx:134-147 | With a code and a `YYYY-MM…` date, the subtitle is `CODE - Mon YYYY`, or `CODE [PARENT] - Mon YYYY` with a parent set |
| RangeImages.SubtitleWith | src/generate-images-from-csv.jsx:139-147 | The same over any formatted date |
| RangeImages.ExportStep | src/generate-images-from-csv.jsx:234-247 | A row that does not fail adds its page |
| RangeImages.FailureEndsRun | src/generate-images-from-csv.jsx:234-247 | A failing row ends the export run, and the script halts |
| RangeImages.UpdateContent | src/generate-images-from-csv.jsx:232-249 | The loop exports `Pages(data).values`. It returns the image count exactly when no row failed, and that count is the number of rows |
| RangeImages.PagesShape | src/generate-images-from-csv.jsx:232-249 | The pages are those of the first rows, in order. The run stops exactly when some row has no title, at the first such row, and otherwise every row is exported |
| RangeImages.TitleDecidesPage | src/generate-images-from-csv.jsx:237 | A row fails exactly when it has no title |
| RangeImages.ExportedNames | src/generate-images-from-csv.jsx:243-245 | Page k is exported as `ExportName(k)`, and no two pages share a name |
| RangeImages.RunScript | src/generate-images-from-csv.jsx:339-351 | Empty input exports nothing. Otherwise the rows of `ParsedCsv(_, ParsedLine)` are exported as `Pages`, with a count exactly when no row failed |
| SetImages.SplitLineCells | src/generate-images.jsx:23-39 | The cells hold no comma and rejoin to the line |
| SetImages.CollapseRuns | src/generate-images.jsx:196-198 | Each run of other characters becomes one `-`. No `--` remains, and the ends are `-` exactly when the input's ends are not slug characters |
| SetImages.SliceClean | src/generate-images.jsx:196-199 | A slice of clean text is clean |
| SetImages.TrimDashesSlug | src/generate-images.jsx:199 | Dropping one leading and one trailing dash leaves a slug |
| SetImages.SlugShape | src/generate-images.jsx:196-199 | The slug holds only `a-z`, `0-9` and `-`, has no `--`, and neither starts nor ends with `-` |
| SetImages.CollapseClean | src/generate-images.jsx:198 | Clean text is left as it is |
| SetImages.SlugIdempotent | src/generate-images.jsx:196-199 | Slugging a slug changes nothing |
| SetImages.CollapseSymbols | src/generate-images.jsx:198 | Text of symbols only becomes one dash, or stays empty |
| SetImages.SlugOfSymbols | src/generate-images.jsx:196-199 | Text with no letters or digits gives `""` |
| SetImages.SetSubtitleOfIsoDate | src/generate-images.jsx:138 | With a `YYYY-MM…` date, the subtitle is `CODE - Mon YYYY` |
| SetImages.SubtitleText | src/generate-images.jsx:138 | The subtitle is the upper-cased code, `" - "` and the formatted date |
| SetImages.FirstRows | src/generate-images.jsx:131-132 | At most five rows, a prefix of the data, and all of it when there are at most five |
| SetImages.ExportStep | src/generate-images.jsx:131-143 | A row that does not fail adds its page |
| SetImages.FailureEndsRun | src/generate-images.jsx:131-143 | A failing row among the first five ends the run |
| SetImages.UpdateContent | src/generate-images.jsx:130-144 | The loop with its `break` exports exactly the pages of the first five rows, up to the first failure |
| SetImages.SetPagesShape | src/generate-images.jsx:130-144 | The pages are those of the first rows, in order. The run stops exactly when a row fails, at the first such row, and otherwise every row is exported |
| SetImages.AtMostFiveImages | src/generate-images.jsx:131-132 | At most five images are exported |
| SetImages.SetPageFields | src/generate-images.jsx:134-199 | A row fails exactly when `name`, `code`, `released_at` or `icon_svg_uri` is absent. The title is the set's name, the file name is its slug, and the icon is a bare file name |
| SetImages.RunScript | src/generate-images.jsx:218-229 | Empty input is an error and exports nothing. Otherwise the rows of `ParsedCsv(_, SplitLine)` are run as `SetPages(FirstRows(data))` |
| Sorting.Insert | src/update-sets.js:41 | Inserting adds exactly the one element |
| Sorting.SortBy | src/update-sets.js:41 | The sort is a permutation |
| Sorting.InsertSorted | src/update-sets.js:41 | Inserting into a sorted sequence keeps it sorted |
| Sorting.SortBySorted | src/update-sets.js:41 | The result is sorted under a strict order |
| Sorting.EquivalentToAppend | src/create-mpcfill-csv.js:86 | The tied elements of a concatenation are those of each part, in order |
| Sorting.SortByStable | src/create-mpcfill-csv.js:86 | Under a strict weak order, tied elements keep their order |
| Sorting.InsertStable | src/create-mpcfill-csv.js:86 | Inserting places the element after its ties |
| Sorting.SumOfSortBy | src/create-mpcfill-csv.js:86-115 | Sorting keeps any sum over the elements, and so the total quantity |
| Strings.ToLower | src/create-mpcfill-csv.js:31 | Lower-casing maps each character and keeps the length |
| Strings.ToLowerIdempotent | src/create-mpcfill-csv.js:31 | Lower-casing twice is lower-casing once |
| Strings.IndexFrom | src/create-mpcfill-csv.js:31 | The first occurrence from a position, or `None` when there is none |
| Strings.Split | src/create-mpcfill-csv.js:31 | `split` gives at least one piece |
| Strings.SplitJoin | src/generate-images-from-csv.jsx:170 | Joining the pieces of a split with the separator gives the text back |
| Strings.SplitPiecesLackSeparator | src/generate-images-from-csv.jsx:68-70 | No piece of a split holds the separator |
| Strings.SplitFirst | src/create-mpcfill-csv.js:31 | The first piece is the text up to the first separator |
| Strings.LastStartPiece | src/generate-images-from-csv.jsx:68-69 | The last piece is the text from the last piece's start |
| Strings.LastStartAfterSep | src/generate-images-from-csv.jsx:68-69 | The last piece starts at the beginning, or right after a separator |
| Strings.JoinSplit | src/generate-images.jsx:23-39 | Splitting at a character that no part holds undoes the join |
| Strings.TrimStart | src/generate-images-from-csv.jsx:62 | `^\s+` is removed: the rest is a suffix and starts with no whitespace |
| Strings.TrimEnd | src/generate-images-from-csv.jsx:62 | `\s+$` is removed: the rest is a prefix and ends with no whitespace |
| Strings.Trim | src/generate-images-from-csv.jsx:60-65 | The trimmed text neither starts nor ends with whitespace |
| Strings.TrimIdempotent | src/generate-images-from-csv.jsx:60-65 | Trimming twice is trimming once |
| Strings.LexLessIrreflexive | src/create-mpcfill-csv.js:95-96 | No set code sorts before itself |
| Strings.LexLessTransitive | src/create-mpcfill-csv.js:95-96 | The set-code order is transitive |
| Strings.LexLessTotal | src/create-mpcfill-csv.js:95-96 | Of two different set codes, one sorts before the other |
| Strings.DigitPrefix | src/create-mpcfill-csv.js:91 | `parseInt` reads the longest run of leading digits |
| Strings.ParseIntOr | src/generate-cn-range-csv.js:20-23 | The result is the parsed number when that is a non-zero number, and the fallback otherwise |
| Strings.NatToDecimal | src/generate-cn-range-csv.js:48 | The decimal digits of a number, with no leading zero |
| Strings.ParseIntDecimal | src/generate-cn-range-csv.js:48 | A number printed in decimal parses back to itself |
| Strings.DecimalInjective | src/generate-cn-range-csv.js:48 | Different numbers print differently |
| Strings.ParseDigits | src/create-mpcfill-csv.js:91 | A digit string without a leading zero parses to its value |
| Strings.ParseNoDigits | src/create-mpcfill-csv.js:91 | Text starting with neither a digit, a sign nor whitespace does not parse |
| Strings.LeadingZeros | src/generate-images-from-csv.jsx:243 | Leading zeros do not change a digit string's value |

## Left out

- File-system and network effects are not modelled. This covers `fs` reads and writes, `readdir`, `fs.stat`, the Scryfall request and the icon downloads (`downloadIconIfNeeded`, `src/update-sets.js:113-148`). Directory listings, modification times, parsed files and the service's reply are parameters. Written files are returned values.
- The library parsers and writers are not modelled: xml2js, csv-parser, csv-stringify, csv-writer, yargs and commander. Their parsed output is a datatype. For commander this output is `program.opts()` with camel-cased keys, as CnRanges.CommanderOptions builds it. The Archidekt column mapping, `./archidekt`, is not part of this model.
- XML elements are single values here. Only the first value of `query`, `name`, `id` and `slots` is read, as the scripts read `[0]`. A section that is present is a list of cards.
- Pipeline.ProcessFiles: requires every manifest file to have an `order` root. The source throws on `xmlData.order.fronts` for a file without one, and that failure path is not modelled. In the reconciliation script such a file contributes nothing, and that case is modelled.
- `Math.random` is not modelled. The random background picks are parameters, and only the choice made from them is modelled.
- `Promise.all` over `processRow` is modelled as a sequential per-row map. Each row's enrichment touches only that row and reads only the manifests. The asynchronous order in which `writeBatchToFile` completes its writes is not modelled.
- The Illustrator host is not modelled. This covers layers, text frames, `placeImage`, `matchRectangle`, `fitToArtboard`, `exportFile`, `alert`, `readCSVFile` and the missing-layer errors. `setIcon` and `setBackground` are reduced to the file they would place.
- `src/scale_and_align_to_artboard.jsx` and `src/flip-and-reverse-sort-images.js` are not part of this model. They are host geometry, and image rotation through the `sharp` library.
- Strings.ToLower: ASCII letters only. Unicode case mapping is not modelled, and neither is it in Strings.ToUpper.
- RowOrdering.RowBefore: orders set codes by code points in place of `localeCompare`. Locale collation is not modelled.
- Strings.ParseInt: reads decimal digits only. `parseInt` without a radix, as at `src/create-mpcfill-csv.js:91`, would also read a `0x` prefix as hexadecimal. Numbers above 2^53 lose no precision here, while JavaScript doubles would.
- JavaScript numbers are unbounded integers here. This covers quantities, collector numbers, counts and `mtime`s. No fractional value reaches the modelled logic.
- UpdateSets.JsLess: `<` between a string and a number, and anything involving `undefined`, is false. JavaScript's coercion of numeric strings is not modelled. The sort is a stable insertion sort. Where the comparator is not a strict weak order, `Array.prototype.sort` may order the values differently.
- UpdateSets.DefaultSets: a `card_count` held as a string fails the size test. JavaScript's `>=` would coerce a numeric string.
- UpdateSets.FindFile: looks for the text `[CODE]`. The source builds a regular expression from the code, and a code holding regular-expression metacharacters is not modelled.
- UpdateSets.SortData: sorts on the array's values. The in-place algorithm of `Array.prototype.sort` is not modelled, only its result, and the same array is returned.
- RangeImages.PadStart: takes the target length as an integer. The `>> 0` conversion of a non-integer or out-of-range target is not modelled, and the only call passes 4.
- CnRanges.GetCnRanges: requires a non-empty range list when the card count is positive. In that case the source reads `cnRanges[0]` as `undefined` and throws in `getCNRangeFormatted`.
- Ranges (CnRanges.Ranges): requires a positive step, or an `initialCn` above `maxCn`. With a step of at most 0 and `initialCn <= maxCn` the source's loop never ends (CnRanges.NonPositiveStepNeverStops), pushing ranges until memory runs out. `--step -5` reaches that case (CnRanges.NegativeStepRead). A non-terminating computation has no result to model, so that input is outside the function.
- GenerateCnRanges (CnRanges.GenerateCnRanges): the same requires as CnRanges.Ranges, for the same reason. The loop that never ends on a step of at most 0 is not modelled.
- CnRanges.WithBackgrounds: states that an empty listing throws, and the number of records otherwise. What each record gains is stated by CnRanges.BackgroundsDrawn and Backgrounds.AppendBackgroundFields.
- CnRanges.Draws: the random index is a parameter within the listing, or any index when the listing is empty. `Math.floor(Math.random() * files.length)` always lies within a non-empty listing.
- UpdateSets.WithBackgrounds: states when the body throws, and the number of sets otherwise. Their contents are stated by UpdateSets.SheetShape and Backgrounds.AppendBackgroundFields.
- UpdateSets.Run: when a set's body throws, inside the `.then` callback, the promise is rejected. No CSV and no icon map are produced, which `ok` false stands for. The sets updated before the throw are not observable afterwards.
- ScriptText.CsvRows: states only a bound on its own. The exact records are stated by ScriptText.CsvRowsFrom.
- The range-image script halts on a row without a title, where `text.length` throws. A row missing `name`, `code`, `released_at` or `icon_svg_uri` halts the set-image script. Both are modelled as a run that stops. What the host does after the `alert` is not modelled.
- Records.Keys: JavaScript lists integer-like keys first, in ascending order, and then the other keys in insertion order. The model keeps insertion order for every key. The scripts use only non-numeric keys, so the two orders agree on them.
- Logging (`console.log`, `alert`, `$.writeln`) is not modelled. That includes the unknown-sets message of `getSetData`: the unknown codes are computed, but the message is not.

## Findings

| source | as written | input that shows it | evidently intended | confidence | as-written member | corrected member |
|---|---|---|---|---|---|---|
| src/generate-cn-range-csv.js:20-23 | The settings are read as `options["card-count"]`, `options["max-cn"]` and `options["initial-cn"]`. commander's `program.opts()` stores these flags under `cardCount`, `maxCn` and `initialCn`, so the three lookups are `undefined` and the settings are always 440, 450 and 51 | `--card-count 100` still produces 440 records | Read the camel-cased keys, so that every flag takes effect | high, not executed; relies on commander's documented key naming | CnRanges.ReadSettings, with CnRanges.OnlyStepIsRead and CnRanges.CardCountFlagIgnored | CnRanges.IntendedSettings, with CnRanges.IntendedSettingsUseFlags |
