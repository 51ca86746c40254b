# Food-catalogue matcher: a Dafny model

The application reconciles two product catalogues in the browser. One list is primary (Shamrock), the other holds candidates (US Foods). For each primary item the page proposes the candidates whose descriptions best match its own, and a reviewer either picks one or marks the item as having no match. The decisions live in one map from primary id to decision. The map is saved between sessions, can be cleared, imported or exported as CSV, and drives four counters and four list filters.

The project models the logic of `app.js`:

- `catalog.dfy` (`Catalog`) holds the catalogue record and the id lookup used to draw a matched tag.
- `strings.dfy` (`Strings`) holds the string primitives the page relies on:
  - `toLowerCase` (ASCII letters);
  - `split(/[\s,-]+/)`, with the exact ECMAScript `\s` class and JavaScript's empty leading and trailing pieces;
  - `includes`;
  - `join`;
  - the decimal text of an integer id.
- `matcher.dfy` (`Matcher`) holds:
  - the scoring loop `scoreMatch`, as a method proved equal to its specification function `Score`;
  - `findBestMatches`, as a filter, a stable descending sort (insertion sort standing for the engine's stable `Array.prototype.sort`) and a cut to five.
- `review.dfy` (`Review`) holds:
  - the decision map and the three-way status of an item (pending, no match, matched);
  - the list filter exactly as the early returns of `renderList` test it, including JavaScript truthiness;
  - the counters of `updateCounts` as written;
  - the right-hand side of a row;
  - the page state as a class `ReviewStore`, whose methods are the handlers `selectMatch`, `markNoMatch`, `clearSavedProgress`, the import callback and `setFilter`.
- `csv.dfy` (`CsvExport`) holds the rows and the text of `exportCSV`:
  - one header row;
  - then one row per stored key, in ascending id order (the order `Object.keys` gives array-index keys, the integers from 0 to 2^32 − 2);
  - a refused item's second cell is empty, because `join` writes `null` as empty text.

  The page never reads a CSV file back. `SplitOn`, `DecodeCell`, `DecodeRows` and `DecodeCsv` are a reference reader written for the model, and they state that the exported text loses nothing of the decision map.

## Model

| member | source | states |
|---|---|---|
| Catalog.FindById | app.js:107 | Nothing is returned exactly when no candidate has the id; otherwise the result is a candidate with that id, and no earlier candidate has it. |
| Strings.Lower | app.js:39-40 | Lower-casing keeps the length, leaves no ASCII capital, and changes no other character. |
| Strings.Contains | app.js:44 | `includes`, characterised by ContainsIffOccurs and ContainsEmpty. |
| Strings.JoinWith | app.js:162 | `join`, characterised by SplitJoinRoundTrip, JoinStartsWithFirst and JoinCountsSeparators. |
| Strings.LowerForgetsCase | app.js:39-40 | Lower-casing is idempotent and undoes upper-casing. |
| Strings.LowerWithoutCapitals | app.js:39-40 | A string without capital letters is left unchanged by lower-casing. |
| Strings.LowerConcat | app.js:39-40 | Lower-casing distributes over concatenation. |
| Strings.ContainsIffOccurs | app.js:44 | `includes(w)` holds exactly when `w` occurs at some index of the text. |
| Strings.ContainsEmpty | app.js:44 | Every text includes the empty string. |
| Strings.DropSeparators | app.js:43 | Drops exactly the maximal run of `[\s,-]` at the front: the result is a suffix, every dropped character is a separator, and the result does not start with one. |
| Strings.Split | app.js:43 | `split` always yields at least one piece. |
| Strings.SplitPiecesHaveNoSeparator | app.js:43 | No piece of a split holds a separator. |
| Strings.SplitKeepsText | app.js:43 | Concatenating the pieces gives the input with every separator removed, so splitting loses nothing else. |
| Strings.SplitAfterWord | app.js:43 | A separator-free prefix becomes the start of the first piece. |
| Strings.SplitWordThenRun | app.js:43 | A word followed by a run of separators becomes a piece of its own. |
| Strings.SplitJoinRoundTrip | app.js:43 | Splitting undoes joining with a space, for non-empty separator-free pieces. |
| Strings.JoinStartsWithFirst | app.js:162 | A join starts with its first part. |
| Strings.SplitOn | app.js:162 | Splitting at one character, the partner of `join`: at least one piece, and no piece holds that character. |
| Strings.SplitOnJoin | app.js:162 | Splitting at `c` undoes joining with `c`, for parts that do not hold `c`. |
| Strings.NatDigits | app.js:159 | The decimal text of a natural number is a non-empty string of digits, with no leading zero unless it is `0` itself. |
| Strings.Decimal | app.js:159 | The text of an integer id is in the canonical form `String(id)` writes: non-empty digits, led by `-` exactly when the id is negative, with no leading zero and no `-0`. |
| Strings.DecimalRoundTrip | app.js:158-159 | Parsing the decimal text of an id gives the id back. |
| Strings.DecimalInjective | app.js:158-159 | Distinct ids have distinct decimal texts. |
| Matcher.Tokens | app.js:39-43 | The query pieces: at least one piece, none holding a separator, and together they spell the lower-cased query with its separators removed. |
| Matcher.Score | app.js:38-48 | The score never exceeds the number of query pieces. Its meaning is stated by ScoreMatch, ScoreBounds, ScoreIgnoresCase and CountConcat. |
| Matcher.CountContained | app.js:43-45 | The number of contained pieces never exceeds the number of pieces. |
| Matcher.ScoreMatch | app.js:38-48 | The loop over the query pieces returns `Score(a, b)`: one point per piece of the lower-cased query, repeats and empty pieces included, that the lower-cased candidate includes. |
| Matcher.CountAllIff | app.js:43-45 | The count equals the number of pieces exactly when every piece is contained. |
| Matcher.CountZeroIff | app.js:43-45 | The count is zero exactly when no piece is contained. |
| Matcher.CountConcat | app.js:43-45 | Counting over two runs of pieces adds up. |
| Matcher.ScoreBounds | app.js:38-48 | The score lies between 0 and the number of query pieces. It equals the upper bound exactly when all pieces occur, and is 0 exactly when none does. |
| Matcher.ScoreIgnoresCase | app.js:39-40 | Upper- or lower-casing either argument leaves the score unchanged. |
| Matcher.LeadingSeparatorAddsPoint | app.js:43-44 | Putting a space before a query that does not already start with a separator adds an empty piece, which every candidate includes, so the score rises by exactly one. |
| Matcher.RepeatedWordScoresTwice | app.js:43-45 | A contained word written twice scores two. |
| Matcher.ScoreAll | app.js:51-54 | Every candidate paired with its score, characterised by RankedEntries and RankedIsStableSortOfPositive. |
| Matcher.Positive | app.js:56 | The filter keeps exactly the entries with a positive score. |
| Matcher.InsertSorted | app.js:57 | Inserting into a non-increasing list keeps it non-increasing. |
| Matcher.InsertPermutes | app.js:57 | Insertion adds exactly the one entry. |
| Matcher.InsertStable | app.js:57 | Insertion puts the new entry before every entry with its own score. |
| Matcher.SortDesc | app.js:57 | The stable descending sort, characterised by SortDescIsStableSort. |
| Matcher.SortDescIsStableSort | app.js:57 | The sort returns a non-increasing permutation of its input that keeps equal scores in their input order. |
| Matcher.PositiveKeepsScore | app.js:56 | For a positive score, filtering keeps the entries with that score, in order. |
| Matcher.Ranked | app.js:51-57 | The ranking is sorted and holds exactly the positively scored candidates, as a multiset. |
| Matcher.RankedEntries | app.js:51-57 | Every ranked entry is a candidate record carrying its own positive score, and the ranking is sorted. |
| Matcher.FindBestMatches | app.js:50-60 | At most five entries, each a candidate with its own positive score, in non-increasing score order. |
| Matcher.RankedIsStableSortOfPositive | app.js:50-60 | The ranking is a stable descending sort of the positively scored candidates; ties stay in catalogue order. The shortlist is a prefix of the ranking, and is all of it when the ranking has five entries or fewer. |
| Matcher.NoOmittedCandidateOutscores | app.js:50-60 | A positively scored candidate is on the shortlist, unless the shortlist is full of entries scoring at least as much. |
| Matcher.ShortlistExample | app.js:38-60 | "Fresh Tomato, diced" scores 3 against "diced tomato fresh pack" and 0 against "canned corn", so the shortlist is the first candidate alone. |
| Review.UpdateCounts | app.js:62-66 | The counters as written. total is the number of primary items, and matched is the number of keys in the map, null entries included. noMatch lies between 0 and total, and pending is total − matched − noMatch. The behaviour is stated by CountsAfterClear, MarkNoMatchLowersPendingByTwo, SelectMatchCounts and PendingGoesNegative. |
| Review.Truthy | app.js:80 | JavaScript truthiness of a stored status: false for `undefined`, `null` and candidate id 0. Its consequences are stated by FilterMeaning and MatchToZeroHidden. |
| Review.Visible | app.js:80-82 | The three early returns of the row loop, as written. Their meaning is stated by FilterMeaning and Shown. |
| Review.Shown | app.js:78-82 | The rows drawn under a filter: exactly the items whose status passes the filter, kept in catalogue order. |
| Review.Select | app.js:78-82 | The kept rows are exactly the items whose status passes the test, never more than the items. |
| Review.SelectIsSubsequence | app.js:78-82 | Filtering keeps items in catalogue order. |
| Review.FilterMeaning | app.js:78-82 | Under "all" every item shows. Under "pending" exactly the items with no entry show, under "nomatch" exactly those marked no match, and under "matched" exactly those matched to a candidate id other than 0. Every filter keeps catalogue order. |
| Review.NoMatchAfterWrite | app.js:65 | Writing a decision moves the no-match count by the number of items with that id: down if the old entry was null, up if the new one is. |
| Review.CountsAfterClear | app.js:62-66 | With an empty map the counters read total, 0, 0, total. |
| Review.MarkNoMatchLowersPendingByTwo | app.js:62-66 | Refusing a pending item raises matched and no-match by one each, so pending drops by two. |
| Review.SelectMatchCounts | app.js:62-66 | Matching a pending item moves one from pending to matched. Re-matching a refused item moves one from no-match back to pending. |
| Review.PendingGoesNegative | app.js:62-66 | One item marked no match shows the counters 1, 1, 1, -1, while the pending filter shows nothing. |
| Review.MatchToZeroHidden | app.js:80-82 | An item matched to candidate id 0 shows under none of "matched", "pending" and "nomatch", only under "all". |
| Review.IntendedFiltersPartition | app.js:78-82 | With the corrected "matched" test, every item shows under exactly one of "matched", "pending" and "nomatch". |
| Review.IntendedCounts | app.js:62-66 | The corrected counters are non-negative, add up to the total, and pending equals the size of the pending list. |
| Review.PartitionSizes | app.js:62-66 | The corrected matched, no-match and pending lists together hold every item once. |
| Review.ViewOf | app.js:90-109 | A row offers suggestions exactly when the item is pending. Those suggestions are the shortlist for its description. A no-match tag shows exactly when the entry is null. A matched tag carries the first candidate with the stored id, or nothing exactly when no candidate has that id. The suggestions are exactly `FindBestMatches` of the item's description, and the matched candidate is exactly `FindById` of the stored id. |
| Review.ReviewStore.constructor | app.js:12-21 | Start-up takes the saved map when storage held one, else the empty map; the filter starts at "all". |
| Review.ReviewStore.Rows | app.js:74-115 | An item is drawn exactly when it is a primary item whose status passes the current filter. A row offers suggestions exactly when its item has no entry, and these suggestions are the shortlist for the item's description. |
| Review.ReviewStore.SelectMatch | app.js:117-122 | The entry becomes a match to the candidate whatever it held before; every other entry and the filter are unchanged. |
| Review.ReviewStore.MarkNoMatch | app.js:124-129 | The entry becomes null whatever it held before; every other entry and the filter are unchanged. For a pending item with a unique id, the pending counter drops by two. |
| Review.ReviewStore.ClearSavedProgress | app.js:131-138 | When confirmed, the map is emptied and the counters read total, 0, 0, total; otherwise nothing changes. |
| Review.ReviewStore.ImportMatches | app.js:179-184 | The imported map replaces the whole map, with no merge; the filter is unchanged. |
| Review.ReviewStore.SetFilter | app.js:140-143 | Only the filter changes. |
| Review.MatchThenRefuse | app.js:117-129 | Decisions are last-write-wins: matching then refusing an item leaves the same map and counters as refusing it alone. |
| CsvExport.SortedKeys | app.js:158 | The keys in strictly ascending order, each key exactly once. |
| CsvExport.Cell | app.js:159 | The second cell is empty exactly for a refused item. |
| CsvExport.DataRows | app.js:158-160 | One row per key, in the keys' order. Each row has two cells: the first parses back to its key, and the second decodes back to the key's decision. |
| CsvExport.CsvRows | app.js:156-160 | The header row, then exactly one row per stored decision. |
| CsvExport.RowAt | app.js:158-160 | Data row `i` is the row of the `i`-th smallest key. |
| CsvExport.DecidedIdHasRow | app.js:158-160 | Every stored decision has a row. |
| CsvExport.RowsComeFromDecisions | app.js:158-160 | Every data row is the row of some stored decision. |
| CsvExport.RowsAscending | app.js:158 | The ids of the data rows strictly increase. |
| CsvExport.PendingIdHasNoRow | app.js:158-160 | A pending id has no row. |
| CsvExport.CellRoundTrip | app.js:159 | A cell decodes to its decision. |
| CsvExport.DecodeDataRows | app.js:158-160 | Decoding the data rows recovers exactly the listed keys with their decisions. |
| CsvExport.CsvRowsRoundTrip | app.js:156-160 | Reading the data rows back recovers the whole decision map. |
| CsvExport.CsvLinesOf | app.js:162 | One text line per row, the header line `shamrock_id,usfoods_id` first; each line split at its commas gives back its row. |
| CsvExport.JoinCountsSeparators | app.js:162 | Joining lines free of the separator puts exactly one separator between each pair. |
| CsvExport.ExportCsv | app.js:156-162 | The file text starts with `shamrock_id,usfoods_id` and holds exactly one line break per stored decision. Split at its line breaks it gives back the lines, and reading it with DecodeCsv gives back the whole decision map. |
| CsvExport.CsvTextShape | app.js:162 | Joining the lines with line breaks gives exactly one break per stored decision, after the header line. |
| CsvExport.RowsSplitBack | app.js:162 | Every row joined with commas splits back into that row, since no cell holds a comma. |
| CsvExport.TextLines | app.js:162 | The exported text splits at its line breaks back into its lines. |
| CsvExport.TextRoundTrip | app.js:156-162 | Reading the exported text (drop the header line, split each line at its commas, decode the rows) gives back the decision map. |
| CsvExport.CsvExample | app.js:156-162 | With item 1 matched to candidate 10, item 2 refused and item 3 pending, the lines are `shamrock_id,usfoods_id`, `1,10` and `2,`, and the file is those three lines joined with line breaks. |

## Left out

- Loading the catalogues (`loadNDJSON`, `loadData`, app.js:1-10 and 29-35) is network I/O. The two catalogues are constructor parameters of `ReviewStore`.
- Saving to and loading from `localStorage` (app.js:18-26, 133) is not modelled. The saved map is a constructor parameter, and `saveProgress` calls are not modelled.
- The DOM is not modelled: writing counters into elements and building HTML strings and buttons. A row's content is the value `RowView`, and the counters are the value `Counts`.
- The `confirm` dialog of `clearSavedProgress` becomes the boolean parameter `confirmed`.
- `exportJSON` (app.js:145-154) and the JSON text format are not modelled: `JSON.stringify`, `JSON.parse`, Blob downloads and `FileReader`.
- `ImportMatches` receives an already decoded map. It does not model a malformed file or one whose keys are not integers. It also leaves out values other than `null` and integers, which the page would store unchecked.
- `Strings.Lower`: `toLowerCase` is modelled on ASCII letters only; full Unicode case mapping is not. Strings are sequences of code points, not UTF-16 code units.
- `Review.Filter`: a filter value other than the four buttons' values behaves like "all" on the page. The model admits only the four values.
- `Review.ReviewStore.Rows`: when a matched id names no candidate, the page throws on `u.description` and stops drawing the remaining rows. The model yields `MatchedTag(None)` for that row and draws the others.
- `CsvExport.SortedKeys`: ascending key order matches `Object.keys` only for array-index keys, the integers from 0 to 2^32 − 2. Negative keys and keys of 2^32 − 1 or more come out on the page after those, in insertion order, and that order is not modelled.
- `Strings.Decimal`: ids are JavaScript numbers. The model assumes they are safe integers (|id| ≤ 2^53 − 1), where `Number.prototype.toString` writes exactly the digits `Decimal` gives. Larger ids lose precision or print in exponent form (`1e+21`), and those cases are not modelled.
- `Matcher.SortDesc`: it stands for the engine's `Array.prototype.sort`, which ECMAScript 2019 requires to be stable. Only the sort's result is modelled, not its algorithm.

## Findings

| source | as written | input that shows it | evidently intended | confidence | as-written member | corrected member |
|---|---|---|---|---|---|---|
| app.js:63-66 | `matched` counts every key of the map, null entries included, and `pending` then subtracts the null entries a second time | one item marked no match: the counters read total 1, matched 1, no-match 1, pending -1 | matched counts only items matched to a candidate, so matched + no-match + pending = total and none is negative | high (not executed) | Review.PendingGoesNegative | Review.IntendedCounts |
| app.js:80 | the "matched" filter tests truthiness, so a match to candidate id 0 is dropped | item 1 matched to candidate 0: it shows under none of "matched", "pending" and "nomatch" | "matched" shows every item whose entry is a candidate id | medium (not executed) | Review.MatchToZeroHidden | Review.IntendedFiltersPartition |
