# Methane permit map: row ingestion and vertical clamp

A model of the two pieces of logic in the methane-permit map widget:

- **Row ingestion** (`createMethaneLayer`): the CSV text fetched from the
  permit file is split on line feeds, the first line (the header) is dropped,
  each remaining line is tokenized with the regular expression
  `/(".*?"|[^",]+)(?=\s*,|\s*$)/g`, and every line with at least one token
  becomes a `VOCData` record whose fields are taken from the tokens by
  position. The regular expression is modelled as the backtracking scan a
  JavaScript engine performs (module `RowPattern`): at each position the lazy
  quoted alternative is tried first, then the greedy bare run with
  backtracking, and the scan moves one character on when both fail. The
  parse loop itself is a method with a loop invariant over the rows done so
  far (`MethaneView.CreateMethaneData`), proved against the function
  `MethaneView.MethaneData`.
- **Vertical clamp** (`MapViewer.bindVerticalMovement`): on every extent
  change, an extent whose top reaches `yMax = 20000000` is recentred so that
  its top sits on `yMax`, else one whose bottom reaches `yMin = -20000000` is
  recentred so that its bottom sits on `yMin`; the horizontal centre is kept.
  The model returns the projected target point (or none), over reals, and
  takes the view to land on the extent of the same height centred on it.

`parseFloat` and `parseInt` are left uninterpreted: they are passed in as a
pair of total functions from an optional token (`undefined` when the row has
no token at that position) to a number.

The model follows the code, including where a reader of the widget would
expect otherwise:

- Tokens are not trimmed: the pattern keeps leading and trailing spaces
  (`a , b` gives `a ` and ` b`), keeps the quotes of a quoted token, and drops
  empty fields, so later columns shift left.
- Whitespace between a closing quote and the next comma becomes a token of
  its own: `"a" ,b` gives `"a"`, a single space, and `b`, so the columns
  after it shift right.
- A row with fewer than ten tokens does not fail: the missing columns read as
  `undefined`, nothing in the `try` block throws, and the record is kept.
- The required-field check on latitude, longitude, VOC tons and methane does
  not run: the condition at src/maps/methane-view.ts:31 is an arrow function,
  which is always truthy, so every line with a token is pushed (see Findings).
- For the extent from `ymin = 19999999` to `ymax = 20500000` the height is
  500001, so the target y is 19749999.5 (not 19750000, which a height of
  500000 would give).

## Model

Rows for definitions without a contract of their own say what they compute
and which lemma states their property.

| member | source | states |
|---|---|---|
| TextLines.Split | src/maps/methane-view.ts:12 | splitting on line feeds gives at least one piece and no piece holds a line feed |
| TextLines.JoinSplit | src/maps/methane-view.ts:12 | joining the pieces with line feeds gives the payload back |
| TextLines.SplitJoin | src/maps/methane-view.ts:12 | lines without line feeds, joined, split back into the same lines |
| TextLines.SplitFirstLine | src/maps/methane-view.ts:12-13 | the first piece is exactly the text up to the first line feed and the rest are the pieces of what follows it |
| TextLines.SplitSingle | src/maps/methane-view.ts:12-13 | a text without a line feed, the empty text included, is one piece |
| RowPattern.IsSpace | src/maps/methane-view.ts:16 | `\s`: the WhiteSpace and LineTerminator code points of JavaScript; used only through the lookahead, whose meaning `RowPattern.SeparatorAheadMeans` states |
| RowPattern.IsLineTerminator | src/maps/methane-view.ts:16 | the characters `.` refuses without the `s` flag: line feed, carriage return, U+2028 and U+2029; `RowPattern.QuotedFromNearest` states that no quoted token runs across one |
| RowPattern.SeparatorAhead | src/maps/methane-view.ts:16 | the lookahead that must follow a token, as a scan over whitespace that then needs a comma or the end of the line; `RowPattern.SeparatorAheadMeans` states what it accepts |
| RowPattern.SeparatorAheadMeans | src/maps/methane-view.ts:16 | the lookahead holds exactly when optional whitespace is followed by a comma or the end of the line |
| RowPattern.QuotedFrom | src/maps/methane-view.ts:16 | the lazy quoted alternative, when it matches, ends past its start and inside the line; `RowPattern.QuotedFromNearest` states where |
| RowPattern.QuotedFromNearest | src/maps/methane-view.ts:16 | the lazy `".*?"` ends just after the nearest `"` that the lookahead accepts with no line terminator before it, and fails exactly when no such `"` exists |
| RowPattern.BareRunEnd | src/maps/methane-view.ts:16 | the greedy run of `[^",]` stops at a `"`, a `,` or the end of the line, never before its start |
| RowPattern.BareRunIsBare | src/maps/methane-view.ts:16 | every character the greedy run passes over is neither `"` nor `,`, so the run stops at the first `"` or `,` |
| RowPattern.BareBacktrack | src/maps/methane-view.ts:16 | backtracking the bare run only ever stops at a non-empty prefix followed by the lookahead |
| RowPattern.BareBacktrackIsGreedy | src/maps/methane-view.ts:16 | the bare alternative matches exactly when the whole greedy run is non-empty and followed by a comma or the end, and then matches all of it |
| RowPattern.MatchAt | src/maps/methane-view.ts:16 | a match at a position is non-empty and inside the line; `RowPattern.MatchAtShape` and `RowPattern.MatchAtMeans` state what it is and when it exists |
| RowPattern.MatchAtShape | src/maps/methane-view.ts:16 | a match has the token shape (quoted with its quotes, or a run without `"` and `,`) and is followed by the lookahead |
| RowPattern.MatchAtMeans | src/maps/methane-view.ts:16 | at a `"` that some later `"` can close, the pattern matches up to the nearest such close; otherwise it matches exactly when the greedy bare run is non-empty and followed by a comma or the end, and then the match is the whole run |
| RowPattern.Matches | src/maps/methane-view.ts:16 | the global match from a position yields non-empty spans inside the rest of the line |
| RowPattern.MatchesInOrder | src/maps/methane-view.ts:16 | the spans of the global match come in line order without overlapping |
| RowPattern.MatchesAreMatches | src/maps/methane-view.ts:16 | each span of the global match is the pattern's match at the span's start |
| RowPattern.SkipSeparator | src/maps/methane-view.ts:16 | no match starts at a comma, so the scan just moves past it |
| RowPattern.MatchesSkipNothing | src/maps/methane-view.ts:16 | the pattern matches at no position that the spans leave uncovered |
| RowPattern.Texts | src/maps/methane-view.ts:16 | the match array has one entry per span; `RowPattern.TextsAre` states which |
| RowPattern.TextsAre | src/maps/methane-view.ts:16 | entry `k` of the match array is the text of span `k` |
| RowPattern.Tokenize | src/maps/methane-view.ts:16 | the texts of the global match from the start of the line; `RowPattern.TokensInLine`, `RowPattern.TokenizeJoinFields` and the examples state its properties |
| RowPattern.RowMatch | src/maps/methane-view.ts:16-17 | the match result is null or a non-empty array of tokens |
| RowPattern.TokensInLine | src/maps/methane-view.ts:16 | every token is non-empty, keeps its quotes or holds neither `"` nor `,`, is followed in the line by optional whitespace and then a comma or the end, and the tokens come in line order without overlapping |
| RowPattern.NoMatchMeans | src/maps/methane-view.ts:16-17 | the match is null exactly when the pattern fails at every position |
| RowPattern.BlankOrCommasOnly | src/maps/methane-view.ts:16-17 | an empty line, or one of commas only, has a null match and so gives no record |
| RowPattern.TokenizeJoinFields | src/maps/methane-view.ts:16 | comma-joined plain fields tokenize back to the non-empty fields verbatim: quotes kept, commas inside quotes not split, empty fields dropped, spaces kept |
| RowPattern.MatchPlainField | src/maps/methane-view.ts:16 | a non-empty plain field followed by a comma or the end is matched as one token |
| RowPattern.QuotedCommaExample | src/maps/methane-view.ts:16 | `"Acme, Inc.",TX` gives the two tokens `"Acme, Inc."` (quotes included) and `TX` |
| RowPattern.EmptyFieldAndSpacesExample | src/maps/methane-view.ts:16 | `a,,b` gives `a`, `b`; `a , b` gives `a ` and ` b` |
| RowPattern.SpaceAfterQuoteExample | src/maps/methane-view.ts:16 | `"a" ,b` gives `"a"`, a token holding the single space, and `b` |
| MethaneView.Column | src/maps/methane-view.ts:20-29 | a column read past the end of the token array is `undefined` |
| MethaneView.Attributes | src/maps/methane-view.ts:19-30 | the record built from a row's tokens by position: columns 0, 1 and 6-9 through `parseFloat`, column 2 through `parseInt`, columns 3-5 verbatim; `MethaneView.PlainRowRecord` states it for a whole payload |
| MethaneView.RowRecords | src/maps/methane-view.ts:16-32 | what one row pushes: nothing for a null match, else its one record, with no value check; `MethaneView.OneRecordPerMatchedRow` states it over all rows |
| MethaneView.IngestRows | src/maps/methane-view.ts:15-37 | the records of the rows after the header, in row order; `MethaneView.IngestRowsAppend` and `MethaneView.OneRecordPerMatchedRow` state its properties |
| MethaneView.MethaneData | src/maps/methane-view.ts:12-37 | the whole pass: split, drop the first line, ingest the rest; `MethaneView.CreateMethaneData`, `MethaneView.HeaderDropped` and `MethaneView.HeaderOnly` state its properties |
| MethaneView.CreateMethaneData | src/maps/methane-view.ts:12-37 | the loop over the rows after the header pushes exactly the records the ingestion function gives for the whole payload |
| MethaneView.IngestRowsAppend | src/maps/methane-view.ts:15-37 | rows are ingested independently: two blocks give the concatenation of their records |
| MethaneView.HeaderDropped | src/maps/methane-view.ts:12-13 | the first line is dropped whatever it holds and the records come from the following lines only |
| MethaneView.HeaderOnly | src/maps/methane-view.ts:12-13 | a payload of a single line, the empty payload included, gives no record |
| MethaneView.MatchedFrom | src/maps/methane-view.ts:15-17 | the indices of the rows with a non-null match are in range and strictly increasing |
| MethaneView.OneRecordPerMatchedRow | src/maps/methane-view.ts:15-32 | there is exactly one record per row with at least one token, in row order, built from that row's tokens, with no filtering on values |
| MethaneView.PlainRowRecord | src/maps/methane-view.ts:16-30 | a row of plain non-empty fields gives one record with columns 3-5 verbatim, the parses of columns 0-2 and 6-9, and `undefined` for a missing column |
| MethaneView.Truthy | src/maps/methane-view.ts:31 | JavaScript truthiness of a number: false for zero and NaN, true otherwise; used by `MethaneView.HasRequiredFields` |
| MethaneView.HasRequiredFields | src/maps/methane-view.ts:31 | the condition in the body of the arrow function: latitude, longitude, VOC tons and methane all truthy; `MethaneView.UnfilteredRowKept` shows that it is never applied |
| MethaneView.UnfilteredRowKept | src/maps/methane-view.ts:31-32 | as written, a row whose four required numbers are NaN is still pushed |
| MethaneView.IngestRequiredRows | src/maps/methane-view.ts:31-32 | ingestion with the condition applied before each push; `MethaneView.IngestRequiredRowsFilters` states what it keeps |
| MethaneView.KeepRequired | src/maps/methane-view.ts:31-32 | a record is kept exactly when it is among the input records and has the four required fields |
| MethaneView.KeepRequiredAppend | src/maps/methane-view.ts:31-32 | the check applies record by record: filtering two blocks gives the concatenation of the filtered blocks |
| MethaneView.IngestRequiredRowsFilters | src/maps/methane-view.ts:31-32 | with the check applied, the output is the as-written output with each record lacking a truthy latitude, longitude, VOC tons or methane taken out, order and repetitions kept |
| MapViewer.CenteredOn | src/maps/map.js.ts:74-77 | the extent moved to a target keeps its height and is centred on the target |
| MapViewer.RecenterTarget | src/maps/map.js.ts:73-78 | a move is asked for exactly when the top reaches `yMax` or the bottom reaches `yMin` (both inclusive), x is kept, a top move puts the top on `yMax` and otherwise a bottom move puts the bottom on `yMin` |
| MapViewer.BoundsSymmetric | src/maps/map.js.ts:70-71 | the bounds are 20000000 and its negation |
| MapViewer.MovedExtentFits | src/maps/map.js.ts:74-77 | an extent no taller than the band is moved inside the band |
| MapViewer.RecenterSettles | src/maps/map.js.ts:73-78 | an extent lower than the band, once moved, asks for the same point again, so the clamp settles |
| MapViewer.TallExtentMovesTwice | src/maps/map.js.ts:73-78 | an extent taller than the band moved by the bottom rule is moved again by the top rule to another point, ending with its bottom below `yMin` |
| MapViewer.TopExample | src/maps/map.js.ts:74-75 | the extent from 19999999 to 20500000 at x 100 is sent to (100, 19749999.5) |

## Findings

| source | as written | input that shows it | evidently intended | confidence | as-written member | corrected member |
|---|---|---|---|---|---|---|
| src/maps/methane-view.ts:31 | `if (attributes => attributes.latitude && …)` tests an arrow function, always truthy, so every record is pushed | payload `h\n1` with parsers that give NaN: one record is pushed whose required fields are all NaN | push only records whose latitude, longitude, vocTonsYear and methane75Voc are truthy | high; not executed | MethaneView.UnfilteredRowKept | MethaneView.IngestRequiredRowsFilters |

The program's behaviour is modelled as written (`MethaneView.MethaneData`,
`MethaneView.CreateMethaneData`); the corrected ingestion
`MethaneView.IngestRequiredRows` is stated beside it with its property proved.

## Left out

- The `fetch` of the permit file (src/maps/methane-view.ts:10): network I/O; the payload is an input string.
- The exact behaviour of `parseFloat` and `parseInt`: IEEE-754 parsing; they are uninterpreted function parameters.
- `console.log` diagnostics (src/maps/methane-view.ts:34,39 and src/maps/map.js.ts:57,81): output only.
- The `catch` branch (src/maps/methane-view.ts:33-35): nothing in the `try` block throws, so it is never reached.
- Building the `Graphic`, `Point` and `FeatureLayer`, the popup template, the fields and the renderer stops (src/maps/methane-view.ts:41-138): declarative configuration of the mapping SDK.
- The `MapViewer` constructor wiring (`Map`, `MapView`, `Legend`, layers, `view.when` chains; src/maps/map.js.ts:24-66): UI and asynchronous glue.
- `webMercatorUtils.xyToLngLat` and `view.goTo` (src/maps/map.js.ts:75,77): foreign calls; the model computes the projected target point and, through `MapViewer.CenteredOn`, the extent the view is taken to land on; a rejected move is not modelled.
- MapViewer.CenteredOn: assumes that `goTo` re-centres the view exactly on the target at unchanged height and that the round trip through `xyToLngLat` is exact; with doubles the view may land a rounding error away, for instance just below `yMax`. The last two ensures of `MapViewer.RecenterTarget`, and `MapViewer.MovedExtentFits`, `MapViewer.RecenterSettles` and `MapViewer.TallExtentMovesTwice`, rest on this idealisation.
- The asset path setup (src/maps/map.js.ts:14-15) and the `BASEMAP` enum (src/maps/map.js.ts:87-104): no logic.
- Strings are sequences of Unicode scalar values, not UTF-16 code units; the pattern has no `u` flag, so a surrogate pair would count as two characters in JavaScript. Only the positions of characters inside a token differ; which tokens are found does not.
- Numbers in the clamp are reals, not doubles: rounding of `(ymax - ymin) / 2` is not modelled.
- MethaneView.Number has no negative zero; truthiness of zero is the same either way.
