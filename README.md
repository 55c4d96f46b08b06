# L* learner for grid walks, in Dafny

This project models the learner side of an Angluin-style L* algorithm:
the `LStar` class of `lstar.ts`. It learns a language of walks over the
moves N, S, W and E on an n×m grid. The learner keeps an observation
table with three parts:

- the main table: the rows of the main prefixes;
- the complementary table: the boundary rows, one letter beyond;
- the list of suffixes: the columns.

Every cell holds the teacher's answer to a membership query.

Before a prefix becomes a table key it is put into canonical form:
`opt2(opt1(w))`.

- `opt1` caps repeated runs. S runs are cut to 2n+2 and E runs to 2m+2. N and W runs are kept whole. Any other letter keeps only the first letter of its run.
- `opt2` cuts the word into maximal blocks on one axis. N and S are vertical; W and E are horizontal.
- Each block is shortened by two passes of a run-length cancellation rule. A `b` group of count y between groups of counts x and z, with y ≤ x and y ≤ z, becomes (0, 0, x + z − y).

The table operations are:

- `addPrefix`: adds the canonical prefix as a complementary key, unless it is already known.
- `buildMainPrefixes`: promotes every complementary row that no main row equals. It does this in one pass over the entries, in insertion order.
- `extendTable`: adds every one-letter extension of every main prefix, then promotes.
- `addSuffixesFromCounterExample`: appends each non-empty suffix of the counterexample that is not already a column, shortest first, then promotes once.
- `getTableJson`: flattens the table into four strings.

The model has two layers:

- **Value-level specification.** The table is a datatype, and each
  operation is a function from the old table to the new one. The
  properties of the learner are proved about these functions: the table
  invariant, the answers held in the rows, closedness after promotion,
  and the layout of the serialised table.
- **Imperative code.** The methods that change state keep the source's
  shape:
  - `opt1`, `applySimplifyRule`, `shortenBlock` and `opt2` are methods
    with loops;
  - the table operations are methods of the class `Learner.LStar`, whose
    fields `mainTable`, `complementaryTable` and `suffixes` they update in
    place (`modifies this`).

  Each method is proved equal to its specification function.

A JavaScript object is modelled as a `Part`, which is an ordered key list
beside a map. Objects iterate their (non-numeric) keys in insertion order,
and both the promotion pass and the serialised output depend on that order.

The teacher is an `Oracle`: a total function from query words to
`Option<string>`. `None` stands for a failed request or a `null` reply,
which the learner stores as `""`.

Module layout:

- `moves.dfy`: words, letter counts, runs.
- `run_capping.dfy`: `opt1`.
- `run_length.dfy`: the run-length groups.
- `cancellation.dfy`: `applySimplifyRule` and `shortenBlock`.
- `axis_blocks.dfy`: `opt2` and the canonical form.
- `tables.dfy`: the table value, its invariant and `addPrefix`.
- `promotion.dfy`: `buildMainPrefixes`.
- `columns.dfy`: `addSuffixesFromCounterExample`.
- `extension.dfy`: `extendTable`.
- `serialization.dfy`: `replaceEmptyWithEpsilon` and `getTableJson`.
- `lstar.dfy`: the class.

Some descriptions of this algorithm state that "NNNSS" reduces to "N".
Under the code it does not, and the model follows the code:

- the trailing S group faces the zero-count sentinel (z = 0 < y = 2), so it is not cancelled;
- the second pass finds no N group between two S groups.

`CanonKeepsNNNSS` proves that the word comes back unchanged.

The canonical form is not idempotent in general. With n = 0, "SSNSS" becomes "SSS" and then "SS". So the model never assumes that table keys are fixed points of the canonical form.

## Model

| member | source | states |
|---|---|---|
| RunCapping.Opt1 | lstar.ts:25-46 | the scan with its `serie` counter and last letter returns exactly `CapRuns(prefix)`, the letters kept under the run caps |
| RunCapping.CapRunsIsSubsequence | lstar.ts:30-44 | `opt1` keeps a subsequence of its input: its letters sit at increasing positions of the input |
| RunCapping.CapRunsKeepsNorthWest | lstar.ts:37-41 | every N and every W of the input survives: the counts of N and W are unchanged |
| RunCapping.CapRunsKeepsRuns | lstar.ts:31-34 | the first letter of every run is kept: collapsing runs gives the same letter sequence before and after (input without '#') |
| RunCapping.CapRunsTrailing | lstar.ts:30-44 | the output ends in the input's last letter, in a run of `KeptRun` of the input's last run: the whole run for N and W, at most 2n+2 for S, at most 2m+2 for E, one otherwise |
| RunCapping.CapRunsBounds | lstar.ts:37-41 | in the output no S run is longer than 2n+2, no E run longer than 2m+2, and every other non-move letter stands alone |
| RunCapping.CappedIsFixed | lstar.ts:25-46 | a word whose runs are all within the caps comes back unchanged |
| RunCapping.CapRunsIdempotent | lstar.ts:25-46 | applying `opt1` twice gives what applying it once gives |
| RunCapping.CapRunsOfRun | lstar.ts:36-41 | k copies of one letter become `KeptRun(c, k)` copies of it |
| RunCapping.CapRunsSixSouth | lstar.ts:37 | on a grid of height 1, "SSSSSS" becomes "SSSS" |
| RunLength.RunLengthEncode | lstar.ts:51-64 | the grouping loop returns `Encode(blockStr)`, empty for the empty block |
| RunLength.EncodeShape | lstar.ts:51-64 | every group has count at least 1 and neighbouring groups differ in letter |
| RunLength.EncodeLetters | lstar.ts:51-64 | every group is tagged with a letter of the block |
| RunLength.EncodeSpellsBack | lstar.ts:51-64 | spelling the groups out gives the block back |
| RunLength.ExpandEncodesBack | lstar.ts:51-64 | a list with that shape is the encoding of the word it spells: the encoding is a bijection onto such lists |
| RunLength.ExpandMeasures | lstar.ts:84-86 | the spelled-out word is as long as the counts add up to, and holds as many copies of each letter as that letter's groups count |
| Cancellation.ApplySimplifyRule | lstar.ts:47-88 | encoding, sentinel, while-loop scan and spelling out return exactly `Simplify(block, a, b)` |
| Cancellation.VisitMeasures | lstar.ts:76-80 | one cancellation removes 2y letters, leaves the right neighbour at least y, and keeps count(a) − count(b) |
| Cancellation.SimplifyPreserves | lstar.ts:66-87 | on a block over {a, b}, count(a) − count(b) is unchanged, the block never grows, shrinks by an even number, and a non-empty block stays non-empty |
| Cancellation.SimplifyKeepsLetters | lstar.ts:66-83 | no letter absent from the block appears: the sentinel keeps count 0 |
| Cancellation.SimplifyKeepsLeadingRun | lstar.ts:70-83 | a leading b run is never cancelled: it opens the output unchanged |
| Cancellation.SimplifyKeepsTrailingRun | lstar.ts:66-83 | a trailing b run, next to the sentinel, is never cancelled: it closes the output unchanged |
| Cancellation.ShortenBlock | lstar.ts:89-102 | returns `Shorten(block)`: "" for the empty block, else the (N,S),(S,N) or (W,E),(E,W) passes by the first letter |
| Cancellation.TwoPasses | lstar.ts:93-100 | the two passes keep the block over its pair, keep count(a) − count(b), never lengthen, shrink by an even number and keep a non-empty block non-empty |
| Cancellation.ShortenBlockPreserves | lstar.ts:89-102 | a non-empty one-axis block stays on its axis, keeps N − S and E − W, never grows, keeps the parity of its length and stays non-empty |
| AxisBlocks.Opt2 | lstar.ts:103-129 | building the blocks by pushing and joining the shortened blocks returns `CancelBlocks(prefix)` ("" for "") |
| AxisBlocks.BlocksPartition | lstar.ts:110-123 | the blocks joined give the word back, each block is non-empty and on one axis, and neighbouring blocks differ in axis |
| AxisBlocks.BlocksOfSingleAxis | lstar.ts:112-122 | a word on one axis is a single block |
| AxisBlocks.ShortenAllNet | lstar.ts:125-128 | shortening every block and joining keeps N − S and E − W of the joined blocks |
| AxisBlocks.CancelBlocksPreserves | lstar.ts:103-129 | on a word over N, S, W, E, `opt2` returns such a word with the same N − S and E − W, no longer, shorter by an even number, and empty exactly when the input is |
| AxisBlocks.CanonOfMoveWord | lstar.ts:146 | the canonical form of a move word is a move word, no longer, and empty exactly when the word is |
| AxisBlocks.CanonOfMove | lstar.ts:146 | a single move is its own canonical form |
| AxisBlocks.CanonKeepsNNNSS | lstar.ts:66-83 | "NNNSS" is its own canonical form on every grid |
| ObservationTable.RowCells | lstar.ts:151-154 | a new row has one cell per suffix, cell j being the answer for prefix + suffix j |
| ObservationTable.InitialValid | lstar.ts:16-18 | `{"": ["0"]}`, `{}`, `[""]` satisfies the invariant, holds the answers and is closed |
| ObservationTable.WithoutSpec | lstar.ts:141 | after `delete` the key list stays distinct and holds exactly the other keys |
| ObservationTable.WithoutOrder | lstar.ts:141 | `delete` takes out just that key: the keys before it and after it keep their order, and deleting an absent key changes nothing |
| ObservationTable.AddPrefixKeeps | lstar.ts:145-159 | `addPrefix` keeps the invariant and the answers, leaves main and suffixes alone, keeps every complementary row, and the canonical form becomes a key |
| ObservationTable.AddPrefixIdempotent | lstar.ts:146-149 | a second word with the same canonical form changes nothing |
| ObservationTable.AddPrefixKnown | lstar.ts:147-149 | a word whose canonical form is already a key of either table leaves the table unchanged |
| Promotion.StepKeeps | lstar.ts:139-142 | one promotion moves the key (never copies it), keeps the invariant and answers, and only adds main keys |
| Promotion.PromoteFromCloses | lstar.ts:131-143 | after the pass every complementary row equals some main row |
| Promotion.PromoteSpec | lstar.ts:130-144 | `buildMainPrefixes` keeps the invariant (main rows distinct, partitions disjoint, "" first in main), the answers and the suffixes, keeps main rows, moves rather than copies keys, and leaves the table closed |
| Promotion.PromoteFirstOfEqualRows | lstar.ts:131-143 | of two complementary entries with one new row, the first moves and the second, comparing against main as already extended, stays |
| Promotion.PromoteKeepsLaterEqualRow | lstar.ts:131-143 | on every table, a complementary entry whose row equals that of an earlier entry stays complementary: the earlier one has moved its row into main, or main already held it |
| Promotion.PromoteKeepsCovered | lstar.ts:133-142 | a complementary entry whose row main already holds is not promoted |
| Columns.ExtendKeysSpec | lstar.ts:174-184 | extending distinct keys touches exactly their rows, each gaining one cell |
| Columns.AddColumnKeeps | lstar.ts:171-185 | a new suffix keeps the invariant and answers, keeps every key, and appends to every row the answer for its key followed by the suffix |
| Columns.AddSuffixesWidens | lstar.ts:169-186 | the rounds keep every key and every row's earlier cells |
| Columns.AddSuffixesColumns | lstar.ts:169-186 | the old suffixes stay first; the new ones are non-empty suffixes of the counterexample, shortest first, and every suffix of length 1 to the rounds so far is present |
| Columns.AddSuffixesSpecKeeps | lstar.ts:168-188 | `addSuffixesFromCounterExample` keeps the invariant (distinct suffixes), the answers and every key, leaves the table closed, keeps every main row's earlier cells, appends exactly the missing non-empty suffixes shortest first, and an empty counterexample changes no suffix |
| Extension.AddKeysGrows | lstar.ts:161-165 | the loops keep main and every complementary row, and make the canonical form of every main prefix plus every letter a key |
| Extension.AddKeysOnly | lstar.ts:161-165 | the loops add no key except the canonical form of a main prefix followed by a letter |
| Extension.ExtendSpecKeeps | lstar.ts:160-167 | `extendTable` keeps the invariant, the answers and the suffixes, keeps main rows and every complementary key (in one table or the other), leaves the table closed, makes every one-letter extension of an old main prefix a key, and adds no other key |
| Serialization.ReplaceEmptyWithEpsilon | lstar.ts:190-192 | same length; an entry changes exactly when it is "" and then becomes epsilon |
| Serialization.ReplaceRoundTrip | lstar.ts:190-192 | when epsilon is non-empty and not an entry, replacing back epsilon by "" restores the list |
| Serialization.SplitJoin | lstar.ts:211-213 | space-joined entries without spaces split back into the same entries |
| Serialization.KeyListRoundTrip | lstar.ts:211-213 | a written key list reads back as itself, the empty list being written as "" and every other list as a non-empty string |
| Serialization.TableJsonKeys | lstar.ts:211-216 | the first three strings read back as the main keys, the complementary keys and the suffixes, in order, an empty complementary table included |
| Serialization.TableJsonLength | lstar.ts:200-214 | with one-character answers the fourth string has |main| · |suffixes| + |complementary| · |suffixes| characters |
| Serialization.TableJsonMainCell | lstar.ts:200-204 | with one-character answers, position q · |suffixes| + i of the fourth string is cell i of main row q |
| Serialization.TableJsonBoundaryCell | lstar.ts:205-209 | with one-character answers, position (|main| + q) · |suffixes| + i is cell i of complementary row q |
| Learner.LStar.constructor | lstar.ts:14-23 | the table starts as `{"": ["0"]}`, `{}`, `[""]`, valid and closed, with epsilon "e" and the given alphabet, n and m |
| Learner.LStar.AddPrefix | lstar.ts:145-159 | the fields become `AddPrefixSpec` of the old table, and the invariant and answers hold |
| Learner.LStar.BuildMainPrefixes | lstar.ts:130-144 | the fields become `Promote` of the old table: one pass over the entries as they stood at the start |
| Learner.LStar.PromoteEntry | lstar.ts:132-142 | one entry moves to main exactly when no main row equals its row; other complementary rows stay |
| Learner.LStar.ExtendTable | lstar.ts:160-167 | the fields become `ExtendSpec` of the old table |
| Learner.LStar.AddSuffixesFromCounterExample | lstar.ts:168-188 | the fields become `AddSuffixesSpec` of the old table |
| Learner.LStar.AddColumnOf | lstar.ts:171-185 | a new suffix becomes the last column, and every main and then every complementary row gains its answer |
| Learner.LStar.GetTableJson | lstar.ts:194-217 | returns `TableJson` of the table and changes nothing |
| Learner.RowPresent | lstar.ts:133-138 | the inner loop finds a row exactly when some main row equals it |
| Learner.Ask | lstar.ts:153-154 | a query's cell is the answer, or "" when the request fails or returns null |
| Learner.QueryRow | lstar.ts:150-158 | the row of a new key is `Row(oracle, p, suffixes)`: one answer per suffix, in suffix order |
| Learner.AppendColumn | lstar.ts:174-184 | every row of a table, in key order, gains the answer for its key followed by the suffix |
| Learner.PartText | lstar.ts:200-209 | the cells of a table, row by row in key order, |suffixes| per row |
| Learner.RowCellsText | lstar.ts:201-203 | the first w cells of a row, a missing cell printing as "undefined" |

## Left out

- `session.ts` (the HTTP client behind `checkMembership`, with its timeouts and query counters) is not part of this model; the teacher is the `oracle` parameter.
- `main.ts` (reading the parameters, `parseInt`, timing and the outer learning loop) is not part of this model; n and m are natural numbers.
- Asynchronous answers: the source fires every membership query without waiting, and a `.then` callback never runs before the synchronous method that registered it returns. The model takes each answer when it is asked for, in query order, and stores complete rows. Two consequences of the source as written are therefore not modelled: (1) `buildMainPrefixes`, called at the end of `extendTable` and of `addSuffixesFromCounterExample`, and `getTableJson` called right after `extendTable`, always see each row added by `addPrefix` as `[]` and every row without the column just added, so in `extendTable` the first new key is promoted with an empty row (unless a main row is already empty); (2) the answers of a key promoted before they arrive are lost, because the callback pushes into `complementaryTable[prefix]`, which the `delete` has removed, and the resulting error goes to `.catch`. Promotion.PromoteSpec, Extension.ExtendSpecKeeps and Columns.AddSuffixesSpecKeeps therefore describe the learner with completed rows, not the program as written.
- Console error logging on a failed query is left out; its only effect, an empty cell, is modelled.
- `toString` is display-only formatting and is not modelled.
- Key order is insertion order for every key. JavaScript objects list integer-like keys (such as "1" or "12") first, in ascending order, ahead of all other keys. An alphabet with digits can produce such keys, and for them the model's key order differs from the source's: it changes which of two equal complementary rows `buildMainPrefixes` promotes, and the order in which `getTableJson` writes the keys. Over the moves N, S, W and E no key is integer-like.
- Row comparison through `JSON.stringify` is modelled as equality of the string sequences, which it is for arrays of strings.
- The alphabet is the sequence of characters of `alphabetStr`; `split("")` on characters outside the Basic Multilingual Plane is not modelled.
- RunCapping.CapRunsIdempotent, RunCapping.CapRunsKeepsRuns, RunCapping.CapRunsBounds: stated for words without '#', because the scan starts with '#' as its last letter and so drops a leading '#' run's first letter.
- AxisBlocks.CancelBlocksPreserves: stated for words over N, S, W and E only; the blocking of other letters (their axis lookup gives `undefined`) is modelled but nothing is proved about it.
- Serialization.TableJsonMainCell, Serialization.TableJsonBoundaryCell, Serialization.TableJsonLength: locate cells by position only when every answer is one character, since longer answers shift every later cell.
- Serialization.TableJsonKeys: reads the key lists back only when no key holds a space or equals epsilon, since such a key makes the written string ambiguous (it splits into two keys, or reads back as the empty word).
