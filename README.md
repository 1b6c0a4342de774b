# stockratio-classifier, modelled in Dafny

stockratio-classifier reads a CSV of company fundamentals and normalises each row:
- the unnamed index column becomes `id`;
- every column name is converted to camelCase;
- rows whose ratio is `null` are dropped;
- each row is enriched with the GICS sector and sub-industry of the security that has the same ticker.

It then computes, for one ratio (e.g. `currentRatio`), a table
`sub-industry -> period -> { ratio, count, values, average }` over the rows of each
(sub-industry, period) pair. The work is done by data procedures (`src/procedures.ts`) chained by a
left-to-right `pipe` (`src/utils.ts`), inside a small immutable wrapper `Parser`
(`src/parser.ts`).

The Dafny project has these modules:

| file | module | models |
|---|---|---|
| `rows.dfy` | `Rows` | JavaScript objects as insertion-ordered field lists. It covers property read, `{...o, [k]: v}`, rest destructuring and object spread. |
| `seqs.dfy` | `Seqs` | `Array.prototype.filter` and numeric summation, with order, multiplicity and permutation facts. |
| `results.dfy` | `Results` | Exceptions as `Err` values. |
| `utils.dfy` | `Utils` | `pipe`. |
| `procedures.dfy` | `Procedures` | `convertKeysToCamelCase`, `fixIndex`, `mergeFromSecurities`, `makeAverage`, `filterNull`, `filterSingles`. |
| `parser.dfy` | `ParserWrapper` | The `Parser` wrapper: `value`, `mutate`, the callback dispatch of `toJson`, and `extractAverages` (an imperative loop over a local nested map). |
| `scenarios.dfy` | `Scenarios` | The pipeline as `src/index.ts` wires it, plus worked examples. |

Modelling choices:
- **Rows.** A row is a `seq<Field>`, not a map, because the key-renaming loop's "last write wins" behaviour depends on key order.
- **Values.** A field holds `Null`, `Undefined`, a number or a string. `Undefined` is stored explicitly by `{ id, ...rest }` when a row has no index column.
- **Exceptions.** Every exception the source can raise is an `Err`:
  - `UnmatchedTicker` when `find` returns `undefined`;
  - `NullishLength` when `.length` is read on `null`/`undefined`;
  - `NotAFunction` when `mutate` calls a non-function.

  A CSV that fails to parse gives whatever `Err` the parameter `parse` returns.
- **Parameters.** lodash's `camelCase` is the parameter `camel`. Reading and parsing the CSV stream is the parameter `parse` of `ToJson`.

## Model

Each function that carries the model (`Rows.Assign`, `Utils.Pipe`, `Procedures.CamelCased`, `Procedures.MakeAverage`, `Procedures.MergeFromSecurities`, `Procedures.FilterNull`, `Procedures.FilterSingles`, `ParserWrapper.Mutate`, `ParserWrapper.ToJson`) is represented by the lemma rows that name it. Those rows cite the function's source lines.

| member | source | states |
|---|---|---|
| `Rows.Get` | src/procedures.ts:39 | Reading a property that a row lacks yields `undefined`. |
| `Rows.GetFirst` | src/procedures.ts:39 | A property read returns the value of the first field carrying the key. |
| `Rows.Put` | src/procedures.ts:26 | `{...o, [k]: v}` has the old keys plus `k`. It keeps the length when `k` existed and appends the new field last otherwise. |
| `Rows.GetPutSame` | src/procedures.ts:26 | After `{...o, [k]: v}`, reading `k` gives `v`. |
| `Rows.GetPutOther` | src/procedures.ts:26 | After `{...o, [k]: v}`, every other key reads as before. |
| `Rows.PutKeepsDistinct` | src/procedures.ts:26 | Writing a property never creates a duplicate key. |
| `Rows.PutKeyOrder` | src/procedures.ts:26 | Writing an existing key keeps the key order. Writing a new key appends it last. |
| `Rows.Remove` | src/procedures.ts:11 | `const { "": id, ...rest }` gives a `rest` with every key but the index key, and no more fields. |
| `Procedures.RemoveIsFilter` | src/procedures.ts:11 | `rest` is exactly the fields whose key is not the index key, with their values, in their original order. |
| `Rows.GetRemove` | src/procedures.ts:11 | Every key other than the index key reads in `rest` as in the row. |
| `Rows.RemoveKeepsDistinct` | src/procedures.ts:11 | `rest` of a row without duplicate keys has none. |
| `Rows.GetAssign` | src/procedures.ts:12 | In `{ id, ...rest }`, a key of `rest` reads `rest`'s value (overriding `id` if `rest` has one) and any other key reads the first part's value. |
| `Rows.AssignKeepsDistinct` | src/procedures.ts:12 | The spread never creates a duplicate key. |
| `Rows.AssignKeys` | src/procedures.ts:12 | The keys of `{ id, ...rest }` are the keys of both parts. |
| `Rows.AssignKeepsHead` | src/procedures.ts:12 | Spreading fields that do not mention the first key leaves that first field in front. |
| `Rows.AssignToEmpty` | src/procedures.ts:12 | Spreading a row with distinct keys into an empty object reproduces that row, field order included. |
| `Seqs.Filter` | src/procedures.ts:90 | `filter` never returns more elements than it got. |
| `Seqs.FilterConcat` | src/procedures.ts:90 | `filter` distributes over concatenation. |
| `Seqs.FilterCount` | src/procedures.ts:90 | `filter` keeps every copy of an element that passes the test and no copy of one that fails. |
| `Seqs.FilterIsSubsequence` | src/procedures.ts:90 | `filter` keeps the input order. |
| `Seqs.SumConcat` | src/procedures.ts:72 | The running sum of a concatenation is the sum of the parts. |
| `Seqs.SumPermutation` | src/procedures.ts:72 | The sum of the values does not depend on their order. |
| `Utils.PipeEmpty` | src/utils.ts:4-5 | `pipe()` returns its input. |
| `Utils.PipeSingle` | src/utils.ts:4-5 | `pipe(f)` is `f`. |
| `Utils.PipeSnoc` | src/utils.ts:4-5 | Appending a function applies it last to the result so far, and an earlier exception skips it. |
| `Utils.PipeAppend` | src/utils.ts:4-5 | Piping a concatenation pipes the second part on the output of the first. |
| `Procedures.ConvertKeysToCamelCase` | src/procedures.ts:21-29 | The loop builds the row that writes each field, in order, under its camelCased name. Its keys are exactly the camelCased input keys, none twice. |
| `Procedures.CamelCasedKeys` | src/procedures.ts:21-29 | The renamed row's key set is the image of the input key set. |
| `Procedures.CamelCasedDistinct` | src/procedures.ts:21-29 | The renamed row never holds a key twice, whatever the renaming does. |
| `Procedures.CamelCasedLastWins` | src/procedures.ts:23-27 | When several keys camelCase to one name, the value of the last of them is kept. |
| `Procedures.CamelCasedIdempotentKeys` | src/procedures.ts:21-29 | Renaming twice gives the same keys as renaming once, when the renaming is idempotent on the row's own keys. |
| `Procedures.FixRowIdempotentKeys` | src/procedures.ts:7-15 | Running `fixIndex`'s row normalisation twice gives the same keys as running it once. This holds when camelCase, on `id` and on the row's other keys, is idempotent and never yields the empty index-column name. |
| `Procedures.FixIndex` | src/procedures.ts:7-15 | One output row per input row. Row i is built from input row i alone: the index column is promoted to `id` and the keys are camelCased. |
| `Procedures.FixRowKeys` | src/procedures.ts:11-12 | The normalised row has the renamed `id` key and the renamed keys of every other column. The index column is gone. |
| `Procedures.GetDistinct` | src/procedures.ts:25 | In a row without duplicate keys, a key it has is carried by exactly one field, whose value a read returns. |
| `Procedures.FixRowValue` | src/procedures.ts:7-15 | Every column other than the index keeps its original value under its camelCased name, unless camelCase sends two keys of `{ id, ...rest }` to one name (a column `ID` colliding with the promoted `id` included). |
| `Procedures.PromotedShape` | src/procedures.ts:11-12 | Without an `id` column, `{ id, ...rest }` puts `id` first and after it only the row's other columns, never the index column. |
| `Procedures.PromotedIsIdThenRest` | src/procedures.ts:11-12 | For a row with distinct keys and no `id` column, `{ id, ...rest }` is `id` followed by the row's other columns, with their values, in their original order. |
| `Procedures.FixRowId` | src/procedures.ts:11-12 | When `camelCase` keeps `id` and no other column becomes `id`, the row's `id` holds the old index value (`undefined` if there was none). |
| `Procedures.FindSecuritySpec` | src/procedures.ts:38-40 | `find` returns nothing exactly when no security carries the ticker. Otherwise it returns the first security that does. |
| `Procedures.EnrichSpec` | src/procedures.ts:41 | `{ ...o, gicsSector, gicsSubIndustry }`:<br>- both fields are taken from the security;<br>- every other field is unchanged;<br>- the key set only grows by the two keys;<br>- no duplicate key appears. |
| `Procedures.MergeFromSecuritiesSucceeds` | src/procedures.ts:36-44 | The merge returns normally exactly when every row's ticker has a security. |
| `Procedures.MergeFromSecuritiesRows` | src/procedures.ts:37-42 | A successful merge maps row i to row i enriched from the first security with its ticker. |
| `Procedures.MergeFromSecuritiesFails` | src/procedures.ts:38-41 | A failing merge reports the ticker of the first unmatched row. |
| `Procedures.NumericConcat` | src/procedures.ts:63-70 | The ratios of the group are numeric in a concatenation exactly when they are numeric in both parts. |
| `Procedures.GroupRatiosConcat` | src/procedures.ts:63-70 | The group's values over a concatenation are those of the first part followed by those of the second. |
| `Procedures.MakeAverageSpec` | src/procedures.ts:54-87 | `makeAverage` returns:<br>- the ratio name;<br>- `count` equal to the number of rows in the (sub-industry, period) group;<br>- `values` equal to their ratios in input order;<br>- `average` equal to the mean of `values`.<br>With no matching row it returns the initial accumulator. |
| `Procedures.GroupMemberCounted` | src/procedures.ts:63-66 | A row of the group is always counted. |
| `Procedures.GroupRatiosRemove` | src/procedures.ts:63-70 | Taking one row out takes out its value and nothing else. |
| `Procedures.NumericPermutation` | src/procedures.ts:63-70 | Reordering the rows keeps the group's ratios numeric. |
| `Procedures.GroupRatiosPermutation` | src/procedures.ts:63-70 | Reordering the rows only reorders the group's values. |
| `Procedures.MakeAveragePermutation` | src/procedures.ts:54-87 | Ratio, count and average do not depend on the row order, and `values` only changes order. |
| `Procedures.FilterNullSpec` | src/procedures.ts:89-90 | `filterNull` keeps, in order and with multiplicity, exactly the rows whose field is not `null`. This includes the rows that lack the field. It distributes over concatenation. |
| `Procedures.FilterSinglesSpec` | src/procedures.ts:92-93 | `filterSingles` throws exactly when some row's field is `null` or missing. Otherwise it keeps, in order, exactly the rows whose field is a string of length two or more. |
| `Procedures.FilterSinglesIsFilter` | src/procedures.ts:92-93 | When it does not throw, `filterSingles` is a plain `filter` with the length test. |
| `ParserWrapper.ValueRoundTrip` | src/parser.ts:24-26 | `Parser(v).value()` is `v`, and re-wrapping the value of a wrapper gives an equal wrapper. |
| `ParserWrapper.MutateWithoutFunction` | src/parser.ts:116-122 | `mutate` with no callback, or an empty array, throws. It does not return the instance unchanged. |
| `ParserWrapper.MutateSingleIsMany` | src/parser.ts:118-121 | A single callback and a one-element array give the same result. |
| `ParserWrapper.MutateComposes` | src/parser.ts:118-119 | `mutate(fs ++ gs)` equals `mutate(fs)` followed by `mutate(gs)`. |
| `ParserWrapper.ToJsonIsParseThenMutate` | src/parser.ts:54-72 | `toJson`:<br>- gives `undefined` when parsing fails;<br>- keeps the parsed data when there is no function to call;<br>- otherwise is `mutate` on the parsed data, with any exception turned into `undefined`. |
| `ParserWrapper.ToJsonLeftToRight` | src/parser.ts:60-63 | With two callbacks, the second receives the output of the first. |
| `ParserWrapper.SubIndustriesSnoc` | src/parser.ts:97-98 | One more row adds its own sub-industry to the table's sub-industries. |
| `ParserWrapper.PeriodsSnoc` | src/parser.ts:98-100 | One more row adds its period to its own sub-industry only. |
| `ParserWrapper.LeavesSnoc` | src/parser.ts:98-106 | One more row adds or rewrites the leaf of its own pair, inside its own sub-industry. |
| `ParserWrapper.NoLeavesOutsideTable` | src/parser.ts:98-99 | A sub-industry that no row names has no periods. |
| `ParserWrapper.TableSnoc` | src/parser.ts:97-107 | One loop step writes `makeAverage` of the row's own pair and keeps every other leaf. |
| `ParserWrapper.ExtractAverages` | src/parser.ts:94-109 | The loop yields the table with one leaf per (sub-industry, period) pair of the rows. Each leaf is `makeAverage` of that pair over all the rows. |
| `ParserWrapper.AveragesPairs` | src/parser.ts:97-107 | The table's pairs are exactly the (sub-industry, period) pairs occurring in the rows. |
| `ParserWrapper.PairWitness` | src/parser.ts:97-107 | Each pair of the table comes from a row of the dataset. |
| `ParserWrapper.AveragesLeaf` | src/parser.ts:100-105 | A single leaf is `makeAverage` of its own pair, with count at least one and average the mean of its values. |
| `ParserWrapper.AveragesLeaves` | src/parser.ts:100-105 | Every leaf is `makeAverage` of its own pair, counts at least one row, has one value per counted row, and averages them. |
| `ParserWrapper.AveragesPermutation` | src/parser.ts:94-109 | Reordering the rows changes no pair, no ratio, no count and no average. Each leaf's values are only reordered. |
| `Scenarios.EntryPointChain` | src/index.ts:16-18 | `toJson([fixIndex, filterNull(prop), mergeFromSecurities(securities)])` normalises, then filters, then enriches. A parse failure or an unmatched ticker gives `undefined`. |
| `Scenarios.EntryPoint` | src/index.ts:16-20 | The whole entry point yields the averages table of the normalised, filtered and enriched rows, or nothing when parsing fails or a ticker is unmatched. |
| `Scenarios.TwoRowAverage` | src/procedures.ts:54-87 | Two rows of one group with ratios x and y give count 2, values `[x, y]` and average (x + y) / 2. |
| `Scenarios.SingleLeafTable` | src/parser.ts:94-109 | Rows that all name one (sub-industry, period) pair give a table with exactly that leaf. |
| `Scenarios.TwoRowGroupExample` | src/parser.ts:94-109 | Two rows of one pair give a table with exactly that one leaf. |
| `Scenarios.NullRowExample` | src/procedures.ts:89-90 | A row with a `null` ratio is dropped, so a sub-industry only it carried never reaches the table. |
| `Scenarios.EnrichTickerOnly` | src/procedures.ts:41 | A row with only a ticker gains the sector, then the sub-industry, in that order. |
| `Scenarios.EnrichExample` | src/procedures.ts:36-44 | Merging a row whose ticker matches returns that row with the security's two fields appended. |
| `Scenarios.UnmatchedTickerExample` | src/procedures.ts:36-44 | One unmatched row makes the whole merge throw, even after a matched row. |

## Left out

- **Reading and writing files.** `loadCsv` (a read stream), PapaParse's `parsePromise`, and `save` (`fs.writeFile`; it returns the instance unchanged) are I/O. Parsing is the parameter `parse` of `ToJson`; the files themselves are not modelled.
- **Asynchrony.** `toJson` is `async`. The model computes its settled value; promise scheduling and `console.log` are not modelled.
- **camelCase.** lodash `camelCase` is an opaque function parameter. Its word-splitting rules are not modelled; the properties that need it to keep `id` say so in their preconditions. lodash maps a key with no letters or digits to `""`, the index-column name; `FixRowIdempotentKeys` therefore requires that camelCase yields `""` for none of the row's own keys and for `id`. Both idempotence lemmas ask for idempotence only on the keys the renaming sees, since lodash is not idempotent on every string.
- **Number representation.** Numbers are Dafny reals. IEEE double rounding in the sums and the division of `makeAverage` is not modelled.
- **JavaScript coercions.** `makeAverage` and `ExtractAverages` require that the ratio of every relevant row is a number and that every row has string labels. Without that, JavaScript would concatenate strings, yield `NaN`, or coerce a non-string label to a key such as `"undefined"`; none of these coercions is modelled.
- **Integer-like keys.** JavaScript enumerates such keys (e.g. `"2012"`) before other keys, whatever the insertion order. The model keeps insertion order for all keys.
- **Key order of the averages table.** It is a Dafny map, so the key order of the written JSON is not modelled.
- **String length units.** `filterSingles` uses the Dafny sequence length. UTF-16 code units are not distinguished from characters.
- **Instance tag.** The `__typeclass` tag of `Parser` is not modelled.
- **Excluded files.** The Express server in `src/index.ts` (lines 14 and 22-30) and `src/classes.ts` are not part of this model. The pipeline in `src/index.ts` lines 16-20 is modelled by `Scenarios.EntryPointChain` and `Scenarios.EntryPoint`, with `save` returning its instance and the file write and the `catch` logging left out.
- **Booleans.** The CSV parser runs with `dynamicTyping: true` (`src/utils.ts` line 12), which turns `true`/`false` cells into booleans. Values have no boolean case, so rows carrying booleans are outside what `parse` can return in this model.
- `ParserWrapper.ExtractAverages` and `Scenarios.EntryPoint`: the source documents that `gicsSubIndustry` must exist on every row it iterates (src/parser.ts line 88). `Labelled` models that requirement, and states it more strongly: the sub-industry must be a string, and so must `periodEnding`. The numeric-ratio requirement `RatiosNumeric` is the model's own addition. `EntryPoint` places the same two requirements on the merged rows. Without them, JavaScript would coerce labels and ratios as described on the JavaScript coercions line above.
- `Procedures.MakeAverageSpec`: is stated only when the ratios of the group's rows are numbers (`GroupRatiosNumeric`). For other values, JavaScript's `+` coercions are not modelled.
