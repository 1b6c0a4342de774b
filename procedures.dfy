/**
 * The row transforms of the pipeline: key normalisation (`fixIndex`,
 * `convertKeysToCamelCase`), enrichment from the securities dataset
 * (`mergeFromSecurities`), the per-group average (`makeAverage`) and the two
 * field filters (`filterNull`, `filterSingles`).
 *
 * lodash's `camelCase` is not modelled; it is the parameter `camel`.
 */
module Procedures {
  import opened Rows
  import opened Seqs
  import opened Results

  const IndexKey := ""            // the unnamed index column of the CSV file
  const IdKey := "id"
  const TickerKey := "tickerSymbol"
  const SectorKey := "gicsSector"
  const SubIndustryKey := "gicsSubIndustry"
  const PeriodKey := "periodEnding"

  // ---------------------------------------------------------------------------
  // convertKeysToCamelCase

  /** The image of a key set under the renaming. */
  function Image(camel: string -> string, ks: set<string>): set<string>
  {
    set k | k in ks :: camel(k)
  }

  /** The row that the renaming loop builds: each field, in order, written under its new name. */
  function CamelCased(camel: string -> string, r: Row): Row
    decreases |r|
  {
    if r == [] then []
    else Put(CamelCased(camel, r[..|r| - 1]), camel(r[|r| - 1].key), r[|r| - 1].val)
  }

  /** `convertKeysToCamelCase`: rebuild the row key by key, later keys overwriting earlier ones. */
  method ConvertKeysToCamelCase(camel: string -> string, data: Row) returns (edited: Row)
    ensures edited == CamelCased(camel, data)
    ensures Keys(edited) == Image(camel, Keys(data))
    ensures DistinctKeys(edited)
  {
    edited := [];
    for i := 0 to |data|
      invariant edited == CamelCased(camel, data[..i])
    {
      var newKey := camel(data[i].key);
      var value := data[i].val;
      edited := Put(edited, newKey, value);
      assert data[..i + 1][..i] == data[..i];
    }
    assert data[..|data|] == data;
    CamelCasedKeys(camel, data);
    CamelCasedDistinct(camel, data);
  }

  /** Renaming one more key adds its new name to the image. */
  lemma ImageAdd(camel: string -> string, ks: set<string>, k: string)
    ensures Image(camel, ks + {k}) == Image(camel, ks) + {camel(k)}
  {
  }

  /** The renamed row has exactly the renamed keys. */
  lemma {:induction false} CamelCasedKeys(camel: string -> string, r: Row)
    ensures Keys(CamelCased(camel, r)) == Image(camel, Keys(r))
    decreases |r|
  {
    if r != [] {
      var init, last := r[..|r| - 1], r[|r| - 1];
      CamelCasedKeys(camel, init);
      assert Keys(r) == Keys(init) + {last.key} by {
        assert r == init + [last];
      }
      assert Keys(CamelCased(camel, r)) == Keys(CamelCased(camel, init)) + {camel(last.key)};
      ImageAdd(camel, Keys(init), last.key);
    }
  }

  /** The renamed row never holds a key twice, whatever the renaming. */
  lemma {:induction false} CamelCasedDistinct(camel: string -> string, r: Row)
    ensures DistinctKeys(CamelCased(camel, r))
    decreases |r|
  {
    if r != [] {
      CamelCasedDistinct(camel, r[..|r| - 1]);
      PutKeepsDistinct(CamelCased(camel, r[..|r| - 1]), camel(r[|r| - 1].key), r[|r| - 1].val);
    }
  }

  /**
   * Under each new name sits the value of the LAST input field renamed to it:
   * field i wins when no later field maps to the same name.
   */
  lemma {:induction false} CamelCasedLastWins(camel: string -> string, r: Row, i: nat)
    requires i < |r|
    requires forall j | i < j < |r| :: camel(r[j].key) != camel(r[i].key)
    ensures Get(CamelCased(camel, r), camel(r[i].key)) == r[i].val
    decreases |r|
  {
    var init, last := r[..|r| - 1], r[|r| - 1];
    if i == |r| - 1 {
      GetPutSame(CamelCased(camel, init), camel(last.key), last.val);
    } else {
      GetPutOther(CamelCased(camel, init), camel(last.key), last.val, camel(r[i].key));
      CamelCasedLastWins(camel, init, i);
    }
  }

  /** Renaming twice gives the same key set as renaming once, when the renaming is idempotent on the row's keys. */
  lemma CamelCasedIdempotentKeys(camel: string -> string, r: Row)
    requires forall k | k in Keys(r) :: camel(camel(k)) == camel(k)
    ensures Keys(CamelCased(camel, CamelCased(camel, r))) == Keys(CamelCased(camel, r))
  {
    CamelCasedKeys(camel, r);
    CamelCasedKeys(camel, CamelCased(camel, r));
    var once := Image(camel, Keys(r));
    forall k | k in Image(camel, once) ensures k in once {
      var k' :| k' in once && k == camel(k');
      var k0 :| k0 in Keys(r) && k' == camel(k0);
      assert k == camel(camel(k0));
    }
    forall k | k in once ensures k in Image(camel, once) {
      var k0 :| k0 in Keys(r) && k == camel(k0);
      assert camel(k) == camel(camel(k0));
    }
  }

  // ---------------------------------------------------------------------------
  // fixIndex

  /** `const { "": id, ...rest } = row;` then `{ id, ...rest }`. */
  function Promoted(row: Row): Row
  {
    Assign([Field(IdKey, Get(row, IndexKey))], Remove(row, IndexKey))
  }

  /** One row of `fixIndex`'s output. */
  function FixRow(camel: string -> string, row: Row): Row
  {
    CamelCased(camel, Promoted(row))
  }

  /** The whole output of `fixIndex`, for use in specifications. */
  function FixIndexed(camel: string -> string, data: Dataset): Dataset
  {
    seq(|data|, i requires 0 <= i < |data| => FixRow(camel, data[i]))
  }

  /** `fixIndex`: one normalised row per input row, row i built from input row i alone. */
  method FixIndex(camel: string -> string, data: Dataset) returns (edited: Dataset)
    ensures |edited| == |data|
    ensures forall i | 0 <= i < |data| :: edited[i] == FixRow(camel, data[i])
  {
    edited := [];
    for i := 0 to |data|
      invariant |edited| == i
      invariant forall j | 0 <= j < i :: edited[j] == FixRow(camel, data[j])
    {
      var converted := ConvertKeysToCamelCase(camel, Promoted(data[i]));
      edited := edited + [converted];
    }
  }

  /** The normalised row's keys: the renamed "id" plus the renamed keys other than the index column. */
  lemma FixRowKeys(camel: string -> string, row: Row)
    ensures Keys(FixRow(camel, row)) == {camel(IdKey)} + Image(camel, Keys(row) - {IndexKey})
  {
    AssignKeys([Field(IdKey, Get(row, IndexKey))], Remove(row, IndexKey));
    assert Keys([Field(IdKey, Get(row, IndexKey))]) == {IdKey};
    CamelCasedKeys(camel, Promoted(row));
  }

  /**
   * Normalising a normalised row again gives the same key set, when camelCase is idempotent
   * on "id" and on the row's other keys, and sends none of them to the empty name of the index
   * column (lodash gives "" for a key with no letters or digits, and a second pass would
   * promote that column into "id").
   */
  lemma FixRowIdempotentKeys(camel: string -> string, row: Row)
    requires forall k | k in (Keys(row) - {IndexKey}) + {IdKey} :: camel(camel(k)) == camel(k) && camel(k) != IndexKey
    ensures Keys(FixRow(camel, FixRow(camel, row))) == Keys(FixRow(camel, row))
  {
    var once := FixRow(camel, row);
    var others := Image(camel, Keys(row) - {IndexKey});
    FixRowKeys(camel, row);
    FixRowKeys(camel, once);
    assert IndexKey !in Keys(once);
    assert Keys(once) - {IndexKey} == Keys(once);
    forall k | k in Image(camel, Keys(once)) ensures k in Keys(once) {
      var k' :| k' in Keys(once) && k == camel(k');
      if k' == camel(IdKey) {
        assert k == camel(camel(IdKey));
      } else {
        var k0 :| k0 in Keys(row) - {IndexKey} && k' == camel(k0);
        assert k == camel(camel(k0));
      }
    }
    forall k | k in Keys(once) ensures k in Image(camel, Keys(once)) {
      if k == camel(IdKey) {
        assert camel(k) == k;
      } else {
        var k0 :| k0 in Keys(row) - {IndexKey} && k == camel(k0);
        assert camel(k) == k;
      }
    }
  }

  /** Without an "id" column, `{ id, ...rest }` puts `id` first and only other columns after it. */
  lemma PromotedShape(row: Row)
    requires IdKey !in Keys(row)
    ensures |Promoted(row)| >= 1 && Promoted(row)[0] == Field(IdKey, Get(row, IndexKey))
    ensures forall j | 0 < j < |Promoted(row)| :: Promoted(row)[j].key in Keys(row) && Promoted(row)[j].key != IndexKey
  {
    var head := Field(IdKey, Get(row, IndexKey));
    var rest := Remove(row, IndexKey);
    assert IdKey !in Keys(rest);
    AssignKeepsHead(head, [], rest);
    var tail := Assign([], rest);
    AssignKeys([], rest);
    assert Keys(tail) == Keys(row) - {IndexKey};
    var p := Promoted(row);
    assert p == [head] + tail;
    forall j | 0 < j < |p| ensures p[j].key in Keys(row) && p[j].key != IndexKey {
      assert p[j] == tail[j - 1];
      assert tail[j - 1] in tail;
      assert p[j].key in Keys(tail);
    }
  }

  /**
   * For a row without duplicate keys and without an "id" column, `{ id, ...rest }` is `id`
   * followed by the row's other columns, with their values and in their original order.
   */
  lemma PromotedIsIdThenRest(row: Row)
    requires DistinctKeys(row) && IdKey !in Keys(row)
    ensures Promoted(row) == [Field(IdKey, Get(row, IndexKey))] + Remove(row, IndexKey)
  {
    var head := Field(IdKey, Get(row, IndexKey));
    var rest := Remove(row, IndexKey);
    assert [head] + [] == [head];
    AssignKeepsHead(head, [], rest);
    RemoveKeepsDistinct(row, IndexKey);
    AssignToEmpty(rest);
  }

  /**
   * When camelCase leaves "id" alone and no other column is renamed to "id",
   * the output row has an "id" field holding the index column's value
   * (Undefined when the row had no index column).
   */
  lemma FixRowId(camel: string -> string, row: Row)
    requires camel(IdKey) == IdKey
    requires forall k | k in Keys(row) && k != IndexKey :: camel(k) != IdKey
    ensures IdKey in Keys(FixRow(camel, row))
    ensures Get(FixRow(camel, row), IdKey) == Get(row, IndexKey)
  {
    FixRowKeys(camel, row);
    assert IdKey !in Keys(row);
    PromotedShape(row);
    var p := Promoted(row);
    forall j | 0 < j < |p| ensures camel(p[j].key) != camel(p[0].key) {
    }
    CamelCasedLastWins(camel, p, 0);
  }

  function KeyIsNot(k: string): Field -> bool
  {
    (f: Field) => f.key != k
  }

  /** Rest destructuring keeps every other field, with its value, in its original order. */
  lemma {:induction false} RemoveIsFilter(r: Row, k: string)
    ensures Remove(r, k) == Filter(KeyIsNot(k), r)
  {
    if r != [] {
      RemoveIsFilter(r[1..], k);
    }
  }

  /** A row without duplicate keys holds, under a key it has, the value of the field carrying it. */
  lemma GetDistinct(r: Row, k: string) returns (i: nat)
    requires DistinctKeys(r) && k in Keys(r)
    ensures i < |r| && r[i].key == k && Get(r, k) == r[i].val
    ensures forall j | 0 <= j < |r| && j != i :: r[j].key != k
  {
    var f :| f in r && f.key == k;
    i :| 0 <= i < |r| && r[i] == f;
    GetFirst(r, k, i);
  }

  /**
   * Every column other than the index keeps its value, under its camelCased name,
   * provided camelCase does not send two of the row's keys to the same name.
   */
  lemma FixRowValue(camel: string -> string, row: Row, c: string)
    requires DistinctKeys(row)
    requires c in Keys(row) && c != IndexKey
    requires forall a, b | a in Keys(Promoted(row)) && b in Keys(Promoted(row)) && a != b :: camel(a) != camel(b)
    ensures Get(FixRow(camel, row), camel(c)) == Get(row, c)
  {
    var head := [Field(IdKey, Get(row, IndexKey))];
    var rest := Remove(row, IndexKey);
    var p := Promoted(row);
    RemoveKeepsDistinct(row, IndexKey);
    GetAssign(head, rest, c);
    GetRemove(row, IndexKey, c);
    assert Get(p, c) == Get(row, c);
    AssignKeepsDistinct(head, rest);
    AssignKeys(head, rest);
    assert c in Keys(p);
    var i := GetDistinct(p, c);
    forall j | i < j < |p| ensures camel(p[j].key) != camel(p[i].key) {
      assert p[j] in p;
    }
    CamelCasedLastWins(camel, p, i);
  }

  // ---------------------------------------------------------------------------
  // mergeFromSecurities

  /** There is a security carrying this ticker. */
  predicate HasSecurity(securities: Dataset, ticker: Value)
  {
    exists j | 0 <= j < |securities| :: Get(securities[j], TickerKey) == ticker
  }

  /** `securities.find(e => e.tickerSymbol === ticker)`. */
  function FindSecurity(securities: Dataset, ticker: Value): Option<Row>
  {
    if securities == [] then None
    else if Get(securities[0], TickerKey) == ticker then Some(securities[0])
    else FindSecurity(securities[1..], ticker)
  }

  /** `find` fails exactly when no security carries the ticker, and otherwise returns the first that does. */
  lemma {:induction false} FindSecuritySpec(securities: Dataset, ticker: Value)
    ensures FindSecurity(securities, ticker).None? <==> !HasSecurity(securities, ticker)
    ensures FindSecurity(securities, ticker).Some? ==> exists j | 0 <= j < |securities| ::
      && securities[j] == FindSecurity(securities, ticker).value
      && Get(securities[j], TickerKey) == ticker
      && forall k | 0 <= k < j :: Get(securities[k], TickerKey) != ticker
  {
    if securities != [] && Get(securities[0], TickerKey) != ticker {
      var tail := securities[1..];
      FindSecuritySpec(tail, ticker);
      if HasSecurity(securities, ticker) {
        var j :| 0 <= j < |securities| && Get(securities[j], TickerKey) == ticker;
        assert tail[j - 1] == securities[j];
      }
      if HasSecurity(tail, ticker) {
        var j :| 0 <= j < |tail| && Get(tail[j], TickerKey) == ticker;
        assert tail[j] == securities[j + 1];
      }
      if FindSecurity(tail, ticker).Some? {
        var j :| 0 <= j < |tail|
          && tail[j] == FindSecurity(tail, ticker).value
          && Get(tail[j], TickerKey) == ticker
          && forall k | 0 <= k < j :: Get(tail[k], TickerKey) != ticker;
        assert securities[j + 1] == tail[j];
        forall k | 0 <= k < j + 1 ensures Get(securities[k], TickerKey) != ticker {
          if k > 0 { assert securities[k] == tail[k - 1]; }
        }
      }
    }
  }

  /** `{ ...o, gicsSector, gicsSubIndustry }` with both fields taken from the security e. */
  function Enrich(o: Row, e: Row): Row
  {
    Put(Put(o, SectorKey, Get(e, SectorKey)), SubIndustryKey, Get(e, SubIndustryKey))
  }

  /** Enrichment overwrites the two classification fields and leaves every other field as it was. */
  lemma EnrichSpec(o: Row, e: Row)
    ensures Get(Enrich(o, e), SectorKey) == Get(e, SectorKey)
    ensures Get(Enrich(o, e), SubIndustryKey) == Get(e, SubIndustryKey)
    ensures forall k | k != SectorKey && k != SubIndustryKey :: Get(Enrich(o, e), k) == Get(o, k)
    ensures Keys(Enrich(o, e)) == Keys(o) + {SectorKey, SubIndustryKey}
    ensures DistinctKeys(o) ==> DistinctKeys(Enrich(o, e))
  {
    var o1 := Put(o, SectorKey, Get(e, SectorKey));
    GetPutSame(o, SectorKey, Get(e, SectorKey));
    GetPutOther(o1, SubIndustryKey, Get(e, SubIndustryKey), SectorKey);
    GetPutSame(o1, SubIndustryKey, Get(e, SubIndustryKey));
    forall k | k != SectorKey && k != SubIndustryKey ensures Get(Enrich(o, e), k) == Get(o, k) {
      GetPutOther(o, SectorKey, Get(e, SectorKey), k);
      GetPutOther(o1, SubIndustryKey, Get(e, SubIndustryKey), k);
    }
    if DistinctKeys(o) {
      PutKeepsDistinct(o, SectorKey, Get(e, SectorKey));
      PutKeepsDistinct(o1, SubIndustryKey, Get(e, SubIndustryKey));
    }
  }

  /**
   * `mergeFromSecurities(securities)(rows)`: `rows.map` enriching each row in turn;
   * the first row whose ticker no security carries throws, and nothing is returned.
   */
  function MergeFromSecurities(securities: Dataset, rows: Dataset): Result<Dataset>
  {
    if rows == [] then Ok([])
    else
      var ticker := Get(rows[0], TickerKey);
      match FindSecurity(securities, ticker)
      case None => Err(UnmatchedTicker(ticker))
      case Some(e) =>
        match MergeFromSecurities(securities, rows[1..])
        case Err(err) => Err(err)
        case Ok(tail) => Ok([Enrich(rows[0], e)] + tail)
  }

  /** The merge succeeds exactly when every row's ticker is carried by some security. */
  lemma {:induction false} MergeFromSecuritiesSucceeds(securities: Dataset, rows: Dataset)
    ensures MergeFromSecurities(securities, rows).Ok? <==>
      forall i | 0 <= i < |rows| :: HasSecurity(securities, Get(rows[i], TickerKey))
  {
    if rows != [] {
      FindSecuritySpec(securities, Get(rows[0], TickerKey));
      MergeFromSecuritiesSucceeds(securities, rows[1..]);
      if MergeFromSecurities(securities, rows).Ok? {
        forall i | 0 <= i < |rows| ensures HasSecurity(securities, Get(rows[i], TickerKey)) {
          if i > 0 { assert rows[i] == rows[1..][i - 1]; }
        }
      } else if HasSecurity(securities, Get(rows[0], TickerKey)) {
        var i :| 0 <= i < |rows[1..]| && !HasSecurity(securities, Get(rows[1..][i], TickerKey));
        assert rows[i + 1] == rows[1..][i];
      }
    }
  }

  /**
   * A successful merge keeps length and order and enriches row i from the first
   * security whose ticker equals row i's.
   */
  lemma {:induction false} MergeFromSecuritiesRows(securities: Dataset, rows: Dataset)
    requires MergeFromSecurities(securities, rows).Ok?
    ensures |MergeFromSecurities(securities, rows).value| == |rows|
    ensures forall i | 0 <= i < |rows| ::
      && FindSecurity(securities, Get(rows[i], TickerKey)).Some?
      && MergeFromSecurities(securities, rows).value[i]
           == Enrich(rows[i], FindSecurity(securities, Get(rows[i], TickerKey)).value)
  {
    if rows != [] {
      MergeFromSecuritiesRows(securities, rows[1..]);
      var out := MergeFromSecurities(securities, rows).value;
      var tail := MergeFromSecurities(securities, rows[1..]).value;
      assert out[1..] == tail;
      forall i | 0 < i < |rows|
        ensures out[i] == Enrich(rows[i], FindSecurity(securities, Get(rows[i], TickerKey)).value)
      {
        assert rows[i] == rows[1..][i - 1] && out[i] == tail[i - 1];
      }
    }
  }

  /**
   * A failed merge produces no rows; its error names the ticker of the first row whose
   * ticker no security carries.
   */
  lemma {:induction false} MergeFromSecuritiesFails(securities: Dataset, rows: Dataset)
    requires MergeFromSecurities(securities, rows).Err?
    ensures exists i | 0 <= i < |rows| ::
      && MergeFromSecurities(securities, rows).error == UnmatchedTicker(Get(rows[i], TickerKey))
      && !HasSecurity(securities, Get(rows[i], TickerKey))
      && forall k | 0 <= k < i :: HasSecurity(securities, Get(rows[k], TickerKey))
  {
    var ticker := Get(rows[0], TickerKey);
    FindSecuritySpec(securities, ticker);
    if HasSecurity(securities, ticker) {
      MergeFromSecuritiesFails(securities, rows[1..]);
      var err := MergeFromSecurities(securities, rows[1..]).error;
      var i :| 0 <= i < |rows[1..]|
        && err == UnmatchedTicker(Get(rows[1..][i], TickerKey))
        && !HasSecurity(securities, Get(rows[1..][i], TickerKey))
        && forall k | 0 <= k < i :: HasSecurity(securities, Get(rows[1..][k], TickerKey));
      assert rows[i + 1] == rows[1..][i];
      forall k | 0 <= k < i + 1 ensures HasSecurity(securities, Get(rows[k], TickerKey)) {
        if k > 0 { assert rows[k] == rows[1..][k - 1]; }
      }
    }
  }

  // ---------------------------------------------------------------------------
  // makeAverage

  /** The per-group summary `{ ratio, count, values, average }`. */
  datatype Aggregate = Aggregate(ratio: string, count: nat, values: seq<real>, average: real)

  /** `curr.gicsSubIndustry === gicsSubIndustry && curr.periodEnding === period`. */
  predicate InGroup(row: Row, sub: string, period: string)
  {
    Get(row, SubIndustryKey) == Str(sub) && Get(row, PeriodKey) == Str(period)
  }

  function Group(sub: string, period: string): Row -> bool
  {
    row => InGroup(row, sub, period)
  }

  /** Every row of the group holds a number under the ratio name. */
  predicate GroupRatiosNumeric(rows: Dataset, ratio: string, sub: string, period: string)
  {
    forall row | row in rows && InGroup(row, sub, period) :: Get(row, ratio).Num?
  }

  lemma NumericConcat(a: Dataset, b: Dataset, ratio: string, sub: string, period: string)
    ensures GroupRatiosNumeric(a + b, ratio, sub, period) <==>
      GroupRatiosNumeric(a, ratio, sub, period) && GroupRatiosNumeric(b, ratio, sub, period)
  {
    assert forall row :: row in a + b <==> row in a || row in b;
  }

  /** The ratio values of the group's rows, in input order (filter, then map). */
  function GroupRatios(rows: Dataset, ratio: string, sub: string, period: string): seq<real>
    requires GroupRatiosNumeric(rows, ratio, sub, period)
  {
    if rows == [] then []
    else
      assert rows == [rows[0]] + rows[1..];
      (if InGroup(rows[0], sub, period) then [Get(rows[0], ratio).n] else []) + GroupRatios(rows[1..], ratio, sub, period)
  }

  /** The reducer of `makeAverage`: a row of the group is counted, appended and averaged in. */
  function AverageStep(acc: Aggregate, curr: Row, ratio: string, sub: string, period: string): Aggregate
    requires InGroup(curr, sub, period) ==> Get(curr, ratio).Num?
  {
    if InGroup(curr, sub, period) then
      var values := acc.values + [Get(curr, ratio).n];
      acc.(count := acc.count + 1, values := values, average := Sum(values) / (acc.count + 1) as real)
    else acc
  }

  /** `makeAverage(rows, ratio, sub, period)`: `rows.reduce(AverageStep, { ratio, count: 0, values: [], average: 0 })`. */
  function MakeAverage(rows: Dataset, ratio: string, sub: string, period: string): Aggregate
    requires GroupRatiosNumeric(rows, ratio, sub, period)
    decreases |rows|
  {
    if rows == [] then Aggregate(ratio, 0, [], 0.0)
    else
      assert rows == rows[..|rows| - 1] + [rows[|rows| - 1]];
      AverageStep(MakeAverage(rows[..|rows| - 1], ratio, sub, period), rows[|rows| - 1], ratio, sub, period)
  }

  lemma {:induction false} GroupRatiosConcat(a: Dataset, b: Dataset, ratio: string, sub: string, period: string)
    requires GroupRatiosNumeric(a + b, ratio, sub, period)
    ensures GroupRatiosNumeric(a, ratio, sub, period) && GroupRatiosNumeric(b, ratio, sub, period)
    ensures GroupRatios(a + b, ratio, sub, period) == GroupRatios(a, ratio, sub, period) + GroupRatios(b, ratio, sub, period)
  {
    NumericConcat(a, b, ratio, sub, period);
    if a != [] {
      assert (a + b)[0] == a[0];
      assert (a + b)[1..] == a[1..] + b;
      GroupRatiosConcat(a[1..], b, ratio, sub, period);
    } else {
      assert a + b == b;
    }
  }

  /**
   * What `makeAverage` computes: `ratio` is the argument, `count` the number of rows of
   * the group, `values` their ratio values in input order, and `average` their mean
   * (with no matching row, the initial accumulator unchanged).
   */
  lemma {:induction false} MakeAverageSpec(rows: Dataset, ratio: string, sub: string, period: string)
    requires GroupRatiosNumeric(rows, ratio, sub, period)
    ensures MakeAverage(rows, ratio, sub, period).ratio == ratio
    ensures MakeAverage(rows, ratio, sub, period).count == |Filter(Group(sub, period), rows)|
    ensures MakeAverage(rows, ratio, sub, period).values == GroupRatios(rows, ratio, sub, period)
    ensures |MakeAverage(rows, ratio, sub, period).values| == MakeAverage(rows, ratio, sub, period).count
    ensures MakeAverage(rows, ratio, sub, period).count > 0 ==>
      MakeAverage(rows, ratio, sub, period).average
        == Sum(MakeAverage(rows, ratio, sub, period).values) / MakeAverage(rows, ratio, sub, period).count as real
    ensures MakeAverage(rows, ratio, sub, period).count == 0 ==>
      MakeAverage(rows, ratio, sub, period) == Aggregate(ratio, 0, [], 0.0)
    decreases |rows|
  {
    if rows != [] {
      var init, last := rows[..|rows| - 1], rows[|rows| - 1];
      assert rows == init + [last];
      GroupRatiosConcat(init, [last], ratio, sub, period);
      MakeAverageSpec(init, ratio, sub, period);
      FilterConcat(Group(sub, period), init, [last]);
      assert [last][1..] == [];
      var acc := MakeAverage(init, ratio, sub, period);
      assert MakeAverage(rows, ratio, sub, period) == AverageStep(acc, last, ratio, sub, period);
      if InGroup(last, sub, period) {
        assert Filter(Group(sub, period), [last]) == [last];
        assert GroupRatios([last], ratio, sub, period) == [Get(last, ratio).n];
      } else {
        assert Filter(Group(sub, period), [last]) == [];
        assert GroupRatios([last], ratio, sub, period) == [];
      }
    }
  }

  /** A row belonging to the group is counted: the group is never empty when one of its rows is present. */
  lemma {:induction false} GroupMemberCounted(rows: Dataset, row: Row, sub: string, period: string)
    requires row in rows && InGroup(row, sub, period)
    ensures |Filter(Group(sub, period), rows)| >= 1
  {
    FilterCount(Group(sub, period), rows, row);
    assert row in multiset(Filter(Group(sub, period), rows));
  }

  /** Taking one row out of the dataset takes its value (if any) out of the group's values. */
  lemma GroupRatiosRemove(b: Dataset, j: nat, ratio: string, sub: string, period: string)
    requires j < |b| && GroupRatiosNumeric(b, ratio, sub, period)
    ensures GroupRatiosNumeric(b[..j] + b[j + 1..], ratio, sub, period)
    ensures GroupRatiosNumeric([b[j]], ratio, sub, period)
    ensures multiset(GroupRatios(b, ratio, sub, period))
      == multiset(GroupRatios(b[..j] + b[j + 1..], ratio, sub, period)) + multiset(GroupRatios([b[j]], ratio, sub, period))
  {
    var front, x, back := b[..j], b[j], b[j + 1..];
    assert b == front + ([x] + back);
    NumericConcat(front, [x] + back, ratio, sub, period);
    NumericConcat([x], back, ratio, sub, period);
    NumericConcat(front, back, ratio, sub, period);
    GroupRatiosConcat(front, [x] + back, ratio, sub, period);
    GroupRatiosConcat([x], back, ratio, sub, period);
    GroupRatiosConcat(front, back, ratio, sub, period);
  }

  /** Every row of a reordering is a row of the original, so the numeric requirement carries over. */
  lemma NumericPermutation(a: Dataset, b: Dataset, ratio: string, sub: string, period: string)
    requires multiset(a) == multiset(b) && GroupRatiosNumeric(a, ratio, sub, period)
    ensures GroupRatiosNumeric(b, ratio, sub, period)
  {
    forall row | row in b ensures row in a {
      assert row in multiset(b);
    }
  }

  /** Reordering the rows reorders the group's values and nothing more. */
  lemma {:induction false} GroupRatiosPermutation(a: Dataset, b: Dataset, ratio: string, sub: string, period: string)
    requires multiset(a) == multiset(b)
    requires GroupRatiosNumeric(a, ratio, sub, period)
    ensures GroupRatiosNumeric(b, ratio, sub, period)
    ensures multiset(GroupRatios(a, ratio, sub, period)) == multiset(GroupRatios(b, ratio, sub, period))
    decreases |a|
  {
    NumericPermutation(a, b, ratio, sub, period);
    if a == [] {
      assert |b| == |multiset(b)| == 0;
    } else {
      var x := a[0];
      assert x in multiset(b);
      var j :| 0 <= j < |b| && b[j] == x;
      var b' := b[..j] + b[j + 1..];
      assert b == b[..j] + [x] + b[j + 1..];
      assert multiset(b') == multiset(b) - multiset{x};
      assert a == [x] + a[1..];
      assert multiset(a[1..]) == multiset(a) - multiset{x};
      GroupRatiosRemove(b, j, ratio, sub, period);
      GroupRatiosConcat([x], a[1..], ratio, sub, period);
      GroupRatiosPermutation(a[1..], b', ratio, sub, period);
    }
  }

  /** `makeAverage` does not depend on the order of the rows, except for the order of `values`. */
  lemma MakeAveragePermutation(a: Dataset, b: Dataset, ratio: string, sub: string, period: string)
    requires multiset(a) == multiset(b)
    requires GroupRatiosNumeric(a, ratio, sub, period)
    ensures GroupRatiosNumeric(b, ratio, sub, period)
    ensures MakeAverage(a, ratio, sub, period).ratio == MakeAverage(b, ratio, sub, period).ratio
    ensures MakeAverage(a, ratio, sub, period).count == MakeAverage(b, ratio, sub, period).count
    ensures MakeAverage(a, ratio, sub, period).average == MakeAverage(b, ratio, sub, period).average
    ensures multiset(MakeAverage(a, ratio, sub, period).values) == multiset(MakeAverage(b, ratio, sub, period).values)
  {
    GroupRatiosPermutation(a, b, ratio, sub, period);
    MakeAverageSpec(a, ratio, sub, period);
    MakeAverageSpec(b, ratio, sub, period);
    var ra, rb := MakeAverage(a, ratio, sub, period), MakeAverage(b, ratio, sub, period);
    assert |ra.values| == |multiset(ra.values)| == |multiset(rb.values)| == |rb.values|;
    SumPermutation(ra.values, rb.values);
  }

  // ---------------------------------------------------------------------------
  // filterNull and filterSingles

  function NonNull(prop: string): Row -> bool
  {
    row => Get(row, prop) != Null
  }

  /** `filterNull(prop)(rows)`: `rows.filter(el => el[prop] !== null)`. */
  function FilterNull(prop: string, rows: Dataset): Dataset
  {
    Filter(NonNull(prop), rows)
  }

  /**
   * The filter keeps, in order, exactly the rows whose field is not null (with their
   * multiplicity), in particular the rows that lack the field, and distributes over
   * concatenation.
   */
  lemma FilterNullSpec(prop: string, rows: Dataset)
    ensures |FilterNull(prop, rows)| <= |rows|
    ensures IsSubsequence(FilterNull(prop, rows), rows)
    ensures forall row :: multiset(FilterNull(prop, rows))[row] == if Get(row, prop) != Null then multiset(rows)[row] else 0
    ensures forall row | row in FilterNull(prop, rows) :: Get(row, prop) != Null
    ensures forall row | row in rows && prop !in Keys(row) :: row in FilterNull(prop, rows)
    ensures forall more: Dataset :: FilterNull(prop, rows + more) == FilterNull(prop, rows) + FilterNull(prop, more)
  {
    FilterIsSubsequence(NonNull(prop), rows);
    forall row ensures multiset(FilterNull(prop, rows))[row] == if Get(row, prop) != Null then multiset(rows)[row] else 0 {
      FilterCount(NonNull(prop), rows, row);
    }
    forall more: Dataset ensures FilterNull(prop, rows + more) == FilterNull(prop, rows) + FilterNull(prop, more) {
      FilterConcat(NonNull(prop), rows, more);
    }
  }

  /** The property has a length of at least two: only a string can (a number has no length). */
  predicate LongText(v: Value)
  {
    v.Str? && |v.s| >= 2
  }

  function HasLongText(prop: string): Row -> bool
  {
    row => LongText(Get(row, prop))
  }

  /**
   * `filterSingles(prop)(rows)`: `rows.filter(el => el[prop].length >= 2)`. Reading
   * `.length` of null or undefined throws.
   */
  function FilterSingles(prop: string, rows: Dataset): Result<Dataset>
  {
    if rows == [] then Ok([])
    else
      var v := Get(rows[0], prop);
      if v == Null || v == Undefined then Err(NullishLength(prop))
      else
        match FilterSingles(prop, rows[1..])
        case Err(e) => Err(e)
        case Ok(tail) => Ok((if LongText(v) then [rows[0]] else []) + tail)
  }

  /**
   * `filterSingles` throws exactly when some row's field is null or missing; otherwise it
   * keeps, in order, exactly the rows whose field is a string of length two or more.
   */
  lemma {:induction false} FilterSinglesSpec(prop: string, rows: Dataset)
    ensures FilterSingles(prop, rows).Ok? <==> forall row | row in rows :: Get(row, prop) != Null && Get(row, prop) != Undefined
    ensures FilterSingles(prop, rows).Err? ==> FilterSingles(prop, rows).error == NullishLength(prop)
    ensures FilterSingles(prop, rows).Ok? ==>
      && IsSubsequence(FilterSingles(prop, rows).value, rows)
      && forall row :: multiset(FilterSingles(prop, rows).value)[row] == if LongText(Get(row, prop)) then multiset(rows)[row] else 0
  {
    if rows != [] {
      FilterSinglesSpec(prop, rows[1..]);
      assert rows == [rows[0]] + rows[1..];
      assert forall row | row in rows :: row == rows[0] || row in rows[1..];
      var v := Get(rows[0], prop);
      if v == Null || v == Undefined {
        assert rows[0] in rows;
      } else {
        assert FilterSingles(prop, rows).Ok? <==> FilterSingles(prop, rows[1..]).Ok?;
      }
      if FilterSingles(prop, rows).Ok? {
        assert FilterSingles(prop, rows).value == Filter(HasLongText(prop), rows) by {
          FilterSinglesIsFilter(prop, rows);
        }
        FilterIsSubsequence(HasLongText(prop), rows);
        forall row ensures multiset(FilterSingles(prop, rows).value)[row] == if LongText(Get(row, prop)) then multiset(rows)[row] else 0 {
          FilterCount(HasLongText(prop), rows, row);
        }
      }
    }
  }

  lemma {:induction false} FilterSinglesIsFilter(prop: string, rows: Dataset)
    requires FilterSingles(prop, rows).Ok?
    ensures FilterSingles(prop, rows).value == Filter(HasLongText(prop), rows)
  {
    if rows != [] {
      FilterSinglesIsFilter(prop, rows[1..]);
    }
  }
}
