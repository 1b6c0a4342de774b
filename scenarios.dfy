/**
 * The pipeline as the entry point wires it, and worked examples of the
 * enrichment and averaging stages.
 */
module Scenarios {
  import opened Rows
  import opened Results
  import opened Seqs
  import opened Utils
  import opened Procedures
  import opened ParserWrapper

  /** `fixIndex` as a callback: it never throws. */
  function FixIndexCallback(camel: string -> string): Dataset -> Result<Dataset>
  {
    rows => Ok(FixIndexed(camel, rows))
  }

  /** `filterNull(prop)` as a callback: it never throws. */
  function FilterNullCallback(prop: string): Dataset -> Result<Dataset>
  {
    rows => Ok(FilterNull(prop, rows))
  }

  /** `mergeFromSecurities(securities)` as a callback: it throws on an unmatched ticker. */
  function MergeCallback(securities: Dataset): Dataset -> Result<Dataset>
  {
    rows => MergeFromSecurities(securities, rows)
  }

  /**
   * `toJson([fixIndex, filterNull(prop), mergeFromSecurities(securities)])`: the parsed
   * rows are normalised, then filtered, then enriched, in that order; a parse failure
   * or an unmatched ticker gives `undefined`.
   */
  lemma {:induction false} EntryPointChain<S>(camel: string -> string, securities: Dataset, prop: string,
                                             parse: S -> Result<Dataset>, source: S)
    ensures ToJson(Parser(source), parse, Many([FixIndexCallback(camel), FilterNullCallback(prop), MergeCallback(securities)])) ==
      match parse(source)
      case Err(_) => None
      case Ok(rows) =>
        match MergeFromSecurities(securities, FilterNull(prop, FixIndexed(camel, rows)))
        case Ok(out) => Some(Parser(out))
        case Err(_) => None
  {
    var fns := [FixIndexCallback(camel), FilterNullCallback(prop), MergeCallback(securities)];
    if parse(source).Ok? {
      var rows := parse(source).value;
      assert fns == [FixIndexCallback(camel), FilterNullCallback(prop)] + [MergeCallback(securities)];
      PipeSnoc([FixIndexCallback(camel), FilterNullCallback(prop)], MergeCallback(securities), rows);
      assert [FixIndexCallback(camel), FilterNullCallback(prop)] == [FixIndexCallback(camel)] + [FilterNullCallback(prop)];
      PipeSnoc([FixIndexCallback(camel)], FilterNullCallback(prop), rows);
      PipeSingle(FixIndexCallback(camel), rows);
    }
  }

  /** The rows the three callbacks produce from the parsed rows, or the exception they raise. */
  function Enriched(camel: string -> string, securities: Dataset, prop: string, rows: Dataset): Result<Dataset>
  {
    MergeFromSecurities(securities, FilterNull(prop, FixIndexed(camel, rows)))
  }

  /**
   * The whole entry point: `toJson([fixIndex, filterNull(prop), mergeFromSecurities(securities)])`,
   * then `data?.extractAverages(prop).save(file)`. `save` hands back its instance (the file
   * write is not modelled), so the result is the averages table, or nothing when `toJson`
   * gave `undefined`.
   */
  method EntryPoint<S>(camel: string -> string, securities: Dataset, prop: string,
                       parse: S -> Result<Dataset>, source: S) returns (out: Option<ParserInstance<Averages>>)
    requires parse(source).Ok? && Enriched(camel, securities, prop, parse(source).value).Ok? ==>
      var merged := Enriched(camel, securities, prop, parse(source).value).value;
      Labelled(merged) && RatiosNumeric(merged, prop)
    ensures parse(source).Err? ==> out == None
    ensures parse(source).Ok? && Enriched(camel, securities, prop, parse(source).value).Err? ==> out == None
    ensures parse(source).Ok? && Enriched(camel, securities, prop, parse(source).value).Ok? ==>
      var merged := Enriched(camel, securities, prop, parse(source).value).value;
      RatiosNumeric(merged, prop) && out == Some(Parser(AveragesOf(merged, prop)))
  {
    var callbacks := Many([FixIndexCallback(camel), FilterNullCallback(prop), MergeCallback(securities)]);
    var data := ToJson(Parser(source), parse, callbacks);
    EntryPointChain(camel, securities, prop, parse, source);
    if data.None? {
      out := None;
    } else {
      var averages := ExtractAverages(data.value, prop);
      out := Some(averages);
    }
  }

  /** Every row of a one-element or two-element dataset is one of its elements. */
  lemma MembersOfPair(a: Row, b: Row)
    ensures forall row | row in [a, b] :: row == a || row == b
    ensures forall row | row in [a] :: row == a
  {
  }

  lemma SumPair(x: real, y: real)
    ensures Sum([x]) == x && Sum([x, y]) == x + y
  {
    assert [x, y][..1] == [x];
    assert [x][..0] == [];
  }

  /** One row of the group, with ratio x, averages to x. */
  lemma OneRowAverage(r: Row, ratio: string, x: real, sub: string, period: string)
    requires InGroup(r, sub, period) && Get(r, ratio) == Num(x)
    ensures GroupRatiosNumeric([r], ratio, sub, period)
    ensures MakeAverage([r], ratio, sub, period) == Aggregate(ratio, 1, [x], x)
  {
    MembersOfPair(r, r);
    assert [r][..0] == [];
    SumPair(x, x);
  }

  /** Two rows of one group, with ratios x and y, average to (x + y) / 2. */
  lemma {:induction false} TwoRowAverage(r1: Row, r2: Row, ratio: string, x: real, y: real, sub: string, period: string)
    requires InGroup(r1, sub, period) && InGroup(r2, sub, period)
    requires Get(r1, ratio) == Num(x) && Get(r2, ratio) == Num(y)
    ensures GroupRatiosNumeric([r1, r2], ratio, sub, period)
    ensures MakeAverage([r1, r2], ratio, sub, period) == Aggregate(ratio, 2, [x, y], (x + y) / 2.0)
  {
    MembersOfPair(r1, r2);
    OneRowAverage(r1, ratio, x, sub, period);
    var rows := [r1, r2];
    assert rows[..|rows| - 1] == [r1] && rows[|rows| - 1] == r2;
    SumPair(x, y);
    assert [x] + [y] == [x, y];
    assert MakeAverage(rows, ratio, sub, period) == AverageStep(Aggregate(ratio, 1, [x], x), r2, ratio, sub, period);
  }

  /** Two rows of one pair name one sub-industry with one period. */
  lemma PairLabels(r1: Row, r2: Row, sub: string, period: string)
    requires InGroup(r1, sub, period) && InGroup(r2, sub, period)
    ensures SubIndustries([r1, r2]) == {sub}
    ensures Periods([r1, r2], sub) == {period}
  {
    MembersOfPair(r1, r2);
    assert r1 in [r1, r2];
  }

  /** Rows naming a single (sub-industry, period) pair give a table with that single leaf. */
  lemma SingleLeafTable(rows: Dataset, ratio: string, sub: string, period: string)
    requires RatiosNumeric(rows, ratio)
    requires SubIndustries(rows) == {sub} && Periods(rows, sub) == {period}
    ensures AveragesOf(rows, ratio) == map[sub := map[period := MakeAverage(rows, ratio, sub, period)]]
  {
    var leaves := Leaves(rows, rows, ratio, sub);
    assert leaves == map[period := MakeAverage(rows, ratio, sub, period)];
    var t := AveragesOf(rows, ratio);
    assert t.Keys == {sub} && t[sub] == leaves;
  }

  /** Two rows of one (sub-industry, period) pair give a table with that single leaf. */
  lemma {:induction false} TwoRowGroupExample(r1: Row, r2: Row, ratio: string, x: real, y: real, sub: string, period: string)
    requires InGroup(r1, sub, period) && InGroup(r2, sub, period)
    requires Get(r1, ratio) == Num(x) && Get(r2, ratio) == Num(y)
    ensures RatiosNumeric([r1, r2], ratio)
    ensures AveragesOf([r1, r2], ratio) == map[sub := map[period := Aggregate(ratio, 2, [x, y], (x + y) / 2.0)]]
  {
    MembersOfPair(r1, r2);
    assert RatiosNumeric([r1, r2], ratio);
    PairLabels(r1, r2, sub, period);
    TwoRowAverage(r1, r2, ratio, x, y, sub, period);
    SingleLeafTable([r1, r2], ratio, sub, period);
  }

  /** A row whose ratio is null is filtered out, and a sub-industry only it carried never appears. */
  lemma {:induction false} NullRowExample(kept: Row, dropped: Row, ratio: string, x: real, s1: string, s2: string)
    requires Get(kept, ratio) == Num(x) && Get(kept, SubIndustryKey) == Str(s1)
    requires Get(dropped, ratio) == Null && Get(dropped, SubIndustryKey) == Str(s2)
    requires s1 != s2
    ensures FilterNull(ratio, [kept, dropped]) == [kept]
    ensures RatiosNumeric([kept], ratio)
    ensures s2 !in AveragesOf([kept], ratio)
  {
    MembersOfPair(kept, dropped);
    assert NonNull(ratio)(kept) && !NonNull(ratio)(dropped);
    assert [kept, dropped][1..] == [dropped];
    assert [dropped][1..] == [];
    assert Filter(NonNull(ratio), [dropped]) == [];
    assert [kept][1..] == [];
    assert SubIndustries([kept]) == {s1};
  }

  /** The label keys are distinct strings. */
  lemma LabelKeysDistinct()
    ensures SectorKey != TickerKey && SubIndustryKey != TickerKey && SubIndustryKey != SectorKey
  {
    assert |TickerKey| != |SectorKey| && |SubIndustryKey| != |TickerKey| && |SubIndustryKey| != |SectorKey|;
  }

  /** Enriching a row that holds only a ticker appends the sector, then the sub-industry. */
  lemma EnrichTickerOnly(ticker: string, sector: Value, sub: Value, security: Row)
    requires Get(security, SectorKey) == sector && Get(security, SubIndustryKey) == sub
    ensures Enrich([Field(TickerKey, Str(ticker))], security) ==
      [Field(TickerKey, Str(ticker)), Field(SectorKey, sector), Field(SubIndustryKey, sub)]
  {
    LabelKeysDistinct();
    var row := [Field(TickerKey, Str(ticker))];
    assert Keys(row) == {TickerKey} by { assert forall f | f in row :: f == row[0]; }
    assert SectorKey !in Keys(row);
    var row1 := Put(row, SectorKey, sector);
    assert row1 == row + [Field(SectorKey, sector)];
    assert Keys(row1) == {TickerKey, SectorKey};
    assert SubIndustryKey !in Keys(row1);
    assert Put(row1, SubIndustryKey, sub) == row1 + [Field(SubIndustryKey, sub)];
  }

  /** A row holding only a ticker gains the security's sector and sub-industry, appended in that order. */
  lemma {:induction false} EnrichExample(ticker: string, security: Row)
    requires Get(security, TickerKey) == Str(ticker)
    ensures MergeFromSecurities([security], [[Field(TickerKey, Str(ticker))]]) ==
      Ok([[Field(TickerKey, Str(ticker)), Field(SectorKey, Get(security, SectorKey)), Field(SubIndustryKey, Get(security, SubIndustryKey))]])
  {
    var row := [Field(TickerKey, Str(ticker))];
    var rows: Dataset := [row];
    GetFirst(row, TickerKey, 0);
    assert FindSecurity([security], Get(rows[0], TickerKey)) == Some(security);
    assert rows[1..] == [];
    assert MergeFromSecurities([security], rows[1..]) == Ok([]);
    var tail: Dataset := [];
    assert [Enrich(row, security)] + tail == [Enrich(row, security)];
    EnrichTickerOnly(ticker, Get(security, SectorKey), Get(security, SubIndustryKey), security);
  }

  /** A single unmatched ticker makes the whole merge throw, whatever the matched rows before it. */
  lemma {:induction false} UnmatchedTickerExample(ticker: string, other: string, security: Row)
    requires Get(security, TickerKey) == Str(ticker) && other != ticker
    ensures MergeFromSecurities([security], [[Field(TickerKey, Str(ticker))], [Field(TickerKey, Str(other))]])
      == Err(UnmatchedTicker(Str(other)))
  {
    var rows := [[Field(TickerKey, Str(ticker))], [Field(TickerKey, Str(other))]];
    GetFirst(rows[0], TickerKey, 0);
    GetFirst(rows[1], TickerKey, 0);
    assert [security][1..] == [];
    assert FindSecurity([security], Str(ticker)) == Some(security);
    assert FindSecurity([security], Str(other)) == None;
    assert rows[1..] == [[Field(TickerKey, Str(other))]];
    assert rows[1..][1..] == [];
  }
}
