/**
 * The `Parser` wrapper: an immutable holder of a payload whose operations each
 * return a new wrapper. Modelled here: `value`, `mutate`, the callback dispatch
 * of `toJson` over already-parsed data, and `extractAverages`.
 *
 * The payload type is a parameter, so a wrapper holding a dataset and one holding
 * the averages table have different types. Reading and parsing the CSV stream is
 * the parameter `parse` of `ToJson`.
 */
module ParserWrapper {
  import opened Rows
  import opened Results
  import opened Seqs
  import opened Utils
  import opened Procedures

  /** `Parser(v)`. */
  datatype ParserInstance<T> = Parser(v: T)
  {
    /** `value()`: the payload, read-only. */
    function Value(): T
    {
      v
    }
  }

  /** The `callbacks?` argument: absent, a single function, or an array of functions. */
  datatype Callbacks<!T> =
    | NoCallbacks
    | Single(f: T -> Result<T>)
    | Many(fns: seq<T -> Result<T>>)

  /** The argument is absent or an empty array: no function to apply. */
  predicate NoFunction<T>(callbacks: Callbacks<T>)
  {
    callbacks.NoCallbacks? || (callbacks.Many? && |callbacks.fns| == 0)
  }

  function Wrap<T>(r: Result<T>): Result<ParserInstance<T>>
  {
    match r
    case Ok(v) => Ok(Parser(v))
    case Err(e) => Err(e)
  }

  /** Wrapping and unwrapping are inverse. */
  lemma ValueRoundTrip<T>(v: T, p: ParserInstance<T>)
    ensures Parser(v).Value() == v
    ensures Parser(p.Value()) == p
  {
  }

  // ---------------------------------------------------------------------------
  // mutate

  /**
   * `_mutate(instance, callbacks)`: pipe a non-empty array, otherwise call `callbacks`
   * itself, which throws when it is absent or an (empty) array.
   */
  function Mutate<T>(instance: ParserInstance<T>, callbacks: Callbacks<T>): Result<ParserInstance<T>>
  {
    var json := instance.Value();
    match callbacks
    case Many(fns) => if |fns| > 0 then Wrap(Pipe(fns, json)) else Err(NotAFunction)
    case Single(f) => Wrap(f(json))
    case NoCallbacks => Err(NotAFunction)
  }

  /** `mutate` without a function to call throws; it is not the identity. */
  lemma MutateWithoutFunction<T>(instance: ParserInstance<T>, callbacks: Callbacks<T>)
    requires NoFunction(callbacks)
    ensures Mutate(instance, callbacks) == Err(NotAFunction)
    ensures Mutate(instance, callbacks) != Ok(instance)
  {
  }

  /** A single function and a one-element array mean the same. */
  lemma MutateSingleIsMany<T>(instance: ParserInstance<T>, f: T -> Result<T>)
    ensures Mutate(instance, Single(f)) == Mutate(instance, Many([f]))
  {
    PipeSingle(f, instance.Value());
  }

  /** Two chained `mutate` calls equal one `mutate` with the concatenated arrays. */
  lemma MutateComposes<T>(instance: ParserInstance<T>, fns: seq<T -> Result<T>>, gns: seq<T -> Result<T>>)
    requires |fns| > 0 && |gns| > 0
    ensures Mutate(instance, Many(fns + gns)) ==
      match Mutate(instance, Many(fns))
      case Ok(next) => Mutate(next, Many(gns))
      case Err(e) => Err(e)
  {
    PipeAppend(fns, gns, instance.Value());
  }

  // ---------------------------------------------------------------------------
  // toJson

  /**
   * `_toJson(instance, callbacks)` once the stream is parsed: pipe a non-empty array,
   * apply a function, otherwise keep the data; any exception (in parsing or in a
   * callback) is caught and the result is `undefined`.
   */
  function ToJson<S, T>(instance: ParserInstance<S>, parse: S -> Result<T>, callbacks: Callbacks<T>): Option<ParserInstance<T>>
  {
    match parse(instance.Value())
    case Err(_) => None
    case Ok(json) =>
      var parsed :=
        match callbacks
        case Many(fns) => if |fns| > 0 then Pipe(fns, json) else Ok(json)
        case Single(f) => f(json)
        case NoCallbacks => Ok(json);
      match parsed
      case Ok(out) => Some(Parser(out))
      case Err(_) => None
  }

  /**
   * `toJson` is parsing followed by `mutate`, with exceptions turned into `undefined`,
   * except that without a function it keeps the parsed data where `mutate` throws.
   */
  lemma ToJsonIsParseThenMutate<S, T>(instance: ParserInstance<S>, parse: S -> Result<T>, callbacks: Callbacks<T>)
    ensures parse(instance.Value()).Err? ==> ToJson(instance, parse, callbacks) == None
    ensures parse(instance.Value()).Ok? && NoFunction(callbacks) ==>
      ToJson(instance, parse, callbacks) == Some(Parser(parse(instance.Value()).value))
    ensures parse(instance.Value()).Ok? && !NoFunction(callbacks) ==>
      ToJson(instance, parse, callbacks) ==
        match Mutate(Parser(parse(instance.Value()).value), callbacks)
        case Ok(out) => Some(out)
        case Err(_) => None
  {
  }

  /** With two callbacks, the second sees the first one's output. */
  lemma ToJsonLeftToRight<S, T>(instance: ParserInstance<S>, parse: S -> Result<T>, f1: T -> Result<T>, f2: T -> Result<T>)
    requires parse(instance.Value()).Ok?
    ensures ToJson(instance, parse, Many([f1, f2])) ==
      match Bind(f1(parse(instance.Value()).value), f2)
      case Ok(out) => Some(Parser(out))
      case Err(_) => None
  {
    assert [f1, f2] == [f1] + [f2];
    PipeSnoc([f1], f2, parse(instance.Value()).value);
    PipeSingle(f1, parse(instance.Value()).value);
  }

  // ---------------------------------------------------------------------------
  // extractAverages

  /** sub-industry -> period -> aggregate, as written to the averages file. */
  type Averages = map<string, map<string, Aggregate>>

  /** Every row carries string labels for its sub-industry and its period. */
  predicate Labelled(rows: Dataset)
  {
    forall row | row in rows :: Get(row, SubIndustryKey).Str? && Get(row, PeriodKey).Str?
  }

  /** Every row holds a number under the ratio name. */
  predicate RatiosNumeric(rows: Dataset, ratio: string)
  {
    forall row | row in rows :: Get(row, ratio).Num?
  }

  function SubIndustries(keyRows: Dataset): set<string>
  {
    set row | row in keyRows && Get(row, SubIndustryKey).Str? :: Get(row, SubIndustryKey).s
  }

  function Periods(keyRows: Dataset, sub: string): set<string>
  {
    set row | row in keyRows && Get(row, SubIndustryKey) == Str(sub) && Get(row, PeriodKey).Str? :: Get(row, PeriodKey).s
  }

  /** The periods of one sub-industry in keyRows, each averaged over all of rows. */
  function Leaves(keyRows: Dataset, rows: Dataset, ratio: string, sub: string): map<string, Aggregate>
    requires RatiosNumeric(rows, ratio)
  {
    map period | period in Periods(keyRows, sub) :: MakeAverage(rows, ratio, sub, period)
  }

  /** The table with one leaf per (sub-industry, period) pair of keyRows, each leaf averaged over all of rows. */
  function Table(keyRows: Dataset, rows: Dataset, ratio: string): Averages
    requires RatiosNumeric(rows, ratio)
  {
    map sub | sub in SubIndustries(keyRows) :: Leaves(keyRows, rows, ratio, sub)
  }

  /** What `extractAverages` computes: one leaf per pair occurring in the rows. */
  function AveragesOf(rows: Dataset, ratio: string): Averages
    requires RatiosNumeric(rows, ratio)
  {
    Table(rows, rows, ratio)
  }

  lemma SubIndustriesSnoc(keyRows: Dataset, o: Row)
    requires Get(o, SubIndustryKey).Str?
    ensures SubIndustries(keyRows + [o]) == SubIndustries(keyRows) + {Get(o, SubIndustryKey).s}
  {
    assert forall row :: row in keyRows + [o] <==> row in keyRows || row == o;
  }

  lemma PeriodsSnoc(keyRows: Dataset, o: Row, sub: string)
    requires Get(o, PeriodKey).Str?
    ensures Periods(keyRows + [o], sub) ==
      Periods(keyRows, sub) + (if Get(o, SubIndustryKey) == Str(sub) then {Get(o, PeriodKey).s} else {})
  {
    assert forall row :: row in keyRows + [o] <==> row in keyRows || row == o;
  }

  lemma LeavesSnoc(keyRows: Dataset, o: Row, rows: Dataset, ratio: string, sub: string)
    requires RatiosNumeric(rows, ratio)
    requires Get(o, SubIndustryKey).Str? && Get(o, PeriodKey).Str?
    ensures Leaves(keyRows + [o], rows, ratio, sub) ==
      if sub == Get(o, SubIndustryKey).s
      then Leaves(keyRows, rows, ratio, sub)[Get(o, PeriodKey).s := MakeAverage(rows, ratio, sub, Get(o, PeriodKey).s)]
      else Leaves(keyRows, rows, ratio, sub)
  {
    PeriodsSnoc(keyRows, o, sub);
  }

  lemma NoLeavesOutsideTable(keyRows: Dataset, rows: Dataset, ratio: string, sub: string)
    requires RatiosNumeric(rows, ratio)
    requires sub !in SubIndustries(keyRows)
    ensures Leaves(keyRows, rows, ratio, sub) == map[]
  {
    assert forall row | row in keyRows && Get(row, SubIndustryKey).Str? :: Get(row, SubIndustryKey).s in SubIndustries(keyRows);
    assert Periods(keyRows, sub) == {};
  }

  /** One more row adds (or rewrites) the leaf of its own pair and leaves every other leaf alone. */
  lemma TableSnoc(keyRows: Dataset, o: Row, rows: Dataset, ratio: string)
    requires RatiosNumeric(rows, ratio)
    requires Get(o, SubIndustryKey).Str? && Get(o, PeriodKey).Str?
    ensures
      var t := Table(keyRows, rows, ratio);
      var sub, period := Get(o, SubIndustryKey).s, Get(o, PeriodKey).s;
      Table(keyRows + [o], rows, ratio)
        == t[sub := (if sub in t then t[sub] else map[])[period := MakeAverage(rows, ratio, sub, period)]]
  {
    var t := Table(keyRows, rows, ratio);
    var sub, period := Get(o, SubIndustryKey).s, Get(o, PeriodKey).s;
    SubIndustriesSnoc(keyRows, o);
    if sub !in t {
      NoLeavesOutsideTable(keyRows, rows, ratio, sub);
    }
    var inner := (if sub in t then t[sub] else map[])[period := MakeAverage(rows, ratio, sub, period)];
    var expected := t[sub := inner];
    var actual := Table(keyRows + [o], rows, ratio);
    assert actual.Keys == expected.Keys;
    forall s | s in actual ensures actual[s] == expected[s] {
      LeavesSnoc(keyRows, o, rows, ratio, s);
      if s == sub {
        assert actual[s] == Leaves(keyRows + [o], rows, ratio, s);
        assert Leaves(keyRows, rows, ratio, s) == if sub in t then t[sub] else map[];
      } else {
        assert actual[s] == Leaves(keyRows, rows, ratio, s) == t[s];
      }
    }
  }

  /**
   * `_extractAverages(instance, ratioProp)`: for each row, in order, write
   * `makeAverage(rows, ratioProp, sub, period)` under its sub-industry and period,
   * keeping the other periods already stored for that sub-industry.
   */
  method ExtractAverages(instance: ParserInstance<Dataset>, ratioProp: string) returns (out: ParserInstance<Averages>)
    requires Labelled(instance.Value())
    requires RatiosNumeric(instance.Value(), ratioProp)
    ensures out.Value() == AveragesOf(instance.Value(), ratioProp)
  {
    var result: Averages := map[];
    var values := instance.Value();
    for i := 0 to |values|
      invariant result == Table(values[..i], values, ratioProp)
    {
      var o := values[i];
      assert o in values;
      var sub, period := Get(o, SubIndustryKey).s, Get(o, PeriodKey).s;
      assert values[..i + 1] == values[..i] + [o];
      TableSnoc(values[..i], o, values, ratioProp);
      var inner := if sub in result then result[sub] else map[];
      result := result[sub := inner[period := MakeAverage(values, ratioProp, sub, period)]];
    }
    assert values[..|values|] == values;
    out := Parser(result);
  }

  /** The table's (sub-industry, period) pairs are exactly the pairs of the rows. */
  lemma AveragesPairs(rows: Dataset, ratio: string)
    requires Labelled(rows) && RatiosNumeric(rows, ratio)
    ensures forall sub | sub in AveragesOf(rows, ratio) :: forall period | period in AveragesOf(rows, ratio)[sub] ::
      exists row | row in rows :: InGroup(row, sub, period)
    ensures forall row | row in rows ::
      && Get(row, SubIndustryKey).s in AveragesOf(rows, ratio)
      && Get(row, PeriodKey).s in AveragesOf(rows, ratio)[Get(row, SubIndustryKey).s]
  {
    var a: Averages := AveragesOf(rows, ratio);
    forall sub: string, period: string | sub in a && period in a[sub] ensures exists row | row in rows :: InGroup(row, sub, period) {
      var row := PairWitness(rows, sub, period);
    }
  }

  /** A pair of the table comes from a row of the dataset. */
  lemma PairWitness(keyRows: Dataset, sub: string, period: string) returns (row: Row)
    requires period in Periods(keyRows, sub)
    ensures row in keyRows && InGroup(row, sub, period)
  {
    row :| row in keyRows && Get(row, SubIndustryKey) == Str(sub) && Get(row, PeriodKey).Str? && Get(row, PeriodKey).s == period;
  }

  /** One leaf: `makeAverage` of its own pair, counting at least the row that created it. */
  lemma AveragesLeaf(rows: Dataset, ratio: string, sub: string, period: string)
    requires RatiosNumeric(rows, ratio)
    requires sub in AveragesOf(rows, ratio) && period in AveragesOf(rows, ratio)[sub]
    ensures
      var leaf := AveragesOf(rows, ratio)[sub][period];
      && leaf == MakeAverage(rows, ratio, sub, period)
      && leaf.ratio == ratio
      && leaf.count >= 1
      && |leaf.values| == leaf.count
      && leaf.average == Sum(leaf.values) / leaf.count as real
  {
    var row := PairWitness(rows, sub, period);
    GroupMemberCounted(rows, row, sub, period);
    MakeAverageSpec(rows, ratio, sub, period);
  }

  /**
   * Every leaf is `makeAverage` of its own pair over all the rows: it counts at least
   * the row that created it, and its average is the mean of its values.
   */
  lemma AveragesLeaves(rows: Dataset, ratio: string)
    requires RatiosNumeric(rows, ratio)
    ensures forall sub | sub in AveragesOf(rows, ratio) :: forall period | period in AveragesOf(rows, ratio)[sub] ::
      var leaf := AveragesOf(rows, ratio)[sub][period];
      && leaf == MakeAverage(rows, ratio, sub, period)
      && leaf.ratio == ratio
      && leaf.count >= 1
      && |leaf.values| == leaf.count
      && leaf.average == Sum(leaf.values) / leaf.count as real
  {
    forall sub, period | sub in AveragesOf(rows, ratio) && period in AveragesOf(rows, ratio)[sub]
      ensures
        var leaf := AveragesOf(rows, ratio)[sub][period];
        && leaf == MakeAverage(rows, ratio, sub, period)
        && leaf.ratio == ratio
        && leaf.count >= 1
        && |leaf.values| == leaf.count
        && leaf.average == Sum(leaf.values) / leaf.count as real
    {
      AveragesLeaf(rows, ratio, sub, period);
    }
  }

  /**
   * Shuffling the rows changes no pair, no count and no average; each leaf's values
   * are reordered only.
   */
  lemma AveragesPermutation(a: Dataset, b: Dataset, ratio: string)
    requires multiset(a) == multiset(b)
    requires RatiosNumeric(a, ratio)
    ensures RatiosNumeric(b, ratio)
    ensures AveragesOf(a, ratio).Keys == AveragesOf(b, ratio).Keys
    ensures forall sub | sub in AveragesOf(a, ratio) ::
      && AveragesOf(a, ratio)[sub].Keys == AveragesOf(b, ratio)[sub].Keys
      && forall period | period in AveragesOf(a, ratio)[sub] ::
           && AveragesOf(a, ratio)[sub][period].ratio == AveragesOf(b, ratio)[sub][period].ratio
           && AveragesOf(a, ratio)[sub][period].count == AveragesOf(b, ratio)[sub][period].count
           && AveragesOf(a, ratio)[sub][period].average == AveragesOf(b, ratio)[sub][period].average
           && multiset(AveragesOf(a, ratio)[sub][period].values) == multiset(AveragesOf(b, ratio)[sub][period].values)
  {
    assert forall row :: row in a <==> row in b by {
      forall row ensures row in a <==> row in b {
        assert row in a <==> row in multiset(a);
        assert row in b <==> row in multiset(b);
      }
    }
    assert SubIndustries(a) == SubIndustries(b);
    forall sub ensures Periods(a, sub) == Periods(b, sub) {
    }
    var ta: Averages, tb: Averages := AveragesOf(a, ratio), AveragesOf(b, ratio);
    forall sub: string, period: string | sub in ta && period in ta[sub]
      ensures ta[sub][period].ratio == tb[sub][period].ratio
      ensures ta[sub][period].count == tb[sub][period].count
      ensures ta[sub][period].average == tb[sub][period].average
      ensures multiset(ta[sub][period].values) == multiset(tb[sub][period].values)
    {
      MakeAveragePermutation(a, b, ratio, sub, period);
    }
  }
}
