/**
 * Rows of the fundamentals and securities datasets.
 *
 * A row is a JavaScript object built from a CSV line or a JSON record. Such an
 * object keeps its keys in insertion order, and the key-renaming loop depends on
 * that order, so a row is an ordered list of fields rather than a map. Reading a
 * property (`o[k]`) yields `Undefined` when the key is absent; writing one
 * (`{...o, [k]: v}`) overwrites the field in place or appends a new one.
 */
module Rows {

  /** The scalars a parsed row holds. `Undefined` is stored explicitly by `{ id, ...rest }`. */
  datatype Value = Null | Undefined | Num(n: real) | Str(s: string)

  datatype Field = Field(key: string, val: Value)

  type Row = seq<Field>

  /** A dataset: rows in file order. */
  type Dataset = seq<Row>

  /** The set of keys of a row. */
  function Keys(r: Row): set<string>
  {
    set f | f in r :: f.key
  }

  /** The keys of a row in iteration order. */
  function KeyList(r: Row): (ks: seq<string>)
    ensures |ks| == |r|
    ensures forall i | 0 <= i < |r| :: ks[i] == r[i].key
  {
    if r == [] then [] else [r[0].key] + KeyList(r[1..])
  }

  /** A JavaScript object never holds the same key twice. */
  predicate DistinctKeys(r: Row)
  {
    forall i, j | 0 <= i < j < |r| :: r[i].key != r[j].key
  }

  /** Property read `r[k]`. */
  function Get(r: Row, k: string): (v: Value)
    ensures k !in Keys(r) ==> v == Undefined
  {
    if r == [] then Undefined
    else if r[0].key == k then r[0].val
    else
      assert Keys(r) == {r[0].key} + Keys(r[1..]);
      Get(r[1..], k)
  }

  /** A read finds the first field with the key. */
  lemma {:induction false} GetFirst(r: Row, k: string, i: nat)
    requires i < |r| && r[i].key == k
    requires forall j | 0 <= j < i :: r[j].key != k
    ensures Get(r, k) == r[i].val
  {
    if i > 0 {
      GetFirst(r[1..], k, i - 1);
    }
  }

  /** Property write `{...r, [k]: v}`: an existing key keeps its position, a new key goes last. */
  function Put(r: Row, k: string, v: Value): (r': Row)
    ensures Keys(r') == Keys(r) + {k}
    ensures k in Keys(r) ==> |r'| == |r|
    ensures k !in Keys(r) ==> r' == r + [Field(k, v)]
  {
    if r == [] then [Field(k, v)]
    else if r[0].key == k then
      assert Keys(r) == {k} + Keys(r[1..]);
      assert Keys([Field(k, v)] + r[1..]) == {k} + Keys(r[1..]);
      [Field(k, v)] + r[1..]
    else
      var tail := Put(r[1..], k, v);
      assert Keys(r) == {r[0].key} + Keys(r[1..]);
      assert Keys([r[0]] + tail) == {r[0].key} + Keys(tail);
      [r[0]] + tail
  }

  /** Rest destructuring `const { [k]: _, ...rest } = r`: every field but k, order kept. */
  function Remove(r: Row, k: string): (rest: Row)
    ensures Keys(rest) == Keys(r) - {k}
    ensures |rest| <= |r|
  {
    if r == [] then []
    else if r[0].key == k then
      assert Keys(r) == {k} + Keys(r[1..]);
      Remove(r[1..], k)
    else
      var tail := Remove(r[1..], k);
      assert Keys(r) == {r[0].key} + Keys(r[1..]);
      assert Keys([r[0]] + tail) == {r[0].key} + Keys(tail);
      [r[0]] + tail
  }

  /** Object spread `{...target, ...source}`: the fields of source written into target in order. */
  function Assign(target: Row, source: Row): (r: Row)
    decreases |source|
  {
    if source == [] then target
    else Assign(Put(target, source[0].key, source[0].val), source[1..])
  }

  lemma {:induction false} GetPutSame(r: Row, k: string, v: Value)
    ensures Get(Put(r, k, v), k) == v
  {
    if r != [] && r[0].key != k {
      GetPutSame(r[1..], k, v);
    }
  }

  lemma {:induction false} GetPutOther(r: Row, k: string, v: Value, j: string)
    requires j != k
    ensures Get(Put(r, k, v), j) == Get(r, j)
  {
    if r != [] && r[0].key != k {
      GetPutOther(r[1..], k, v, j);
    }
  }

  /** The tail of a row without duplicate keys has none, and does not hold the head's key. */
  lemma TailDistinct(r: Row)
    requires r != [] && DistinctKeys(r)
    ensures DistinctKeys(r[1..])
    ensures r[0].key !in Keys(r[1..])
  {
    forall i, j | 0 <= i < j < |r[1..]| ensures r[1..][i].key != r[1..][j].key {
      assert r[1..][i] == r[i + 1] && r[1..][j] == r[j + 1];
    }
    forall f | f in r[1..] ensures f.key != r[0].key {
      var i :| 0 <= i < |r[1..]| && r[1..][i] == f;
      assert r[i + 1] == f;
    }
  }

  /** A head whose key the tail lacks, in front of a tail without duplicate keys, makes a row without them. */
  lemma ConsDistinct(h: Field, tail: Row)
    requires DistinctKeys(tail) && h.key !in Keys(tail)
    ensures DistinctKeys([h] + tail)
  {
    forall i, j | 0 <= i < j < |[h] + tail| ensures ([h] + tail)[i].key != ([h] + tail)[j].key {
      assert ([h] + tail)[j] == tail[j - 1];
      assert tail[j - 1] in tail;
      if i > 0 {
        assert ([h] + tail)[i] == tail[i - 1];
      }
    }
  }

  /** Writing a property never creates a duplicate key. */
  lemma {:induction false} PutKeepsDistinct(r: Row, k: string, v: Value)
    requires DistinctKeys(r)
    ensures DistinctKeys(Put(r, k, v))
  {
    if r != [] {
      TailDistinct(r);
      if r[0].key != k {
        PutKeepsDistinct(r[1..], k, v);
        ConsDistinct(r[0], Put(r[1..], k, v));
      } else {
        ConsDistinct(Field(k, v), r[1..]);
      }
    }
  }

  /** Spreading a source whose keys avoid the target's first key leaves that first field in front. */
  lemma {:induction false} AssignKeepsHead(h: Field, target: Row, source: Row)
    requires h.key !in Keys(source)
    ensures Assign([h] + target, source) == [h] + Assign(target, source)
    decreases |source|
  {
    if source != [] {
      assert source[0] in source;
      assert ([h] + target)[1..] == target;
      assert Put([h] + target, source[0].key, source[0].val) == [h] + Put(target, source[0].key, source[0].val);
      assert Keys(source[1..]) <= Keys(source) by {
        forall x | x in Keys(source[1..]) ensures x in Keys(source) {
          var f :| f in source[1..] && f.key == x;
          assert f in source;
        }
      }
      AssignKeepsHead(h, Put(target, source[0].key, source[0].val), source[1..]);
    }
  }

  /** The keys after a spread are the keys of both operands. */
  lemma {:induction false} AssignKeys(target: Row, source: Row)
    ensures Keys(Assign(target, source)) == Keys(target) + Keys(source)
    decreases |source|
  {
    if source != [] {
      AssignKeys(Put(target, source[0].key, source[0].val), source[1..]);
      assert source == [source[0]] + source[1..];
      assert Keys(source) == {source[0].key} + Keys(source[1..]);
    }
  }

  /** Writing an existing key keeps the key order; writing a new key appends it last. */
  lemma {:induction false} PutKeyOrder(r: Row, k: string, v: Value)
    ensures k in Keys(r) ==> KeyList(Put(r, k, v)) == KeyList(r)
    ensures k !in Keys(r) ==> KeyList(Put(r, k, v)) == KeyList(r) + [k]
  {
    if r != [] && r[0].key != k {
      PutKeyOrder(r[1..], k, v);
      assert Keys(r) == {r[0].key} + Keys(r[1..]);
      assert Put(r, k, v)[1..] == Put(r[1..], k, v);
    }
  }

  /** Every key but the removed one reads as before. */
  lemma {:induction false} GetRemove(r: Row, k: string, j: string)
    requires j != k
    ensures Get(Remove(r, k), j) == Get(r, j)
  {
    if r != [] {
      GetRemove(r[1..], k, j);
    }
  }

  /** Removing a key from a row without duplicate keys leaves none. */
  lemma {:induction false} RemoveKeepsDistinct(r: Row, k: string)
    requires DistinctKeys(r)
    ensures DistinctKeys(Remove(r, k))
  {
    if r != [] {
      TailDistinct(r);
      RemoveKeepsDistinct(r[1..], k);
      if r[0].key != k {
        ConsDistinct(r[0], Remove(r[1..], k));
      }
    }
  }

  /** Spreading a source without duplicate keys keeps a target without duplicate keys free of them. */
  lemma {:induction false} AssignKeepsDistinct(target: Row, source: Row)
    requires DistinctKeys(target)
    ensures DistinctKeys(Assign(target, source))
    decreases |source|
  {
    if source != [] {
      PutKeepsDistinct(target, source[0].key, source[0].val);
      AssignKeepsDistinct(Put(target, source[0].key, source[0].val), source[1..]);
    }
  }

  /** After `{...target, ...source}`, a key of source reads source's value and any other key reads target's. */
  lemma {:induction false} GetAssign(target: Row, source: Row, j: string)
    requires DistinctKeys(source)
    ensures Get(Assign(target, source), j) == if j in Keys(source) then Get(source, j) else Get(target, j)
    decreases |source|
  {
    if source != [] {
      var h, rest := source[0], source[1..];
      TailDistinct(source);
      assert Keys(source) == {h.key} + Keys(rest) by { assert source == [h] + rest; }
      GetAssign(Put(target, h.key, h.val), rest, j);
      if j in Keys(rest) {
      } else if j == h.key {
        GetPutSame(target, h.key, h.val);
      } else {
        GetPutOther(target, h.key, h.val, j);
      }
    }
  }

  /** Spreading a source without duplicate keys into an empty object gives the source itself, field order included. */
  lemma {:induction false} AssignToEmpty(source: Row)
    requires DistinctKeys(source)
    ensures Assign([], source) == source
    decreases |source|
  {
    if source != [] {
      var h, rest := source[0], source[1..];
      TailDistinct(source);
      assert Put([], h.key, h.val) == [h] + [];
      AssignKeepsHead(h, [], rest);
      AssignToEmpty(rest);
      assert source == [h] + rest;
    }
  }
}
