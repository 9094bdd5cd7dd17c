/**
 * A plain JavaScript object with string keys, as an association list in
 * insertion order. Assigning to an existing key keeps its position; assigning
 * to a new key appends it; `{ ...a, ...b }` assigns b's entries onto a copy of
 * a in b's order.
 */
module JsObject {
  import opened Wrappers
  import opened Text

  type Object<V> = seq<(string, V)>

  function Keys<V>(o: Object<V>): (r: seq<string>)
    ensures |r| == |o|
    ensures forall i {:trigger r[i]} :: 0 <= i < |o| ==> r[i] == o[i].0
  {
    if o == [] then [] else [o[0].0] + Keys(o[1..])
  }

  predicate Distinct(s: seq<string>) {
    forall i, j :: 0 <= i < j < |s| ==> s[i] != s[j]
  }

  predicate DistinctKeys<V>(o: Object<V>) {
    Distinct(Keys(o))
  }

  /** `o[k]`, `None` standing for `undefined`. */
  function Get<V>(o: Object<V>, k: string): (r: Option<V>)
    ensures r.None? <==> k !in Keys(o)
  {
    if o == [] then None
    else if o[0].0 == k then Some(o[0].1)
    else
      assert Keys(o[1..]) == Keys(o)[1..];
      Get(o[1..], k)
  }

  /** Every key of a distinct-keyed object maps to the value stored beside it. */
  lemma {:induction false} GetAt<V>(o: Object<V>, i: nat)
    requires DistinctKeys(o) && i < |o|
    ensures Get(o, o[i].0) == Some(o[i].1)
  {
    if i > 0 {
      assert Keys(o)[0] != Keys(o)[i];
      assert Keys(o[1..]) == Keys(o)[1..];
      assert o[1..][i - 1] == o[i];
      GetAt(o[1..], i - 1);
    }
  }

  /** The keys of an object with one more entry in front. */
  lemma KeysCons<V>(e: (string, V), o: Object<V>)
    ensures Keys([e] + o) == [e.0] + Keys(o)
  {
    assert ([e] + o)[1..] == o;
  }

  /** Reads through an entry in front whose key is not the one read. */
  lemma GetCons<V>(e: (string, V), o: Object<V>, k: string)
    requires e.0 != k
    ensures Get([e] + o, k) == Get(o, k)
  {
    assert ([e] + o)[1..] == o;
  }

  /** `Assign` when the first entry has the key: its value is replaced and nothing else changes. */
  lemma AssignHere<V>(o: Object<V>, k: string, v: V)
    requires o != [] && o[0].0 == k
    ensures Get([(k, v)] + o[1..], k) == Some(v)
    ensures forall k' :: k' != k ==> Get([(k, v)] + o[1..], k') == Get(o, k')
    ensures Keys([(k, v)] + o[1..]) == Keys(o)
  {
    KeysCons((k, v), o[1..]);
    KeysCons(o[0], o[1..]);
    assert [o[0]] + o[1..] == o;
    forall k' | k' != k
      ensures Get([(k, v)] + o[1..], k') == Get(o, k')
    {
      GetCons((k, v), o[1..], k');
    }
  }

  /** The recursive step of `Assign` past a first entry with another key, for the values read. */
  lemma AssignStepGet<V>(o: Object<V>, k: string, v: V, rest: Object<V>)
    requires o != [] && o[0].0 != k
    requires Get(rest, k) == Some(v)
    requires forall k' :: k' != k ==> Get(rest, k') == Get(o[1..], k')
    ensures Get([o[0]] + rest, k) == Some(v)
    ensures forall k' :: k' != k ==> Get([o[0]] + rest, k') == Get(o, k')
  {
    GetCons(o[0], rest, k);
    forall k' | k' != k
      ensures Get([o[0]] + rest, k') == Get(o, k')
    {
      if k' != o[0].0 {
        GetCons(o[0], rest, k');
      }
    }
  }

  /** A list with one more item in front is distinct exactly when the item is new and the rest is distinct. */
  lemma DistinctCons(x: string, s: seq<string>)
    ensures Distinct([x] + s) <==> x !in s && Distinct(s)
  {
    var t := [x] + s;
    assert t[1..] == s;
    if x !in s && Distinct(s) {
      forall i, j | 0 <= i < j < |t|
        ensures t[i] != t[j]
      {
        if i > 0 {
          assert t[i] == s[i - 1] && t[j] == s[j - 1];
        } else {
          assert t[j] == s[j - 1];
        }
      }
    }
    if Distinct(t) {
      forall m | 0 <= m < |s|
        ensures s[m] != x
      {
        assert t[0] == x && t[m + 1] == s[m];
      }
      forall i, j | 0 <= i < j < |s|
        ensures s[i] != s[j]
      {
        assert t[i + 1] == s[i] && t[j + 1] == s[j];
      }
    }
  }

  /** The keys of `Assign` past a first key `x` that is not `k`, as lists: `ks` before and `rs` after in the tail. */
  lemma ConsKeysStep(x: string, k: string, ks: seq<string>, rs: seq<string>)
    requires x != k
    requires k in ks ==> rs == ks
    requires k !in ks ==> rs == ks + [k]
    requires Distinct(ks) ==> Distinct(rs)
    ensures k in [x] + ks ==> [x] + rs == [x] + ks
    ensures k !in [x] + ks ==> [x] + rs == [x] + ks + [k]
    ensures Distinct([x] + ks) ==> Distinct([x] + rs)
  {
    DistinctCons(x, ks);
    DistinctCons(x, rs);
  }

  /** The recursive step of `Assign` past a first entry with another key, for the keys. */
  lemma AssignStepKeys<V>(o: Object<V>, k: string, v: V, rest: Object<V>)
    requires o != [] && o[0].0 != k
    requires k in Keys(o[1..]) ==> Keys(rest) == Keys(o[1..])
    requires k !in Keys(o[1..]) ==> Keys(rest) == Keys(o[1..]) + [k]
    requires DistinctKeys(o[1..]) ==> DistinctKeys(rest)
    ensures k in Keys(o) ==> Keys([o[0]] + rest) == Keys(o)
    ensures k !in Keys(o) ==> Keys([o[0]] + rest) == Keys(o) + [k]
    ensures DistinctKeys(o) ==> DistinctKeys([o[0]] + rest)
  {
    KeysCons(o[0], rest);
    KeysCons(o[0], o[1..]);
    assert [o[0]] + o[1..] == o;
    ConsKeysStep(o[0].0, k, Keys(o[1..]), Keys(rest));
  }

  /**
   * `o[k] = v`: afterwards `k` maps to `v`, every other key keeps its value,
   * the existing keys keep their order, and a new key goes at the end.
   */
  function Assign<V>(o: Object<V>, k: string, v: V): (r: Object<V>)
    ensures Get(r, k) == Some(v)
    ensures forall k' :: k' != k ==> Get(r, k') == Get(o, k')
    ensures k in Keys(o) ==> Keys(r) == Keys(o)
    ensures k !in Keys(o) ==> Keys(r) == Keys(o) + [k]
    ensures DistinctKeys(o) ==> DistinctKeys(r)
  {
    if o == [] then [(k, v)]
    else if o[0].0 == k then
      AssignHere(o, k, v);
      [(k, v)] + o[1..]
    else
      var rest := Assign(o[1..], k, v);
      AssignStepGet(o, k, v, rest);
      AssignStepKeys(o, k, v, rest);
      [o[0]] + rest
  }

  /** The keys after the first are the keys of the tail, and none of them repeats the first when all are distinct. */
  lemma Tail<V>(b: Object<V>)
    requires b != []
    ensures Keys(b[1..]) == Keys(b)[1..]
    ensures forall k :: k in Keys(b) <==> k == b[0].0 || k in Keys(b[1..])
    ensures DistinctKeys(b) ==> DistinctKeys(b[1..]) && b[0].0 !in Keys(b[1..])
  {
    assert Keys(b) == [b[0].0] + Keys(b[1..]);
    DistinctCons(b[0].0, Keys(b[1..]));
  }

  /** The values after the recursive step of `Spread`: b's own where b has the key, else a's. */
  lemma SpreadStepGet<V>(a: Object<V>, b: Object<V>, r: Object<V>)
    requires b != [] && DistinctKeys(b)
    requires forall k :: Get(r, k) == (if k in Keys(b[1..]) then Get(b[1..], k) else Get(Assign(a, b[0].0, b[0].1), k))
    ensures forall k :: Get(r, k) == (if k in Keys(b) then Get(b, k) else Get(a, k))
  {
    Tail(b);
    forall k
      ensures Get(r, k) == (if k in Keys(b) then Get(b, k) else Get(a, k))
    {
      if k in Keys(b[1..]) {
        assert k != b[0].0;
      } else if k == b[0].0 {
        assert Get(r, k) == Get(Assign(a, b[0].0, b[0].1), k);
      } else {
        assert Get(r, k) == Get(Assign(a, b[0].0, b[0].1), k);
      }
    }
  }

  /** A prefix of a prefix is a prefix. */
  lemma PrefixTrans(xs: seq<string>, ys: seq<string>, zs: seq<string>)
    requires IsPrefix(xs, ys) && IsPrefix(ys, zs)
    ensures IsPrefix(xs, zs)
  {
    assert zs[..|xs|] == zs[..|ys|][..|xs|];
  }

  /** The keys after the recursive step of `Spread` still start with a's keys. */
  lemma SpreadStepKeys<V>(a: Object<V>, k: string, v: V, rest: seq<string>)
    requires IsPrefix(Keys(Assign(a, k, v)), rest)
    ensures IsPrefix(Keys(a), rest)
  {
    assert IsPrefix(Keys(a), Keys(Assign(a, k, v)));
    PrefixTrans(Keys(a), Keys(Assign(a, k, v)), rest);
  }

  /** `{ ...a, ...b }`: a key of `b` takes b's value; every other key keeps a's; a's keys come first, in their order. */
  function Spread<V>(a: Object<V>, b: Object<V>): (r: Object<V>)
    requires DistinctKeys(b)
    ensures forall k :: Get(r, k) == (if k in Keys(b) then Get(b, k) else Get(a, k))
    ensures IsPrefix(Keys(a), Keys(r))
    ensures DistinctKeys(a) ==> DistinctKeys(r)
    decreases |b|
  {
    if b == [] then a
    else
      Tail(b);
      var r := Spread(Assign(a, b[0].0, b[0].1), b[1..]);
      SpreadStepGet(a, b, r);
      SpreadStepKeys(a, b[0].0, b[0].1, Keys(r));
      r
  }
}
