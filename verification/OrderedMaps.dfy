/** Python's insertion-ordered `dict`, as a sequence of key/value pairs.
    Assigning to a present key replaces its value where it stands; a new key
    goes to the end; `del`/`pop` removes the pair and keeps the others' order. */
module OrderedMaps {
  import opened Wrappers

  function Keys<K, V>(d: seq<(K, V)>): (r: seq<K>)
    ensures |r| == |d| && forall i :: 0 <= i < |d| ==> r[i] == d[i].0
  {
    seq(|d|, i requires 0 <= i < |d| => d[i].0)
  }

  lemma KeysConcat<K, V>(a: seq<(K, V)>, b: seq<(K, V)>)
    ensures Keys(a + b) == Keys(a) + Keys(b)
  {
  }

  function Values<K, V>(d: seq<(K, V)>): (r: seq<V>)
    ensures |r| == |d| && forall i :: 0 <= i < |d| ==> r[i] == d[i].1
  {
    seq(|d|, i requires 0 <= i < |d| => d[i].1)
  }

  /** No key appears twice, as in any dict. */
  predicate Distinct<K(==), V>(d: seq<(K, V)>) {
    forall i, j :: 0 <= i < j < |d| ==> d[i].0 != d[j].0
  }

  /** `d.get(k)`: the value paired with the first occurrence of `k`. */
  function Get<K(==), V>(d: seq<(K, V)>, k: K): (r: Option<V>)
    ensures r.None? <==> k !in Keys(d)
  {
    if d == [] then None
    else if d[0].0 == k then Some(d[0].1)
    else
      assert Keys(d) == [d[0].0] + Keys(d[1..]);
      Get(d[1..], k)
  }

  /** In a dict without repeated keys, the pair stored at a position is what `get` returns. */
  lemma {:induction false} GetAt<K, V>(d: seq<(K, V)>, i: nat)
    requires Distinct(d) && i < |d|
    ensures Get(d, d[i].0) == Some(d[i].1)
  {
    if i > 0 {
      GetAt(d[1..], i - 1);
    }
  }

  /** What `get` returns is stored at some position. */
  lemma {:induction false} GetSome<K, V>(d: seq<(K, V)>, k: K) returns (i: nat)
    requires Get(d, k).Some?
    ensures i < |d| && d[i] == (k, Get(d, k).value)
  {
    if d[0].0 == k {
      i := 0;
    } else {
      var j := GetSome(d[1..], k);
      i := j + 1;
    }
  }

  /** What `d[k] = v` keeps and adds: the keys stay in place (a new key goes
      last), other keys' pairs are untouched, and a new pair is appended. */
  ghost predicate PutSpec<K, V>(d: seq<(K, V)>, k: K, v: V, r: seq<(K, V)>) {
    && Keys(r) == (if k in Keys(d) then Keys(d) else Keys(d) + [k])
    && (forall i :: 0 <= i < |d| && d[i].0 != k ==> r[i] == d[i])
    && (k !in Keys(d) ==> r == d + [(k, v)])
  }

  /** `d[k] = v` */
  function Put<K(==), V>(d: seq<(K, V)>, k: K, v: V): (r: seq<(K, V)>)
    ensures PutSpec(d, k, v, r)
  {
    if d == [] then [(k, v)]
    else if d[0].0 == k then
      assert Keys([(k, v)] + d[1..]) == Keys(d);
      [(k, v)] + d[1..]
    else
      var t := Put(d[1..], k, v);
      PutCons(d, k, v, t);
      [d[0]] + t
  }

  /** The step of `Put` past a first pair with another key. */
  lemma PutCons<K, V>(d: seq<(K, V)>, k: K, v: V, t: seq<(K, V)>)
    requires d != [] && d[0].0 != k && PutSpec(d[1..], k, v, t)
    ensures PutSpec(d, k, v, [d[0]] + t)
  {
    assert Keys(d) == [d[0].0] + Keys(d[1..]);
    assert k in Keys(d) <==> k in Keys(d[1..]);
    PutConsKeys(d, k, t);
    PutConsKeeps(d, k, t);
    if k !in Keys(d) {
      assert d == [d[0]] + d[1..];
    }
  }

  lemma PutConsKeys<K, V>(d: seq<(K, V)>, k: K, t: seq<(K, V)>)
    requires d != [] && d[0].0 != k
    requires Keys(t) == (if k in Keys(d[1..]) then Keys(d[1..]) else Keys(d[1..]) + [k])
    ensures Keys([d[0]] + t) == (if k in Keys(d) then Keys(d) else Keys(d) + [k])
  {
    assert Keys(d) == [d[0].0] + Keys(d[1..]);
    assert Keys([d[0]] + t) == [d[0].0] + Keys(t);
    assert k in Keys(d) <==> k in Keys(d[1..]);
  }

  lemma PutConsKeeps<K, V>(d: seq<(K, V)>, k: K, t: seq<(K, V)>)
    requires d != [] && |t| >= |d| - 1
    requires forall i :: 0 <= i < |d[1..]| && d[1..][i].0 != k ==> t[i] == d[1..][i]
    ensures forall i :: 0 <= i < |d| && d[i].0 != k && i > 0 ==> ([d[0]] + t)[i] == d[i]
  {
    forall i | 0 < i < |d| && d[i].0 != k
      ensures ([d[0]] + t)[i] == d[i]
    {
      assert d[1..][i - 1] == d[i];
    }
  }

  lemma {:induction false} PutGet<K, V>(d: seq<(K, V)>, k: K, v: V, k': K)
    ensures Get(Put(d, k, v), k') == if k' == k then Some(v) else Get(d, k')
  {
    if d != [] && d[0].0 != k {
      PutGet(d[1..], k, v, k');
    }
  }

  lemma PutDistinct<K, V>(d: seq<(K, V)>, k: K, v: V)
    requires Distinct(d)
    ensures Distinct(Put(d, k, v))
  {
    var r := Put(d, k, v);
    assert forall i :: 0 <= i < |r| ==> r[i].0 == Keys(r)[i];
    assert forall i :: 0 <= i < |d| ==> d[i].0 == Keys(d)[i];
  }

  /** Every pair after `d[k] = v` is the new one or was there before. */
  lemma {:induction false} PutMembers<K, V>(d: seq<(K, V)>, k: K, v: V)
    ensures forall p :: p in Put(d, k, v) ==> p == (k, v) || p in d
  {
    if d != [] && d[0].0 != k {
      PutMembers(d[1..], k, v);
      assert Put(d, k, v) == [d[0]] + Put(d[1..], k, v);
    }
  }

  /** `del d[k]` when present, nothing otherwise: the pairs with other keys, in order. */
  function Remove<K(==), V>(d: seq<(K, V)>, k: K): (r: seq<(K, V)>)
    ensures k !in Keys(r)
    ensures forall p :: p in r ==> p in d
  {
    if d == [] then []
    else if d[0].0 == k then Remove(d[1..], k)
    else [d[0]] + Remove(d[1..], k)
  }

  lemma {:induction false} RemoveGet<K, V>(d: seq<(K, V)>, k: K, k': K)
    ensures Get(Remove(d, k), k') == if k' == k then None else Get(d, k')
  {
    if d != [] {
      RemoveGet(d[1..], k, k');
    }
  }

  lemma {:induction false} RemoveLength<K, V>(d: seq<(K, V)>, k: K)
    requires Distinct(d)
    ensures |Remove(d, k)| == if k in Keys(d) then |d| - 1 else |d|
  {
    if d != [] {
      assert Keys(d) == [d[0].0] + Keys(d[1..]);
      RemoveLength(d[1..], k);
    }
  }

  lemma {:induction false} RemoveDistinct<K, V>(d: seq<(K, V)>, k: K)
    requires Distinct(d)
    ensures Distinct(Remove(d, k))
  {
    if d != [] {
      RemoveDistinct(d[1..], k);
      var t := Remove(d[1..], k);
      assert forall p :: p in t ==> p in d[1..];
      forall j | 0 <= j < |t| ensures t[j].0 != d[0].0 {
        assert t[j] in d[1..];
      }
    }
  }

  /** Dropping the oldest pairs leaves a dict whose keys were all present. */
  lemma SuffixKeys<K, V>(d: seq<(K, V)>, k: nat)
    requires Distinct(d) && k <= |d|
    ensures Distinct(d[k..])
    ensures forall x :: x in Keys(d[k..]) ==> x in Keys(d)
  {
    assert forall i :: 0 <= i < |d[k..]| ==> d[k..][i] == d[k + i];
    assert forall i :: 0 <= i < |d[k..]| ==> Keys(d[k..])[i] == Keys(d)[k + i];
  }

  lemma GetIn<K, V>(d: seq<(K, V)>, k: K)
    ensures Get(d, k).Some? ==> (k, Get(d, k).value) in d
  {
    if Get(d, k).Some? {
      var i := GetSome(d, k);
    }
  }

  /** In a dict without repeated keys, `d[k] = v` for a present key replaces
      the pair at its position. */
  lemma {:induction false} PutAt<K, V>(d: seq<(K, V)>, j: nat, v: V)
    requires Distinct(d) && j < |d|
    ensures Put(d, d[j].0, v) == d[j := (d[j].0, v)]
  {
    hide PutSpec;
    if j > 0 {
      assert d[0].0 != d[j].0;
      assert Distinct(d[1..]) by {
        forall a, b | 0 <= a < b < |d[1..]| ensures d[1..][a].0 != d[1..][b].0 {
          assert d[1..][a] == d[a + 1] && d[1..][b] == d[b + 1];
        }
      }
      assert Put(d, d[j].0, v) == [d[0]] + Put(d[1..], d[j].0, v);
      assert d[1..][j - 1] == d[j];
      assert d[j := (d[j].0, v)] == [d[0]] + d[1..][j - 1 := (d[j].0, v)];
      hide Put;
      PutAt(d[1..], j - 1, v);
    }
  }

  /** The sum of `f` over the values. */
  function SumBy<K, V>(d: seq<(K, V)>, f: V -> nat): nat {
    if d == [] then 0 else f(d[0].1) + SumBy(d[1..], f)
  }

  /** `d[k] = v` changes the sum by the value it replaces (none when `k` is new). */
  lemma {:induction false} PutSumBy<K, V>(d: seq<(K, V)>, k: K, v: V, f: V -> nat)
    ensures SumBy(Put(d, k, v), f) + (if Get(d, k).Some? then f(Get(d, k).value) else 0) == SumBy(d, f) + f(v)
  {
    if d != [] && d[0].0 != k {
      PutSumBy(d[1..], k, v, f);
      assert Put(d, k, v) == [d[0]] + Put(d[1..], k, v);
      assert ([d[0]] + Put(d[1..], k, v))[1..] == Put(d[1..], k, v);
    }
  }

  /** `d[k] = v` for each pair in turn. */
  function PutAll<K(==), V>(d: seq<(K, V)>, pairs: seq<(K, V)>): (r: seq<(K, V)>)
    ensures forall k :: k in Keys(d) ==> k in Keys(r)
  {
    if pairs == [] then d
    else
      var last := pairs[|pairs| - 1];
      Put(PutAll(d, pairs[..|pairs| - 1]), last.0, last.1)
  }

  lemma PutAllSnoc<K, V>(d: seq<(K, V)>, pairs: seq<(K, V)>, p: (K, V))
    ensures PutAll(d, pairs + [p]) == Put(PutAll(d, pairs), p.0, p.1)
  {
    assert (pairs + [p])[..|pairs|] == pairs;
  }

  /** The loop `for k, v in pairs: d[k] = v`. */
  method PutEach<K(==), V>(d: seq<(K, V)>, pairs: seq<(K, V)>) returns (r: seq<(K, V)>)
    ensures r == PutAll(d, pairs)
  {
    hide PutSpec;
    r := d;
    for i := 0 to |pairs|
      invariant r == PutAll(d, pairs[..i])
    {
      PutAllSnoc(d, pairs[..i], pairs[i]);
      assert pairs[..i + 1] == pairs[..i] + [pairs[i]];
      r := Put(r, pairs[i].0, pairs[i].1);
    }
    assert pairs[..|pairs|] == pairs;
  }

  /** The value of the last pair with key `k`, if any. */
  function LastValue<K(==), V>(pairs: seq<(K, V)>, k: K): (r: Option<V>)
    ensures r.None? <==> k !in Keys(pairs)
    ensures r.Some? ==> (k, r.value) in pairs
  {
    if pairs == [] then None
    else if pairs[|pairs| - 1].0 == k then Some(pairs[|pairs| - 1].1)
    else
      assert Keys(pairs) == Keys(pairs[..|pairs| - 1]) + [pairs[|pairs| - 1].0];
      LastValue(pairs[..|pairs| - 1], k)
  }

  /** The last pair with key `k` gives the value. */
  lemma {:induction false} LastValueAt<K, V>(pairs: seq<(K, V)>, k: K, i: nat)
    requires i < |pairs| && pairs[i].0 == k && forall j :: i < j < |pairs| ==> pairs[j].0 != k
    ensures LastValue(pairs, k) == Some(pairs[i].1)
  {
    var n := |pairs| - 1;
    if i < n {
      assert forall j :: i < j < n ==> pairs[..n][j] == pairs[j];
      LastValueAt(pairs[..n], k, i);
    }
  }

  /** After the pairs are stored, a key holds the value of its last pair, or
      what it held before when no pair has it. */
  lemma {:induction false} PutAllGet<K, V>(d: seq<(K, V)>, pairs: seq<(K, V)>, k: K)
    ensures Get(PutAll(d, pairs), k) == if LastValue(pairs, k).Some? then LastValue(pairs, k) else Get(d, k)
  {
    if pairs != [] {
      var init := pairs[..|pairs| - 1];
      var last := pairs[|pairs| - 1];
      PutAllGet(d, init, k);
      PutGet(PutAll(d, init), last.0, last.1, k);
    }
  }
}
