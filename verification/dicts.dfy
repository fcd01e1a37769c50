/**
 * Python dicts as insertion-ordered association lists.  Assigning to an
 * existing key keeps its position; assigning to a new key appends it;
 * `pop`/`del` remove it and raise KeyError when it is absent.
 */
module Dicts {
  import opened Wrappers
  import opened Seqs

  type Dict<K, V> = seq<(K, V)>

  /** The keys in iteration order. */
  function Keys<K, V>(d: Dict<K, V>): (ks: seq<K>)
    ensures |ks| == |d|
    ensures forall i :: 0 <= i < |d| ==> ks[i] == d[i].0
  {
    seq(|d|, i requires 0 <= i < |d| => d[i].0)
  }

  /** A dict never holds a key twice. */
  predicate Valid<K(==), V>(d: Dict<K, V>) {
    NoDup(Keys(d))
  }

  /** The position of `k`, if it is a key. */
  function Find<K(==,!new), V>(d: Dict<K, V>, k: K): (r: Option<nat>)
    ensures r.Some? ==> r.value < |d| && d[r.value].0 == k
    ensures r.Some? ==> forall j :: 0 <= j < r.value ==> d[j].0 != k
    ensures r.None? ==> forall j :: 0 <= j < |d| ==> d[j].0 != k
  {
    if |d| == 0 then None
    else if d[0].0 == k then Some(0)
    else
      var rest := Find(d[1..], k);
      if rest.Some? then Some(rest.value + 1) else None
  }

  predicate HasKey<K(==,!new), V>(d: Dict<K, V>, k: K) {
    Find(d, k).Some?
  }

  lemma HasKeyIff<K(!new), V>(d: Dict<K, V>, k: K)
    ensures HasKey(d, k) <==> k in Keys(d)
  {
    if k in Keys(d) {
      var i :| 0 <= i < |d| && Keys(d)[i] == k;
      assert d[i].0 == k;
    }
  }

  /** `d.get(k)`. */
  function Get<K(==,!new), V>(d: Dict<K, V>, k: K): (r: Option<V>)
    ensures r.Some? <==> HasKey(d, k)
    ensures r.Some? ==> (k, r.value) in d
  {
    match Find(d, k)
    case None => None
    case Some(i) => Some(d[i].1)
  }

  /** In a valid dict, the pair at a position is what `get` returns for its key. */
  lemma GetAt<K(!new), V>(d: Dict<K, V>, i: nat)
    requires Valid(d) && i < |d|
    ensures Get(d, d[i].0) == Some(d[i].1)
  {
    var j := Find(d, d[i].0).value;
    assert Keys(d)[j] == Keys(d)[i];
  }

  /** `d[k] = v`. */
  function Set<K(==,!new), V>(d: Dict<K, V>, k: K, v: V): (r: Dict<K, V>)
    ensures Get(r, k) == Some(v)
    ensures forall k' :: k' != k ==> Get(r, k') == Get(d, k')
    ensures HasKey(d, k) ==> Keys(r) == Keys(d)
    ensures !HasKey(d, k) ==> Keys(r) == Keys(d) + [k]
    ensures Valid(d) ==> Valid(r)
  {
    match Find(d, k)
    case None =>
      var r := d + [(k, v)];
      assert Keys(r) == Keys(d) + [k];
      assert Find(r, k) == Some(|d|) by {
        FindAppend(d, k, v, k);
      }
      assert forall k' :: k' != k ==> Find(r, k') == Find(d, k') by {
        forall k' | k' != k ensures Find(r, k') == Find(d, k') {
          FindAppend(d, k, v, k');
        }
      }
      r
    case Some(i) =>
      var r := d[i := (k, v)];
      assert Keys(r) == Keys(d);
      assert forall k' :: Find(r, k') == Find(d, k') by {
        forall k' ensures Find(r, k') == Find(d, k') {
          FindUpdate(d, i, v, k');
        }
      }
      r
  }

  lemma {:induction false} FindAppend<K(!new), V>(d: Dict<K, V>, k: K, v: V, q: K)
    requires Find(d, k).None?
    ensures Find(d + [(k, v)], q) == if q == k then Some(|d|) else Find(d, q)
    decreases |d|
  {
    if |d| > 0 {
      assert (d + [(k, v)])[1..] == d[1..] + [(k, v)];
      if d[0].0 != q {
        FindAppend(d[1..], k, v, q);
      }
    }
  }

  lemma {:induction false} FindUpdate<K(!new), V>(d: Dict<K, V>, i: nat, v: V, q: K)
    requires i < |d|
    ensures Find(d[i := (d[i].0, v)], q) == Find(d, q)
    decreases |d|
  {
    if |d| > 0 && i > 0 {
      assert d[i := (d[i].0, v)][1..] == d[1..][i - 1 := (d[i].0, v)];
      FindUpdate(d[1..], i - 1, v, q);
    }
  }

  /** `del d[k]` on a key that is present. */
  function Remove<K(==,!new), V>(d: Dict<K, V>, k: K): (r: Dict<K, V>)
    requires Valid(d) && HasKey(d, k)
    ensures |r| == |d| - 1
    ensures !HasKey(r, k)
    ensures forall k' :: k' != k ==> Get(r, k') == Get(d, k')
    ensures Valid(r)
    ensures forall k' :: HasKey(r, k') <==> HasKey(d, k') && k' != k
  {
    var i := Find(d, k).value;
    var r := d[..i] + d[i + 1..];
    assert Keys(r) == Keys(d)[..i] + Keys(d)[i + 1..];
    assert Valid(r) by {
      forall a, b | 0 <= a < b < |r| ensures Keys(r)[a] != Keys(r)[b] {
        var a' := if a < i then a else a + 1;
        var b' := if b < i then b else b + 1;
        assert Keys(r)[a] == Keys(d)[a'] && Keys(r)[b] == Keys(d)[b'];
      }
    }
    forall j | 0 <= j < |r| ensures r[j].0 != k {
      var j' := if j < i then j else j + 1;
      assert r[j] == d[j'];
      assert Keys(d)[j'] != Keys(d)[i] || j' == i;
    }
    assert !HasKey(r, k);
    forall k' | k' != k ensures Get(r, k') == Get(d, k') {
      RemoveGet(d, i, k');
    }
    assert forall k' :: HasKey(r, k') <==> Get(r, k').Some?;
    r
  }

  lemma {:induction false} RemoveGet<K(!new), V>(d: Dict<K, V>, i: nat, q: K)
    requires i < |d| && d[i].0 != q
    ensures Get(d[..i] + d[i + 1..], q) == Get(d, q)
    decreases |d|
  {
    var r := d[..i] + d[i + 1..];
    if i == 0 {
      assert r == d[1..];
    } else if d[0].0 != q {
      assert r[1..] == d[1..][..i - 1] + d[1..][i..];
      RemoveGet(d[1..], i - 1, q);
    }
  }

  /** `d.pop(k)` / `del d[k]`: KeyError when `k` is absent. */
  function Pop<K(==,!new), V>(d: Dict<K, V>, k: K, name: string): (r: Result<Dict<K, V>>)
    requires Valid(d)
    ensures r.Err? <==> !HasKey(d, k)
    ensures r.Err? ==> r.error == KeyError(name)
    ensures r.Ok? ==> r.value == Remove(d, k)
  {
    if HasKey(d, k) then Ok(Remove(d, k)) else Err(KeyError(name))
  }

  /** `d[k]`: KeyError when `k` is absent. */
  function Lookup<K(==,!new), V>(d: Dict<K, V>, k: K, name: string): (r: Result<V>)
    ensures r.Ok? <==> HasKey(d, k)
    ensures r.Ok? ==> Get(d, k) == Some(r.value)
    ensures r.Err? ==> r.error == KeyError(name)
  {
    match Get(d, k)
    case Some(v) => Ok(v)
    case None => Err(KeyError(name))
  }

  /** `get` on a dict with one more pair in front. */
  lemma GetCons<K(!new), V>(p: (K, V), d: Dict<K, V>, k: K)
    ensures Get([p] + d, k) == if p.0 == k then Some(p.1) else Get(d, k)
  {
    assert ([p] + d)[1..] == d;
  }

  /** `{k: v for k, v in d.items() if keep(k)}`: the pairs whose key passes, in their order. */
  function KeepIf<K(==,!new), V>(d: Dict<K, V>, keep: K -> bool): (r: Dict<K, V>)
    ensures |r| <= |d|
    ensures forall k :: Get(r, k) == if keep(k) then Get(d, k) else None
  {
    if |d| == 0 then []
    else
      var rest := KeepIf(d[1..], keep);
      var r := if keep(d[0].0) then [d[0]] + rest else rest;
      assert forall k :: Get(r, k) == if keep(k) then Get(d, k) else None by {
        forall k ensures Get(r, k) == if keep(k) then Get(d, k) else None {
          assert d == [d[0]] + d[1..];
          GetCons(d[0], d[1..], k);
          if keep(d[0].0) {
            GetCons(d[0], rest, k);
          }
        }
      }
      r
  }

  /** Filtering a dict cannot introduce a repeated key. */
  lemma {:induction false} KeepIfValid<K(!new), V>(d: Dict<K, V>, keep: K -> bool)
    requires Valid(d)
    ensures Valid(KeepIf(d, keep))
    decreases |d|
  {
    if |d| > 0 {
      assert Keys(d[1..]) == Keys(d)[1..];
      KeepIfValid(d[1..], keep);
      var rest := KeepIf(d[1..], keep);
      if keep(d[0].0) {
        assert d[0].0 !in Keys(d[1..]);
        HasKeyIff(d[1..], d[0].0);
        HasKeyIff(rest, d[0].0);
        assert Keys([d[0]] + rest) == [d[0].0] + Keys(rest);
      }
    }
  }

  /** `d.update(other)`: every pair of `other` assigned in order, so its values win. */
  function UpdateFrom<K(==,!new), V>(d: Dict<K, V>, other: Dict<K, V>): (r: Dict<K, V>)
    requires Valid(other)
    ensures forall k :: Get(r, k) == if HasKey(other, k) then Get(other, k) else Get(d, k)
    ensures Valid(d) ==> Valid(r)
    decreases |other|
  {
    if |other| == 0 then d
    else
      var p := other[0];
      var tail := other[1..];
      assert Keys(tail) == Keys(other)[1..];
      var r := UpdateFrom(Set(d, p.0, p.1), tail);
      assert forall k :: Get(r, k) == if HasKey(other, k) then Get(other, k) else Get(d, k) by {
        forall k ensures Get(r, k) == if HasKey(other, k) then Get(other, k) else Get(d, k) {
          assert other == [p] + tail;
          GetCons(p, tail, k);
          if k == p.0 {
            HasKeyIff(tail, k);
            assert Keys(other)[0] == k;
          }
        }
      }
      r
  }
}

