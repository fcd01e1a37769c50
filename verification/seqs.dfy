/** Python list operations on sequences: `list.remove`, comprehension filters, duplicate freedom. */
module Seqs {

  predicate NoDup<T(==)>(s: seq<T>) {
    forall i, j :: 0 <= i < j < |s| ==> s[i] != s[j]
  }

  lemma NoDupAppend<T>(s: seq<T>, x: T)
    requires x !in s
    ensures NoDup(s) ==> NoDup(s + [x])
  {
  }

  /** `s.index(x)`: the first position holding `x`. */
  function FirstIndex<T(==)>(s: seq<T>, x: T): (i: nat)
    requires x in s
    ensures i < |s| && s[i] == x
    ensures x !in s[..i]
  {
    if s[0] == x then 0 else 1 + FirstIndex(s[1..], x)
  }

  /** `s.remove(x)`: drops the first occurrence of `x`, keeping the order of the rest. */
  function RemoveFirst<T(==,!new)>(s: seq<T>, x: T): (r: seq<T>)
    requires x in s
    ensures |r| == |s| - 1
    ensures multiset(r) == multiset(s) - multiset{x}
    ensures forall y :: y != x ==> (y in r <==> y in s)
    ensures NoDup(s) ==> x !in r && NoDup(r)
  {
    var i := FirstIndex(s, x);
    RemoveAtMultiset(s, i);
    RemoveAtMembers(s, i);
    RemoveAtNoDup(s, i);
    s[..i] + s[i + 1..]
  }

  /** Dropping position `i` takes exactly one `s[i]` out of the multiset. */
  lemma RemoveAtMultiset<T>(s: seq<T>, i: nat)
    requires i < |s|
    ensures multiset(s[..i] + s[i + 1..]) == multiset(s) - multiset{s[i]}
  {
    assert s == s[..i] + [s[i]] + s[i + 1..];
  }

  /** Dropping position `i` keeps every value other than `s[i]`. */
  lemma RemoveAtMembers<T>(s: seq<T>, i: nat)
    requires i < |s|
    ensures forall y :: y != s[i] ==> (y in s[..i] + s[i + 1..] <==> y in s)
  {
    var r := s[..i] + s[i + 1..];
    forall y | y != s[i] && y in s ensures y in r {
      var k :| 0 <= k < |s| && s[k] == y;
      if k < i { assert r[k] == y; } else { assert r[k - 1] == y; }
    }
  }

  /** Dropping position `i` of a duplicate-free sequence removes `s[i]` altogether and keeps it duplicate-free. */
  lemma RemoveAtNoDup<T>(s: seq<T>, i: nat)
    requires i < |s|
    ensures NoDup(s) ==> s[i] !in s[..i] + s[i + 1..] && NoDup(s[..i] + s[i + 1..])
  {
    var r := s[..i] + s[i + 1..];
    if NoDup(s) {
      forall a, b | 0 <= a < b < |r| ensures r[a] != r[b] {
        var a' := if a < i then a else a + 1;
        var b' := if b < i then b else b + 1;
        assert r[a] == s[a'] && r[b] == s[b'];
      }
      forall k | 0 <= k < |r| ensures r[k] != s[i] {
        var k' := if k < i then k else k + 1;
        assert r[k] == s[k'];
      }
    }
  }

  /** `[x for x in s if keep(x)]`. */
  function Filter<T(!new)>(s: seq<T>, keep: T -> bool): (r: seq<T>)
    ensures |r| <= |s|
    ensures forall x :: x in r <==> x in s && keep(x)
    ensures forall i :: 0 <= i < |r| ==> keep(r[i])
  {
    if |s| == 0 then []
    else
      var rest := Filter(s[1..], keep);
      assert s == [s[0]] + s[1..];
      if keep(s[0]) then [s[0]] + rest else rest
  }

  /** A filter that keeps every element returns the sequence unchanged. */
  lemma {:induction false} FilterAll<T(!new)>(s: seq<T>, keep: T -> bool)
    requires forall i :: 0 <= i < |s| ==> keep(s[i])
    ensures Filter(s, keep) == s
  {
    if |s| > 0 {
      FilterAll(s[1..], keep);
    }
  }

  /** Filtering distributes over concatenation, so it keeps the relative order of what it keeps. */
  lemma {:induction false} FilterConcat<T(!new)>(a: seq<T>, b: seq<T>, keep: T -> bool)
    ensures Filter(a + b, keep) == Filter(a, keep) + Filter(b, keep)
    decreases |a|
  {
    if |a| > 0 {
      assert (a + b)[1..] == a[1..] + b;
      FilterConcat(a[1..], b, keep);
    } else {
      assert a + b == b;
    }
  }
}
