/**
 Sequence helpers for the traced path: first occurrence (`findIndex` and the
 `??=` id assignment) and order-preserving deduplication (`new Set`).
 */
module Paths {
  import opened Wrappers

  /** No element occurs twice. */
  predicate NoDup<T(==)>(s: seq<T>) {
    forall i, j :: 0 <= i < j < |s| ==> s[i] != s[j]
  }

  /** The least index at which `c` occurs in `s`, if any. */
  function FirstIndex<T(==)>(s: seq<T>, c: T): (r: Option<nat>)
    ensures r.None? <==> c !in s
    ensures r.Some? ==> r.value < |s| && s[r.value] == c
    ensures r.Some? ==> forall j :: 0 <= j < r.value ==> s[j] != c
  {
    if |s| == 0 then None
    else if s[0] == c then Some(0)
    else match FirstIndex(s[1..], c)
      case None => None
      case Some(i) => Some(i + 1)
  }

  /** `Array.prototype.findIndex` with an equality test: -1 when absent. */
  function FindIndex<T(==)>(s: seq<T>, c: T): (r: int)
    ensures -1 <= r < |s|
    ensures r == -1 <==> c !in s
    ensures 0 <= r ==> s[r] == c && forall j :: 0 <= j < r ==> s[j] != c
  {
    match FirstIndex(s, c)
    case None => -1
    case Some(i) => i
  }

  /** An index at which `c` occurs with no earlier occurrence is the first one. */
  lemma FirstIndexUnique<T>(s: seq<T>, c: T, k: nat)
    requires k < |s| && s[k] == c
    requires forall j :: 0 <= j < k ==> s[j] != c
    ensures FirstIndex(s, c) == Some(k)
    ensures FindIndex(s, c) == k
  {
  }

  /** Extending a sequence leaves the first index of an element it already holds unchanged. */
  lemma FindIndexExtend<T>(s: seq<T>, e: T, c: T)
    requires c in s
    ensures FindIndex(s + [e], c) == FindIndex(s, c)
  {
    var k := FindIndex(s, c);
    FirstIndexUnique(s + [e], c, k);
  }

  /** `FirstIndex` over a growing prefix: the `??=` of the editor's scan. */
  lemma FirstIndexStep<T>(s: seq<T>, c: T, n: nat)
    requires n < |s|
    ensures FirstIndex(s[..n + 1], c) ==
      (if FirstIndex(s[..n], c).Some? then FirstIndex(s[..n], c)
       else if s[n] == c then Some(n) else None)
  {
    var p := s[..n + 1];
    assert s[..n] == p[..n];
    match FirstIndex(s[..n], c)
    case Some(k) =>
      FirstIndexUnique(p, c, k);
    case None =>
      if s[n] == c {
        FirstIndexUnique(p, c, n);
      } else {
        assert p == s[..n] + [s[n]];
        assert c !in p;
      }
  }

  /**
   The distinct elements of `s` in order of first occurrence, as built by
   inserting the path left to right into a `Set`.
   */
  function Dedup<T(==,!new)>(s: seq<T>): (r: seq<T>)
    ensures NoDup(r)
    ensures forall c :: c in r <==> c in s
    ensures |r| <= |s|
  {
    if |s| == 0 then []
    else
      var d := Dedup(s[..|s| - 1]);
      assert s == s[..|s| - 1] + [s[|s| - 1]];
      if s[|s| - 1] in d then d else d + [s[|s| - 1]]
  }

  /** Deduplication orders elements by the index of their first occurrence. */
  lemma {:induction false} DedupOrder<T(!new)>(s: seq<T>)
    ensures forall i, j :: 0 <= i < j < |Dedup(s)| ==> FindIndex(s, Dedup(s)[i]) < FindIndex(s, Dedup(s)[j])
  {
    if |s| > 0 {
      var p, e := s[..|s| - 1], s[|s| - 1];
      assert s == p + [e];
      DedupOrder(p);
      var d, dp := Dedup(s), Dedup(p);
      forall x | x in p
        ensures FindIndex(s, x) == FindIndex(p, x)
      {
        FindIndexExtend(p, e, x);
      }
      if e !in dp {
        assert d == dp + [e];
        assert FindIndex(s, e) == |p| by {
          FirstIndexUnique(s, e, |p|);
        }
        forall i, j | 0 <= i < j < |d|
          ensures FindIndex(s, d[i]) < FindIndex(s, d[j])
        {
          assert d[i] == dp[i] && d[i] in p;
          if j < |dp| {
            assert d[j] == dp[j];
          }
        }
      }
    }
  }

  /** Deduplicating a sequence without repetitions changes nothing. */
  lemma {:induction false} DedupOfDistinct<T(!new)>(s: seq<T>)
    requires NoDup(s)
    ensures Dedup(s) == s
  {
    if |s| > 0 {
      var p, e := s[..|s| - 1], s[|s| - 1];
      assert NoDup(p);
      DedupOfDistinct(p);
      forall k | 0 <= k < |p|
        ensures p[k] != e
      {
        assert p[k] == s[k];
      }
    }
  }

  /** Deduplication is idempotent. */
  lemma DedupIdempotent<T(!new)>(s: seq<T>)
    ensures Dedup(Dedup(s)) == Dedup(s)
  {
    DedupOfDistinct(Dedup(s));
  }

  /**
   Deduplication is fully determined by its three properties: any sequence
   without repetitions, holding exactly the elements of `s`, ordered by
   first occurrence in `s`, is `Dedup(s)`.
   */
  lemma DedupCharacterised<T(!new)>(s: seq<T>, t: seq<T>)
    requires NoDup(t)
    requires forall c :: c in t <==> c in s
    requires forall i, j :: 0 <= i < j < |t| ==> FindIndex(s, t[i]) < FindIndex(s, t[j])
    ensures t == Dedup(s)
  {
    DedupOrder(s);
    OrderedByKeyUnique(s, t, Dedup(s));
  }

  /** Two sequences with the same elements, both strictly increasing in their first index in `s`, are equal. */
  lemma {:induction false} OrderedByKeyUnique<T>(s: seq<T>, a: seq<T>, b: seq<T>)
    requires forall c :: c in a <==> c in b
    requires forall c :: c in a ==> c in s
    requires forall i, j :: 0 <= i < j < |a| ==> FindIndex(s, a[i]) < FindIndex(s, a[j])
    requires forall i, j :: 0 <= i < j < |b| ==> FindIndex(s, b[i]) < FindIndex(s, b[j])
    ensures a == b
    decreases |a|
  {
    assert |b| == 0 || b[0] in b;
    if |a| > 0 {
      assert a[0] in b;
      OrderedHeadsEqual(s, a, b);
      OrderedTails(s, a, b);
      OrderedByKeyUnique(s, a[1..], b[1..]);
      assert a == [a[0]] + a[1..];
      assert b == [b[0]] + b[1..];
    }
  }

  /** Both sequences start with the element of least first index. */
  lemma OrderedHeadsEqual<T>(s: seq<T>, a: seq<T>, b: seq<T>)
    requires |a| > 0 && |b| > 0
    requires forall c :: c in a <==> c in b
    requires forall c :: c in a ==> c in s
    requires forall i, j :: 0 <= i < j < |a| ==> FindIndex(s, a[i]) < FindIndex(s, a[j])
    requires forall i, j :: 0 <= i < j < |b| ==> FindIndex(s, b[i]) < FindIndex(s, b[j])
    ensures a[0] == b[0]
  {
    assert a[0] in b && b[0] in a;
    var k :| 0 <= k < |b| && b[k] == a[0];
    var m :| 0 <= m < |a| && a[m] == b[0];
    assert FindIndex(s, a[0]) <= FindIndex(s, a[m]);
    assert FindIndex(s, b[0]) <= FindIndex(s, b[k]);
    assert a[0] == s[FindIndex(s, a[0])] == s[FindIndex(s, b[0])] == b[0];
  }

  /** Past a common head, the tails still have the same elements and the same order. */
  lemma OrderedTails<T>(s: seq<T>, a: seq<T>, b: seq<T>)
    requires |a| > 0 && |b| > 0 && a[0] == b[0]
    requires forall c :: c in a <==> c in b
    requires forall i, j :: 0 <= i < j < |a| ==> FindIndex(s, a[i]) < FindIndex(s, a[j])
    requires forall i, j :: 0 <= i < j < |b| ==> FindIndex(s, b[i]) < FindIndex(s, b[j])
    ensures forall c :: c in a[1..] <==> c in b[1..]
    ensures forall i, j :: 0 <= i < j < |a| - 1 ==> FindIndex(s, a[1..][i]) < FindIndex(s, a[1..][j])
    ensures forall i, j :: 0 <= i < j < |b| - 1 ==> FindIndex(s, b[1..][i]) < FindIndex(s, b[1..][j])
  {
    forall c | c in a[1..]
      ensures c in b[1..]
    {
      var i :| 0 <= i < |a| - 1 && a[1..][i] == c;
      assert a[i + 1] == c;
      assert FindIndex(s, a[0]) < FindIndex(s, c);
      assert c in b;
      assert b == [b[0]] + b[1..];
    }
    forall c | c in b[1..]
      ensures c in a[1..]
    {
      var i :| 0 <= i < |b| - 1 && b[1..][i] == c;
      assert b[i + 1] == c;
      assert FindIndex(s, b[0]) < FindIndex(s, c);
      assert c in a;
      assert a == [a[0]] + a[1..];
    }
    forall i, j | 0 <= i < j < |a| - 1
      ensures FindIndex(s, a[1..][i]) < FindIndex(s, a[1..][j])
    {
      assert a[1..][i] == a[i + 1] && a[1..][j] == a[j + 1];
    }
    forall i, j | 0 <= i < j < |b| - 1
      ensures FindIndex(s, b[1..][i]) < FindIndex(s, b[1..][j])
    {
      assert b[1..][i] == b[i + 1] && b[1..][j] == b[j + 1];
    }
  }
}
