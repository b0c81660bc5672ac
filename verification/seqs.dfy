/** Counting and filtering rows of a table, the model's `COUNT(*) ... WHERE`,
    `SELECT ... WHERE` and `Array.prototype.filter`. */
module Seqs {

  /** The number of elements of `s` satisfying `p` */
  function CountIf<T>(s: seq<T>, p: T -> bool): (r: nat)
    ensures r <= |s|
    ensures r == 0 <==> forall i :: 0 <= i < |s| ==> !p(s[i])
    ensures r == |s| <==> forall i :: 0 <= i < |s| ==> p(s[i])
    decreases |s|
  {
    if |s| == 0 then 0
    else (if p(s[0]) then 1 else 0) + CountIf(s[1..], p)
  }

  lemma {:induction false} CountIfAppend<T>(a: seq<T>, b: seq<T>, p: T -> bool)
    ensures CountIf(a + b, p) == CountIf(a, p) + CountIf(b, p)
    decreases |a|
  {
    if |a| == 0 {
      assert a + b == b;
    } else {
      assert (a + b)[0] == a[0];
      assert (a + b)[1..] == a[1..] + b;
      CountIfAppend(a[1..], b, p);
    }
  }

  /** Counting with a weaker predicate never gives less */
  lemma {:induction false} CountIfMonotone<T>(s: seq<T>, p: T -> bool, q: T -> bool)
    requires forall i :: 0 <= i < |s| && p(s[i]) ==> q(s[i])
    ensures CountIf(s, p) <= CountIf(s, q)
    decreases |s|
  {
    if |s| > 0 {
      CountIfMonotone(s[1..], p, q);
    }
  }

  /** Counts of two predicates that never hold together add up to at most |s| */
  lemma {:induction false} CountIfDisjoint<T>(s: seq<T>, p: T -> bool, q: T -> bool)
    requires forall i :: 0 <= i < |s| ==> !(p(s[i]) && q(s[i]))
    ensures CountIf(s, p) + CountIf(s, q) == CountIf(s, x => p(x) || q(x))
    decreases |s|
  {
    if |s| > 0 {
      CountIfDisjoint(s[1..], p, q);
    }
  }

  /** Removing the element at `k` lowers the count by one exactly when that
      element satisfies `p` */
  lemma CountIfRemoveAt<T>(s: seq<T>, k: nat, p: T -> bool)
    requires k < |s|
    ensures CountIf(s[..k] + s[k + 1..], p) == CountIf(s, p) - (if p(s[k]) then 1 else 0)
  {
    var a, b := s[..k], s[k + 1..];
    var ak := s[..k + 1];
    assert ak == a + [s[k]];
    assert s == ak + b;
    CountIfAppend(ak, b, p);
    CountIfAppend(a, [s[k]], p);
    CountIfAppend(a, b, p);
    assert CountIf([s[k]], p) == if p(s[k]) then 1 else 0 by {
      assert [s[k]][1..] == [];
    }
  }

  /** The elements of `s` satisfying `p`, in their original order */
  function Filter<T>(s: seq<T>, p: T -> bool): (r: seq<T>)
    ensures |r| == CountIf(s, p)
    ensures forall i :: 0 <= i < |r| ==> p(r[i])
    ensures forall i :: 0 <= i < |r| ==> r[i] in s
    ensures forall i :: 0 <= i < |s| && p(s[i]) ==> s[i] in r
    decreases |s|
  {
    if |s| == 0 then []
    else if p(s[0]) then [s[0]] + Filter(s[1..], p)
    else Filter(s[1..], p)
  }

  /** The filter keeps every copy of an element satisfying `p` and no copy
      of any other */
  lemma {:induction false} FilterMultiplicity<T>(s: seq<T>, p: T -> bool, x: T)
    ensures multiset(Filter(s, p))[x] == if p(x) then multiset(s)[x] else 0
    decreases |s|
  {
    if |s| > 0 {
      var t := s[1..];
      FilterMultiplicity(t, p, x);
      assert s == [s[0]] + t;
      if p(s[0]) {
        assert Filter(s, p) == [s[0]] + Filter(t, p);
      } else {
        assert Filter(s, p) == Filter(t, p);
      }
    }
  }

  /** Splitting a table by two complementary predicates loses and adds nothing */
  lemma FilterPartition<T>(s: seq<T>, p: T -> bool, q: T -> bool)
    requires forall i :: 0 <= i < |s| ==> (q(s[i]) <==> !p(s[i]))
    ensures multiset(Filter(s, p)) + multiset(Filter(s, q)) == multiset(s)
  {
    forall x ensures (multiset(Filter(s, p)) + multiset(Filter(s, q)))[x] == multiset(s)[x] {
      FilterMultiplicity(s, p, x);
      FilterMultiplicity(s, q, x);
      if x in s {
        var i :| 0 <= i < |s| && s[i] == x;
        assert q(s[i]) <==> !p(s[i]);
      }
    }
  }

  /** Two tables that agree row by row on a predicate have the same count */
  lemma {:induction false} CountIfPointwise<T, U>(a: seq<T>, p: T -> bool, b: seq<U>, q: U -> bool)
    requires |a| == |b|
    requires forall i :: 0 <= i < |a| ==> (p(a[i]) <==> q(b[i]))
    ensures CountIf(a, p) == CountIf(b, q)
    decreases |a|
  {
    if |a| > 0 {
      CountIfPointwise(a[1..], p, b[1..], q);
    }
  }
}
