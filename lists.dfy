/**
 * Sequence operations the generator relies on: Python's `list.remove`,
 * Java's `indexOf`/`remove(int)`, the maximum scan and the sum.
 */
module Lists {

  /** No element occurs twice: the first is not among the rest, and the rest is again duplicate-free. */
  ghost predicate NoDup(s: seq<int>)
  {
    |s| == 0 || (s[0] !in s[1..] && NoDup(s[1..]))
  }

  /** In a duplicate-free sequence, distinct positions hold distinct elements. */
  lemma {:induction false} NoDupDistinct(s: seq<int>, i: int, j: int)
    requires NoDup(s) && 0 <= i < j < |s|
    ensures s[i] != s[j]
  {
    if i == 0 {
      assert s[j] == s[1..][j - 1];
    } else {
      NoDupDistinct(s[1..], i - 1, j - 1);
    }
  }

  /** Appending an element not yet present keeps a sequence duplicate-free. */
  lemma {:induction false} NoDupAppend(s: seq<int>, x: int)
    requires NoDup(s) && x !in s
    ensures NoDup(s + [x])
  {
    if |s| > 0 {
      assert (s + [x])[1..] == s[1..] + [x];
      NoDupAppend(s[1..], x);
    } else {
      assert (s + [x])[1..] == [];
    }
  }

  /** Java `List.indexOf`: the first position of `x`, or -1 when absent. */
  function IndexOf(s: seq<int>, x: int): (k: int)
    ensures -1 <= k < |s|
    ensures k == -1 <==> x !in s
    ensures 0 <= k ==> s[k] == x && x !in s[..k]
  {
    if |s| == 0 then -1
    else if s[0] == x then 0
    else
      var k := IndexOf(s[1..], x);
      assert s[1..][..k + 1] == s[1..k + 2] by { }
      if k == -1 then -1 else k + 1
  }

  /** Java `List.remove(int)`: the sequence without position `k`. */
  function RemoveAt(s: seq<int>, k: int): (r: seq<int>)
    requires 0 <= k < |s|
    ensures |r| == |s| - 1
    ensures forall i :: 0 <= i < k ==> r[i] == s[i]
    ensures forall i :: k <= i < |r| ==> r[i] == s[i + 1]
  {
    s[..k] + s[k + 1..]
  }

  /** Python `list.remove(x)`: the list without its first `x`. */
  function RemoveValue(s: seq<int>, x: int): (r: seq<int>)
    requires x in s
    ensures |r| == |s| - 1
    decreases |s|
  {
    if s[0] == x then s[1..]
    else
      assert s == [s[0]] + s[1..];
      [s[0]] + RemoveValue(s[1..], x)
  }

  /** Python's `list.remove(x)` and Java's `remove(indexOf(x))` agree. */
  lemma {:induction false} RemoveValueIsRemoveAtIndexOf(s: seq<int>, x: int)
    requires x in s
    ensures RemoveValue(s, x) == RemoveAt(s, IndexOf(s, x))
    decreases |s|
  {
    if s[0] != x {
      var t := s[1..];
      assert s == [s[0]] + t;
      var k := IndexOf(t, x);
      RemoveValueIsRemoveAtIndexOf(t, x);
      assert IndexOf(s, x) == k + 1;
      assert s[..k + 1] == [s[0]] + t[..k];
      assert s[k + 2..] == t[k + 1..];
    }
  }

  /** Removal takes exactly one `x` out of the list, counted as a bag. */
  lemma {:induction false} RemoveValueMultiset(s: seq<int>, x: int)
    requires x in s
    ensures multiset(RemoveValue(s, x)) == multiset(s) - multiset{x}
    decreases |s|
  {
    assert s == [s[0]] + s[1..];
    if s[0] != x {
      RemoveValueMultiset(s[1..], x);
    }
  }

  /**
   * On a duplicate-free list, removal keeps the list duplicate-free and
   * takes out exactly `x`, leaving every other element.
   */
  lemma {:induction false} RemoveValueNoDup(s: seq<int>, x: int)
    requires NoDup(s) && x in s
    ensures NoDup(RemoveValue(s, x))
    ensures forall y :: y in RemoveValue(s, x) <==> y in s && y != x
    decreases |s|
  {
    assert s == [s[0]] + s[1..];
    if s[0] != x {
      var t := RemoveValue(s[1..], x);
      RemoveValueNoDup(s[1..], x);
      assert ([s[0]] + t)[1..] == t;
    }
  }

  /** Appending a fresh `x` and then removing it gives back the list exactly. */
  lemma {:induction false} AppendThenRemove(s: seq<int>, x: int)
    requires x !in s
    ensures RemoveValue(s + [x], x) == s
    decreases |s|
  {
    if |s| == 0 {
      assert [] + [x] == [x];
    } else {
      assert (s + [x])[1..] == s[1..] + [x];
      AppendThenRemove(s[1..], x);
    }
  }

  /**
   * Java `findMadDegree`: the largest element, starting from 0. On
   * non-negative values it is Python's `max` of a non-empty list.
   */
  function MaxOrZero(s: seq<int>): (m: int)
    ensures 0 <= m
    ensures forall i :: 0 <= i < |s| ==> s[i] <= m
    ensures m == 0 || m in s
  {
    MaxOfPrefix(s, |s|)
  }

  /** The largest of the first `k` elements, starting from 0: the scan after `k` steps. */
  function MaxOfPrefix(s: seq<int>, k: nat): (m: int)
    requires k <= |s|
    ensures 0 <= m
    ensures forall i :: 0 <= i < k ==> s[i] <= m
    ensures m == 0 || exists i :: 0 <= i < k && s[i] == m
  {
    if k == 0 then 0
    else
      var m' := MaxOfPrefix(s, k - 1);
      if s[k - 1] > m' then s[k - 1] else m'
  }

  /** The three properties of `MaxOrZero` determine it. */
  lemma MaxOrZeroUnique(s: seq<int>, m: int)
    requires 0 <= m
    requires forall i :: 0 <= i < |s| ==> s[i] <= m
    requires m == 0 || m in s
    ensures m == MaxOrZero(s)
  {
  }

  /**
   * Raising one element by one: the maximum becomes that element exactly
   * when it now exceeds the old maximum (`if k > max_degree`).
   */
  lemma MaxAfterIncrement(s: seq<int>, i: int)
    requires 0 <= i < |s|
    ensures var k := s[i] + 1;
            MaxOrZero(s[i := k]) == if k > MaxOrZero(s) then k else MaxOrZero(s)
  {
    var k := s[i] + 1;
    var t := s[i := k];
    var m := MaxOrZero(s);
    if k > m {
      assert t[i] == k;
      MaxOrZeroUnique(t, k);
    } else {
      if m != 0 {
        var j :| 0 <= j < |s| && s[j] == m;
        assert j != i;
        assert t[j] == m;
      }
      MaxOrZeroUnique(t, m);
    }
  }

  /**
   * Lowering an element that is not the maximum by one leaves the maximum
   * unchanged, so no rescan is needed.
   */
  lemma MaxAfterDecrement(s: seq<int>, i: int)
    requires 0 <= i < |s| && s[i] != MaxOrZero(s)
    ensures MaxOrZero(s[i := s[i] - 1]) == MaxOrZero(s)
  {
    var t := s[i := s[i] - 1];
    var m := MaxOrZero(s);
    if m != 0 {
      var j :| 0 <= j < |s| && s[j] == m;
      assert j != i;
      assert t[j] == m;
    }
    MaxOrZeroUnique(t, m);
  }

  /** The sum of a sequence, accumulated left to right. */
  function Sum(s: seq<int>): int
  {
    if |s| == 0 then 0 else Sum(s[..|s| - 1]) + s[|s| - 1]
  }

  /** A sum of non-negative terms is non-negative, and positive iff some term is. */
  lemma {:induction false} SumPositiveIff(s: seq<int>)
    requires forall i :: 0 <= i < |s| ==> s[i] >= 0
    ensures Sum(s) >= 0
    ensures Sum(s) > 0 <==> exists i :: 0 <= i < |s| && s[i] > 0
  {
    if |s| > 0 {
      var p := s[..|s| - 1];
      SumPositiveIff(p);
      if exists i :: 0 <= i < |p| && p[i] > 0 {
        var i :| 0 <= i < |p| && p[i] > 0;
        assert s[i] > 0;
      }
      if exists i :: 0 <= i < |s| && s[i] > 0 {
        var i :| 0 <= i < |s| && s[i] > 0;
        if i < |s| - 1 { assert p[i] > 0; }
      }
    }
  }
}
