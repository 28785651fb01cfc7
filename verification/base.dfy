/** Option, and the three table queries every handler is built from:
    the first row matching a condition (a query without ordering returns the
    first row in table order), the number of matching rows, and the matching
    rows themselves. */
module Base {

  datatype Option<+T> = None | Some(value: T)

  /** Index of the first element of `s` satisfying `p`. */
  function FindFirst<T>(s: seq<T>, p: T -> bool): (r: Option<nat>)
    ensures r.Some? ==> r.value < |s| && p(s[r.value])
    ensures r.Some? ==> forall j :: 0 <= j < r.value ==> !p(s[j])
    ensures r.None? <==> forall j :: 0 <= j < |s| ==> !p(s[j])
  {
    if |s| == 0 then None
    else if p(s[0]) then Some(0)
    else match FindFirst(s[1..], p)
      case None => None
      case Some(k) => Some(k + 1)
  }

  /** Element k is the first element of `s` satisfying `p`. */
  predicate IsFirst<T>(s: seq<T>, p: T -> bool, k: nat) {
    k < |s| && p(s[k]) && forall j :: 0 <= j < k ==> !p(s[j])
  }

  /** `FindFirst` finds exactly the first satisfying element. */
  lemma FindFirstIsFirst<T>(s: seq<T>, p: T -> bool)
    ensures forall k: nat :: IsFirst(s, p, k) <==> FindFirst(s, p) == Some(k)
  {
    forall k: nat | IsFirst(s, p, k)
      ensures FindFirst(s, p) == Some(k)
    {
      var r := FindFirst(s, p);
      assert r.Some?;
      assert !(r.value < k) && !(k < r.value);
    }
  }

  /** Number of elements of `s` satisfying `p`. */
  function Count<T>(s: seq<T>, p: T -> bool): (n: nat)
    ensures n <= |s|
  {
    if |s| == 0 then 0
    else Count(s[..|s| - 1], p) + (if p(s[|s| - 1]) then 1 else 0)
  }

  /** The elements of `s` satisfying `p`, in order. */
  function Filter<T>(s: seq<T>, p: T -> bool): (r: seq<T>)
    ensures |r| == Count(s, p)
    ensures forall x :: x in r ==> x in s && p(x)
  {
    if |s| == 0 then []
    else Filter(s[..|s| - 1], p) + (if p(s[|s| - 1]) then [s[|s| - 1]] else [])
  }

  /** `idx` lists, in increasing order, positions of `s` whose elements satisfy `p`. */
  predicate OrderedPositions<T>(idx: seq<nat>, s: seq<T>, p: T -> bool) {
    && (forall k :: 0 <= k < |idx| ==> idx[k] < |s| && p(s[idx[k]]))
    && (forall a, b :: 0 <= a < b < |idx| ==> idx[a] < idx[b])
  }

  /** Positions in a prefix are positions in the whole sequence. */
  lemma PositionsInPrefix<T>(idx: seq<nat>, s: seq<T>, n: nat, p: T -> bool)
    requires n <= |s| && OrderedPositions(idx, s[..n], p)
    ensures OrderedPositions(idx, s, p) && forall k :: 0 <= k < |idx| ==> idx[k] < n
  {
    forall k | 0 <= k < |idx|
      ensures idx[k] < |s| && p(s[idx[k]])
    {
      assert s[..n][idx[k]] == s[idx[k]];
    }
  }

  /** Positions of the elements kept from all but the last element of `s`
      extend to the positions of those kept from all of `s`. */
  lemma PositionsSnoc<T>(s: seq<T>, p: T -> bool, pre: seq<nat>, f: seq<T>) returns (idx: seq<nat>)
    requires |s| > 0 && OrderedPositions(pre, s, p) && |pre| == |f|
    requires forall k :: 0 <= k < |pre| ==> pre[k] < |s| - 1 && f[k] == s[pre[k]]
    ensures var r := f + (if p(s[|s| - 1]) then [s[|s| - 1]] else []);
      OrderedPositions(idx, s, p) && |idx| == |r| && forall k :: 0 <= k < |idx| ==> r[k] == s[idx[k]]
  {
    if p(s[|s| - 1]) {
      idx := pre + [|s| - 1];
    } else {
      idx := pre;
    }
  }

  /** The positions a filter takes its elements from, in order. */
  lemma {:induction false} FilterPositions<T>(s: seq<T>, p: T -> bool) returns (idx: seq<nat>)
    ensures OrderedPositions(idx, s, p) && |idx| == |Filter(s, p)|
    ensures forall k :: 0 <= k < |idx| ==> Filter(s, p)[k] == s[idx[k]]
  {
    if |s| == 0 {
      idx := [];
    } else {
      var n := |s| - 1;
      var t := s[..n];
      var pre := FilterPositions(t, p);
      PositionsInPrefix(pre, s, n, p);
      var f := Filter(t, p);
      forall k | 0 <= k < |pre| ensures f[k] == s[pre[k]] {
        assert t[pre[k]] == s[pre[k]];
      }
      idx := PositionsSnoc(s, p, pre, f);
      assert Filter(s, p) == f + (if p(s[n]) then [s[n]] else []);
    }
  }

  lemma {:induction false} CountPositive<T>(s: seq<T>, p: T -> bool)
    ensures Count(s, p) > 0 <==> exists i :: 0 <= i < |s| && p(s[i])
  {
    if |s| > 0 {
      var t := s[..|s| - 1];
      CountPositive(t, p);
      if exists i :: 0 <= i < |t| && p(t[i]) {
        var i :| 0 <= i < |t| && p(t[i]);
        assert s[i] == t[i];
      }
      if exists i :: 0 <= i < |s| && p(s[i]) {
        var i :| 0 <= i < |s| && p(s[i]);
        if i < |t| { assert t[i] == s[i]; }
      }
    }
  }

  lemma {:induction false} CountAppend<T>(a: seq<T>, b: seq<T>, p: T -> bool)
    ensures Count(a + b, p) == Count(a, p) + Count(b, p)
  {
    if |b| == 0 {
      assert a + b == a;
    } else {
      assert (a + b)[..|a + b| - 1] == a + b[..|b| - 1];
      CountAppend(a, b[..|b| - 1], p);
    }
  }

  /** Counting one more element of a prefix. */
  lemma CountPrefix<T>(s: seq<T>, k: nat, p: T -> bool)
    requires k < |s|
    ensures Count(s[..k + 1], p) == Count(s[..k], p) + (if p(s[k]) then 1 else 0)
  {
    assert s[..k + 1][..k] == s[..k];
  }

  /** Deleting row i lowers the count by one exactly when that row matched. */
  lemma {:induction false} CountRemove<T>(s: seq<T>, i: nat, p: T -> bool)
    requires i < |s|
    ensures Count(s[..i] + s[i + 1..], p) + (if p(s[i]) then 1 else 0) == Count(s, p)
  {
    var a, x, b := s[..i], [s[i]], s[i + 1..];
    assert s == a + x + b;
    CountAppend(a + x, b, p);
    CountAppend(a, x, p);
    CountAppend(a, b, p);
    assert Count(x, p) == (if p(s[i]) then 1 else 0) by { assert x[..0] == []; }
  }

  /** Replacing a row by one that matches the same way keeps the count. */
  lemma {:induction false} CountUpdate<T>(s: seq<T>, i: nat, x: T, p: T -> bool)
    requires i < |s| && p(x) == p(s[i])
    ensures Count(s[i := x], p) == Count(s, p)
  {
    CountRemove(s, i, p);
    CountRemove(s[i := x], i, p);
    assert s[i := x][..i] + s[i := x][i + 1..] == s[..i] + s[i + 1..];
  }

  /** Replacing a row changes the count by what the new row adds and the old one took. */
  lemma {:induction false} CountReplace<T>(s: seq<T>, i: nat, x: T, p: T -> bool)
    requires i < |s|
    ensures Count(s[i := x], p) + (if p(s[i]) then 1 else 0) == Count(s, p) + (if p(x) then 1 else 0)
  {
    CountRemove(s, i, p);
    CountRemove(s[i := x], i, p);
    assert s[i := x][..i] + s[i := x][i + 1..] == s[..i] + s[i + 1..];
  }

  /** A count and the count of the complementary condition add up to the length. */
  lemma {:induction false} CountComplement<T>(s: seq<T>, p: T -> bool, q: T -> bool)
    requires forall x :: q(x) == !p(x)
    ensures Count(s, p) + Count(s, q) == |s|
  {
    if |s| > 0 {
      CountComplement(s[..|s| - 1], p, q);
    }
  }

  lemma {:induction false} FilterAppend<T>(a: seq<T>, b: seq<T>, p: T -> bool)
    ensures Filter(a + b, p) == Filter(a, p) + Filter(b, p)
  {
    if |b| == 0 {
      assert a + b == a;
    } else {
      assert (a + b)[..|a + b| - 1] == a + b[..|b| - 1];
      FilterAppend(a, b[..|b| - 1], p);
    }
  }

  /** Filtering keeps a sequence whose every element passes. */
  lemma {:induction false} FilterKeepsAll<T>(s: seq<T>, p: T -> bool)
    requires forall i :: 0 <= i < |s| ==> p(s[i])
    ensures Filter(s, p) == s
  {
    if |s| > 0 {
      var t, last := s[..|s| - 1], s[|s| - 1];
      assert s == t + [last];
      assert p(last);
      FilterKeepsAll(t, p);
    }
  }

  /** Filtering drops a sequence whose every element fails. */
  lemma {:induction false} FilterDropsAll<T>(s: seq<T>, p: T -> bool)
    requires forall i :: 0 <= i < |s| ==> !p(s[i])
    ensures Filter(s, p) == []
  {
    if |s| > 0 {
      var t := s[..|s| - 1];
      forall i | 0 <= i < |t|
        ensures !p(t[i])
      {
        assert t[i] == s[i];
      }
      FilterDropsAll(t, p);
    }
  }

  /** Every element of `s` that passes is kept. */
  lemma {:induction false} FilterComplete<T>(s: seq<T>, p: T -> bool, x: T)
    requires x in s && p(x)
    ensures x in Filter(s, p)
  {
    if x != s[|s| - 1] {
      assert x in s[..|s| - 1] by {
        var k :| 0 <= k < |s| && s[k] == x;
        assert s[..|s| - 1][k] == x;
      }
      FilterComplete(s[..|s| - 1], p, x);
    }
  }

  /** Filtering a sequence without repeated elements repeats none. */
  lemma {:induction false} FilterNoDup<T>(s: seq<T>, p: T -> bool)
    requires forall i, j :: 0 <= i < j < |s| ==> s[i] != s[j]
    ensures forall i, j :: 0 <= i < j < |Filter(s, p)| ==> Filter(s, p)[i] != Filter(s, p)[j]
  {
    if |s| > 0 {
      var t := s[..|s| - 1];
      var last := s[|s| - 1];
      FilterNoDup(t, p);
      var f := Filter(t, p);
      assert last !in t;
      assert last !in f;
      assert Filter(s, p) == f + (if p(last) then [last] else []);
    }
  }
}
