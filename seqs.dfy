/**
 * Sequence operations behind JavaScript's `Array.prototype.filter` and
 * `Array.prototype.sort`, shared by the filtering, grouping and sorting
 * models.
 */
module Seqs {

  /** `xs.filter(p)`: the elements satisfying p, in their original order. */
  function Filter<T(!new)>(xs: seq<T>, p: T -> bool): (r: seq<T>)
    ensures |r| <= |xs|
    ensures forall y :: y in r <==> y in xs && p(y)
  {
    if |xs| == 0 then []
    else
      var init := xs[..|xs| - 1];
      var last := xs[|xs| - 1];
      assert xs == init + [last];
      Filter(init, p) + (if p(last) then [last] else [])
  }

  /** Filtering one more element extends the filtered prefix. */
  lemma FilterSnoc<T(!new)>(xs: seq<T>, x: T, p: T -> bool)
    ensures Filter(xs + [x], p) == Filter(xs, p) + (if p(x) then [x] else [])
  {
    assert (xs + [x])[..|xs|] == xs;
  }

  /** Filtering distributes over concatenation, so survivors keep their relative order. */
  lemma {:induction false} FilterAppend<T(!new)>(a: seq<T>, b: seq<T>, p: T -> bool)
    ensures Filter(a + b, p) == Filter(a, p) + Filter(b, p)
    decreases |b|
  {
    if |b| > 0 {
      var init := b[..|b| - 1];
      var last := b[|b| - 1];
      assert b == init + [last];
      assert a + b == (a + init) + [last];
      FilterSnoc(a + init, last, p);
      FilterSnoc(init, last, p);
      FilterAppend(a, init, p);
    } else {
      assert a + b == a;
    }
  }

  /** A filter keeps everything exactly when every element satisfies the predicate. */
  lemma {:induction false} FilterAll<T(!new)>(xs: seq<T>, p: T -> bool)
    requires forall i :: 0 <= i < |xs| ==> p(xs[i])
    ensures Filter(xs, p) == xs
  {
    if |xs| > 0 {
      var init := xs[..|xs| - 1];
      assert xs == init + [xs[|xs| - 1]];
      FilterAll(init, p);
    }
  }

  /** Filtering a sequence that starts with x. */
  lemma FilterCons<T(!new)>(x: T, xs: seq<T>, p: T -> bool)
    ensures Filter([x] + xs, p) == (if p(x) then [x] else []) + Filter(xs, p)
  {
    FilterAppend([x], xs, p);
    assert [x] == [] + [x];
    FilterSnoc([], x, p);
  }

  /** Predicates that agree on every element filter alike. */
  lemma {:induction false} FilterAgree<T(!new)>(xs: seq<T>, p: T -> bool, q: T -> bool)
    requires forall i :: 0 <= i < |xs| ==> p(xs[i]) == q(xs[i])
    ensures Filter(xs, p) == Filter(xs, q)
  {
    if |xs| > 0 {
      var init := xs[..|xs| - 1];
      assert xs == init + [xs[|xs| - 1]];
      FilterAgree(init, p, q);
    }
  }

  /** Sum of a sequence of naturals. */
  function Sum(xs: seq<nat>): nat {
    if |xs| == 0 then 0 else Sum(xs[..|xs| - 1]) + xs[|xs| - 1]
  }

  /** Raising one entry by one raises the sum by one. */
  lemma {:induction false} SumBumpAt(a: seq<nat>, b: seq<nat>, k: nat)
    requires |a| == |b| && k < |a|
    requires b[k] == a[k] + 1
    requires forall i :: 0 <= i < |a| && i != k ==> b[i] == a[i]
    ensures Sum(b) == Sum(a) + 1
  {
    var n := |a| - 1;
    if n == k {
      assert a[..n] == b[..n];
    } else {
      SumBumpAt(a[..n], b[..n], k);
    }
  }

  /** Sums of pointwise equal sequences agree. */
  lemma {:induction false} SumPointwise(a: seq<nat>, b: seq<nat>)
    requires |a| == |b| && forall i :: 0 <= i < |a| ==> a[i] == b[i]
    ensures Sum(a) == Sum(b)
  {
    assert a == b;
  }

  // ---------------------------------------------------------------------
  // Stable sorting
  // ---------------------------------------------------------------------

  /**
   * A comparator in the sense of `Array.prototype.sort`: le(a, b) holds when
   * compare(a, b) <= 0. It must relate every pair and be transitive.
   */
  ghost predicate TotalPreorder<T(!new)>(le: (T, T) -> bool) {
    (forall a, b :: le(a, b) || le(b, a)) &&
    (forall a, b, c :: le(a, b) && le(b, c) ==> le(a, c))
  }

  predicate SortedBy<T>(xs: seq<T>, le: (T, T) -> bool) {
    forall i, j :: 0 <= i < j < |xs| ==> le(xs[i], xs[j])
  }

  /**
   * Inserts x before the first element it may precede. Used on a suffix
   * that follows x in the input, this keeps equal elements in input order.
   */
  function Insert<T>(x: T, s: seq<T>, le: (T, T) -> bool): (r: seq<T>)
    ensures multiset(r) == multiset(s) + multiset{x}
    ensures |r| == |s| + 1
  {
    if |s| == 0 || le(x, s[0]) then [x] + s
    else
      assert s == [s[0]] + s[1..];
      [s[0]] + Insert(x, s[1..], le)
  }

  /**
   * `Array.prototype.sort` as an insertion sort. ECMAScript 2019 requires
   * that sort to be stable; SortSorted and SortStable state ordering and
   * stability.
   */
  function Sort<T>(xs: seq<T>, le: (T, T) -> bool): (r: seq<T>)
    ensures multiset(r) == multiset(xs)
    ensures |r| == |xs|
  {
    if |xs| == 0 then []
    else
      assert xs == [xs[0]] + xs[1..];
      Insert(xs[0], Sort(xs[1..], le), le)
  }

  /** The elements the comparator ranks level with k: le holds both ways. */
  function TiedWith<T>(k: T, le: (T, T) -> bool): T -> bool {
    y => le(k, y) && le(y, k)
  }

  /**
   * Insert puts x ahead of every element level with it, and moves nothing
   * else: among the elements level with any k, only x is added, at the front.
   */
  lemma {:induction false} InsertStable<T(!new)>(x: T, s: seq<T>, le: (T, T) -> bool, k: T)
    requires TotalPreorder(le)
    ensures var p := TiedWith(k, le);
      Filter(Insert(x, s, le), p) == (if p(x) then [x] else []) + Filter(s, p)
  {
    var p := TiedWith(k, le);
    if |s| == 0 || le(x, s[0]) {
      FilterCons(x, s, p);
    } else {
      var tail := s[1..];
      assert s == [s[0]] + tail;
      if p(x) && p(s[0]) {
        TiedOrdered(x, s[0], le, k);
      }
      InsertStable(x, tail, le, k);
      InsertStableStep(x, s[0], tail, Insert(x, tail, le), p);
    }
  }

  /** Moving x past a head element that is not level with it keeps the filtered order. */
  lemma InsertStableStep<T(!new)>(x: T, h: T, tail: seq<T>, ins: seq<T>, p: T -> bool)
    requires !(p(x) && p(h))
    requires Filter(ins, p) == (if p(x) then [x] else []) + Filter(tail, p)
    ensures Filter([h] + ins, p) == (if p(x) then [x] else []) + Filter([h] + tail, p)
  {
    FilterCons(h, ins, p);
    FilterCons(h, tail, p);
    ConcatSwap(if p(h) then [h] else [], if p(x) then [x] else [], Filter(tail, p));
  }

  /** An empty piece commutes with any other. */
  lemma ConcatSwap<T>(a: seq<T>, b: seq<T>, c: seq<T>)
    requires a == [] || b == []
    ensures a + (b + c) == b + (a + c)
  {
  }

  /** Two elements level with the same k are related both ways. */
  lemma TiedOrdered<T(!new)>(x: T, y: T, le: (T, T) -> bool, k: T)
    requires TotalPreorder(le)
    requires TiedWith(k, le)(x) && TiedWith(k, le)(y)
    ensures le(x, y)
  {
    assert le(x, k) && le(k, y);
  }

  /**
   * The sort is stable: the elements level with any k appear in the result
   * in the order they had in the input.
   */
  lemma {:induction false} SortStable<T(!new)>(xs: seq<T>, le: (T, T) -> bool, k: T)
    requires TotalPreorder(le)
    ensures Filter(Sort(xs, le), TiedWith(k, le)) == Filter(xs, TiedWith(k, le))
  {
    if |xs| > 0 {
      var p := TiedWith(k, le);
      assert xs == [xs[0]] + xs[1..];
      SortStable(xs[1..], le, k);
      InsertStable(xs[0], Sort(xs[1..], le), le, k);
      FilterCons(xs[0], xs[1..], p);
    }
  }

  lemma {:induction false} InsertSorted<T(!new)>(x: T, s: seq<T>, le: (T, T) -> bool)
    requires TotalPreorder(le) && SortedBy(s, le)
    ensures SortedBy(Insert(x, s, le), le)
  {
    if |s| == 0 || le(x, s[0]) {
      var r := [x] + s;
      forall i, j | 0 <= i < j < |r|
        ensures le(r[i], r[j])
      {
        if i == 0 && j > 1 {
          assert le(x, s[0]) && le(s[0], s[j - 1]);
        }
      }
    } else {
      var tail := s[1..];
      InsertSorted(x, tail, le);
      var t := Insert(x, tail, le);
      var r := [s[0]] + t;
      assert le(s[0], x);
      forall k | 0 <= k < |t|
        ensures le(s[0], t[k])
      {
        assert t[k] in multiset(t);
        assert t[k] in multiset(tail) + multiset{x};
        if t[k] != x {
          var m :| 0 <= m < |tail| && tail[m] == t[k];
          assert tail[m] == s[m + 1];
        }
      }
      forall i, j | 0 <= i < j < |r|
        ensures le(r[i], r[j])
      {
        if i == 0 {
          assert r[j] == t[j - 1];
        } else {
          assert r[i] == t[i - 1] && r[j] == t[j - 1];
        }
      }
    }
  }

  /** The sort returns its input ordered by the comparator. */
  lemma {:induction false} SortSorted<T(!new)>(xs: seq<T>, le: (T, T) -> bool)
    requires TotalPreorder(le)
    ensures SortedBy(Sort(xs, le), le)
  {
    if |xs| > 0 {
      SortSorted(xs[1..], le);
      InsertSorted(xs[0], Sort(xs[1..], le), le);
    }
  }
}
