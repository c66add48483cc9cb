/**
 * Grouping by a string key into a JavaScript `Map`, whose `values()` come
 * out in the order in which each key was first set. The specification of
 * such a grouping is: the keys in order of first appearance, and for each
 * key the elements carrying it, in input order.
 */
module Grouping {
  import opened Seqs

  predicate Distinct(ks: seq<string>) {
    forall i, j :: 0 <= i < j < |ks| ==> ks[i] != ks[j]
  }

  predicate Occurs<T>(xs: seq<T>, key: T -> string, k: string) {
    exists i :: 0 <= i < |xs| && key(xs[i]) == k
  }

  /** The keys of xs, each once, in order of first appearance. */
  function FirstAppearance<T>(xs: seq<T>, key: T -> string): seq<string> {
    if |xs| == 0 then []
    else
      var ks := FirstAppearance(xs[..|xs| - 1], key);
      var k := key(xs[|xs| - 1]);
      if k in ks then ks else ks + [k]
  }

  /** Each key of xs is listed, nothing else is, and none twice. */
  lemma {:induction false} FirstAppearanceFacts<T>(xs: seq<T>, key: T -> string)
    ensures forall k :: k in FirstAppearance(xs, key) <==> Occurs(xs, key, k)
    ensures Distinct(FirstAppearance(xs, key))
  {
    if |xs| > 0 {
      var init := xs[..|xs| - 1];
      var k := key(xs[|xs| - 1]);
      FirstAppearanceFacts(init, key);
      forall k' | Occurs(init, key, k') ensures Occurs(xs, key, k') {
        var i :| 0 <= i < |init| && key(init[i]) == k';
        assert xs[i] == init[i];
      }
      forall k' | Occurs(xs, key, k') ensures Occurs(init, key, k') || k' == k {
        var i :| 0 <= i < |xs| && key(xs[i]) == k';
        if i < |init| {
          assert xs[i] == init[i];
        }
      }
    }
  }

  /** A key occurs exactly when some element carries it. */
  lemma OccursIff<T>(xs: seq<T>, key: T -> string, k: string)
    ensures Occurs(xs, key, k) <==> exists x :: x in xs && key(x) == k
  {
    if exists x :: x in xs && key(x) == k {
      var x :| x in xs && key(x) == k;
      var i :| 0 <= i < |xs| && xs[i] == x;
    }
  }

  /** The elements of xs with key k, in input order. */
  function WithKey<T(!new)>(xs: seq<T>, key: T -> string, k: string): (r: seq<T>)
    ensures forall y :: y in r <==> y in xs && key(y) == k
  {
    Filter(xs, y => key(y) == k)
  }

  lemma WithKeySnoc<T(!new)>(xs: seq<T>, x: T, key: T -> string, k: string)
    ensures WithKey(xs + [x], key, k) == WithKey(xs, key, k) + (if key(x) == k then [x] else [])
  {
    FilterSnoc(xs, x, y => key(y) == k);
  }

  /** Appending one element lists its key last when it is new. */
  lemma FirstAppearanceSnoc<T>(xs: seq<T>, x: T, key: T -> string)
    ensures FirstAppearance(xs + [x], key) ==
      var ks := FirstAppearance(xs, key);
      if key(x) in ks then ks else ks + [key(x)]
  {
    assert (xs + [x])[..|xs|] == xs;
  }

  /** Appending one element: its key's group grows by it, a new key is listed last with a one-element group. */
  lemma KeyStep<T(!new)>(xs: seq<T>, x: T, key: T -> string, k: string)
    ensures WithKey(xs + [x], key, k) == WithKey(xs, key, k) + (if key(x) == k then [x] else [])
    ensures !Occurs(xs, key, key(x)) ==> WithKey(xs + [x], key, key(x)) == [x]
    ensures FirstAppearance(xs + [x], key) ==
      var ks := FirstAppearance(xs, key);
      if key(x) in ks then ks else ks + [key(x)]
  {
    WithKeySnoc(xs, x, key, k);
    WithKeySnoc(xs, x, key, key(x));
    if !Occurs(xs, key, key(x)) {
      WithKeyAbsent(xs, key, key(x));
    }
    assert (xs + [x])[..|xs|] == xs;
  }

  /** A key that does not occur has an empty group. */
  lemma {:induction false} WithKeyAbsent<T(!new)>(xs: seq<T>, key: T -> string, k: string)
    requires !Occurs(xs, key, k)
    ensures WithKey(xs, key, k) == []
  {
    if |xs| > 0 {
      var init := xs[..|xs| - 1];
      var x := xs[|xs| - 1];
      assert xs == init + [x];
      assert key(xs[|xs| - 1]) != k;
      assert !Occurs(init, key, k) by {
        forall i | 0 <= i < |init| ensures key(init[i]) != k {
          assert init[i] == xs[i];
        }
      }
      WithKeyAbsent(init, key, k);
      WithKeySnoc(init, x, key, k);
    }
  }

  /**
   * A map kept with the same keys as an order list still has them after
   * setting key u and listing u if it is new.
   */
  lemma KeysStep<V>(order: seq<string>, m: map<string, V>, u: string, order': seq<string>, m': map<string, V>)
    requires forall k :: k in m <==> k in order
    requires order' == (if u in order then order else order + [u])
    requires m'.Keys == m.Keys + {u}
    ensures forall k :: k in m' <==> k in order'
  {
  }

  /** The sizes of the groups, in key order. */
  function GroupSizes<T(!new)>(xs: seq<T>, key: T -> string, ks: seq<string>): (sizes: seq<nat>)
    ensures |sizes| == |ks|
    ensures forall i :: 0 <= i < |ks| ==> sizes[i] == |WithKey(xs, key, ks[i])|
  {
    seq(|ks|, i requires 0 <= i < |ks| => |WithKey(xs, key, ks[i])|)
  }

  /**
   * The groups partition the input: their sizes add up to the number of
   * elements grouped.
   */
  lemma {:induction false} GroupsPartition<T(!new)>(xs: seq<T>, key: T -> string)
    ensures Sum(GroupSizes(xs, key, FirstAppearance(xs, key))) == |xs|
  {
    if |xs| > 0 {
      var init := xs[..|xs| - 1];
      var x := xs[|xs| - 1];
      assert xs == init + [x];
      GroupsPartition(init, key);
      GroupSizesSnoc(init, x, key);
    }
  }

  /** Appending one element adds one to the sum of the group sizes. */
  lemma GroupSizesSnoc<T(!new)>(init: seq<T>, x: T, key: T -> string)
    ensures Sum(GroupSizes(init + [x], key, FirstAppearance(init + [x], key))) ==
      Sum(GroupSizes(init, key, FirstAppearance(init, key))) + 1
  {
    KeyStep(init, x, key, key(x));
    if key(x) in FirstAppearance(init, key) {
      SizesSnocSeen(init, x, key);
    } else {
      SizesSnocNew(init, x, key);
    }
  }

  /** Each listed group grows by the appended element exactly when it carries its key. */
  lemma SizesSnocAt<T(!new)>(init: seq<T>, x: T, key: T -> string, ks: seq<string>)
    ensures forall i :: 0 <= i < |ks| ==>
      GroupSizes(init + [x], key, ks)[i] == GroupSizes(init, key, ks)[i] + (if ks[i] == key(x) then 1 else 0)
  {
    forall i | 0 <= i < |ks|
      ensures |WithKey(init + [x], key, ks[i])| == |WithKey(init, key, ks[i])| + (if ks[i] == key(x) then 1 else 0)
    {
      WithKeySnoc(init, x, key, ks[i]);
    }
  }

  lemma SizesSnocSeen<T(!new)>(init: seq<T>, x: T, key: T -> string)
    requires key(x) in FirstAppearance(init, key)
    ensures var ks := FirstAppearance(init, key);
      Sum(GroupSizes(init + [x], key, ks)) == Sum(GroupSizes(init, key, ks)) + 1
  {
    var ks := FirstAppearance(init, key);
    FirstAppearanceFacts(init, key);
    var k :| 0 <= k < |ks| && ks[k] == key(x);
    SizesBump(init, x, key, ks, k);
  }

  /** With distinct keys, only the appended element's own group grows. */
  lemma SizesBump<T(!new)>(init: seq<T>, x: T, key: T -> string, ks: seq<string>, k: nat)
    requires Distinct(ks) && k < |ks| && ks[k] == key(x)
    ensures Sum(GroupSizes(init + [x], key, ks)) == Sum(GroupSizes(init, key, ks)) + 1
  {
    var a := GroupSizes(init, key, ks);
    var b := GroupSizes(init + [x], key, ks);
    SizesSnocAt(init, x, key, ks);
    assert forall i :: 0 <= i < |a| && i != k ==> b[i] == a[i];
    SumBumpAt(a, b, k);
  }

  lemma SizesSnocNew<T(!new)>(init: seq<T>, x: T, key: T -> string)
    requires key(x) !in FirstAppearance(init, key)
    ensures var ks := FirstAppearance(init, key);
      Sum(GroupSizes(init + [x], key, ks + [key(x)])) == Sum(GroupSizes(init, key, ks)) + 1
  {
    var ks := FirstAppearance(init, key);
    FirstAppearanceFacts(init, key);
    KeyStep(init, x, key, key(x));
    SizesUnaffected(init, x, key, ks);
    SizesSnocKey(init + [x], key, ks, key(x));
  }

  /** Groups of keys other than the appended element's do not change. */
  lemma SizesUnaffected<T(!new)>(init: seq<T>, x: T, key: T -> string, ks: seq<string>)
    requires key(x) !in ks
    ensures GroupSizes(init + [x], key, ks) == GroupSizes(init, key, ks)
  {
    SizesSnocAt(init, x, key, ks);
  }

  /** Listing one more key adds its group's size to the sum. */
  lemma SizesSnocKey<T(!new)>(xs: seq<T>, key: T -> string, ks: seq<string>, k: string)
    ensures Sum(GroupSizes(xs, key, ks + [k])) == Sum(GroupSizes(xs, key, ks)) + |WithKey(xs, key, k)|
  {
    var after := GroupSizes(xs, key, ks + [k]);
    assert after[..|ks|] == GroupSizes(xs, key, ks);
  }

  /** Each key's group is non-empty, and every element lies in its own key's group. */
  lemma GroupsCover<T(!new)>(xs: seq<T>, key: T -> string)
    ensures forall k :: k in FirstAppearance(xs, key) ==> |WithKey(xs, key, k)| > 0
    ensures forall i :: 0 <= i < |xs| ==>
      key(xs[i]) in FirstAppearance(xs, key) && xs[i] in WithKey(xs, key, key(xs[i]))
  {
    FirstAppearanceFacts(xs, key);
    forall k | k in FirstAppearance(xs, key)
      ensures |WithKey(xs, key, k)| > 0
    {
      var i :| 0 <= i < |xs| && key(xs[i]) == k;
      assert xs[i] in WithKey(xs, key, k);
    }
    forall i | 0 <= i < |xs|
      ensures key(xs[i]) in FirstAppearance(xs, key)
    {
      assert Occurs(xs, key, key(xs[i]));
    }
  }

  /**
   * Keys come in order of first appearance: every occurrence of a later
   * key is preceded by an occurrence of each earlier key.
   */
  lemma {:induction false} FirstAppearanceOrder<T>(xs: seq<T>, key: T -> string, i: nat, j: nat, q: nat)
    requires i < j < |FirstAppearance(xs, key)|
    requires q < |xs| && key(xs[q]) == FirstAppearance(xs, key)[j]
    ensures exists p :: 0 <= p < q && key(xs[p]) == FirstAppearance(xs, key)[i]
  {
    var init := xs[..|xs| - 1];
    var x := xs[|xs| - 1];
    var ks := FirstAppearance(init, key);
    var full := FirstAppearance(xs, key);
    FirstAppearanceFacts(init, key);
    assert full[i] == ks[i];
    if q < |init| {
      assert xs[q] == init[q];
      if j < |ks| {
        assert full[j] == ks[j];
        FirstAppearanceOrder(init, key, i, j, q);
        var p :| 0 <= p < q && key(init[p]) == ks[i];
        assert xs[p] == init[p];
      } else {
        // the last key is new, so it cannot occur in init
        assert Occurs(init, key, key(xs[q]));
        assert false;
      }
    } else {
      assert ks[i] in ks;
      var p :| 0 <= p < |init| && key(init[p]) == ks[i];
      assert xs[p] == init[p];
    }
  }
}
