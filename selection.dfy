/**
 * The selection-set operations of the front end (app/composables/useEvents.ts,
 * duplicated in app/routes/_index.tsx): toggling one schedule, toggling a
 * batch, and removing one. Selections are compared through a key function;
 * both callers pass Types.KeyOf (createEventKey), which is injective
 * (Types.KeyOfInjective). The specifications are functions of the old list,
 * and the batch append loop is a method proved against its function.
 */
module Selection {
  import opened Types

  type Key = SelectedSchedule -> string

  /** `xs.some((s) => key(s) === k)` */
  predicate HasKey(xs: seq<SelectedSchedule>, key: Key, k: string) {
    exists i :: 0 <= i < |xs| && key(xs[i]) == k
  }

  /** `xs.map(key)` */
  function Keys(xs: seq<SelectedSchedule>, key: Key): (ks: seq<string>)
    ensures |ks| == |xs| && forall i :: 0 <= i < |xs| ==> ks[i] == key(xs[i])
  {
    seq(|xs|, i requires 0 <= i < |xs| => key(xs[i]))
  }

  /** No two elements share a key. */
  predicate DistinctKeys(xs: seq<SelectedSchedule>, key: Key) {
    forall i, j :: 0 <= i < j < |xs| ==> key(xs[i]) != key(xs[j])
  }

  // ---------------------------------------------------------------------
  // Filtering by keys
  // ---------------------------------------------------------------------

  /** `xs.filter((s) => !keys.includes(key(s)))` */
  function WithoutKeys(xs: seq<SelectedSchedule>, key: Key, keys: seq<string>): (r: seq<SelectedSchedule>)
    ensures |r| <= |xs|
    ensures forall y :: y in r <==> y in xs && key(y) !in keys
  {
    if |xs| == 0 then []
    else (if key(xs[0]) in keys then [] else [xs[0]]) + WithoutKeys(xs[1..], key, keys)
  }

  /** Filtering distributes over concatenation: the survivors keep their order. */
  lemma {:induction false} WithoutKeysAppend(a: seq<SelectedSchedule>, b: seq<SelectedSchedule>, key: Key, keys: seq<string>)
    ensures WithoutKeys(a + b, key, keys) == WithoutKeys(a, key, keys) + WithoutKeys(b, key, keys)
  {
    if |a| == 0 {
      assert a + b == b;
    } else {
      assert (a + b)[1..] == a[1..] + b;
      WithoutKeysAppend(a[1..], b, key, keys);
    }
  }

  /** A list none of whose keys is filtered out is left as it is. */
  lemma {:induction false} WithoutKeysNone(xs: seq<SelectedSchedule>, key: Key, keys: seq<string>)
    requires forall i :: 0 <= i < |xs| ==> key(xs[i]) !in keys
    ensures WithoutKeys(xs, key, keys) == xs
  {
    if |xs| > 0 {
      WithoutKeysNone(xs[1..], key, keys);
      assert [xs[0]] + xs[1..] == xs;
    }
  }

  /** After filtering, a key is present exactly when it was present and is not filtered. */
  lemma WithoutKeysHasKey(xs: seq<SelectedSchedule>, key: Key, keys: seq<string>, k: string)
    ensures HasKey(WithoutKeys(xs, key, keys), key, k) <==> HasKey(xs, key, k) && k !in keys
  {
    var r := WithoutKeys(xs, key, keys);
    if HasKey(r, key, k) {
      var i :| 0 <= i < |r| && key(r[i]) == k;
      assert r[i] in xs;
    }
    if HasKey(xs, key, k) && k !in keys {
      var i :| 0 <= i < |xs| && key(xs[i]) == k;
      assert xs[i] in r;
    }
  }

  /** Filtering keeps the survivors in order, so distinct keys stay distinct. */
  lemma {:induction false} WithoutKeysDistinct(xs: seq<SelectedSchedule>, key: Key, keys: seq<string>)
    requires DistinctKeys(xs, key)
    ensures DistinctKeys(WithoutKeys(xs, key, keys), key)
  {
    if |xs| > 0 {
      var tail := xs[1..];
      TailDistinct(xs, key);
      WithoutKeysDistinct(tail, key, keys);
      var rest := WithoutKeys(tail, key, keys);
      if key(xs[0]) !in keys {
        forall y | y in rest ensures key(y) != key(xs[0]) {
          var j :| 0 <= j < |tail| && tail[j] == y;
          assert xs[j + 1] == y;
        }
        ConsDistinct(xs[0], rest, key);
      } else {
        assert WithoutKeys(xs, key, keys) == [] + rest;
      }
    }
  }

  lemma TailDistinct(xs: seq<SelectedSchedule>, key: Key)
    requires |xs| > 0 && DistinctKeys(xs, key)
    ensures DistinctKeys(xs[1..], key)
  {
    var tail := xs[1..];
    forall i, j | 0 <= i < j < |tail| ensures key(tail[i]) != key(tail[j]) {
      assert tail[i] == xs[i + 1] && tail[j] == xs[j + 1];
    }
  }

  lemma ConsDistinct(x: SelectedSchedule, rest: seq<SelectedSchedule>, key: Key)
    requires DistinctKeys(rest, key) && forall y | y in rest :: key(y) != key(x)
    ensures DistinctKeys([x] + rest, key)
  {
    var r := [x] + rest;
    forall i, j | 0 <= i < j < |r| ensures key(r[i]) != key(r[j]) {
      if i > 0 {
        assert r[i] == rest[i - 1] && r[j] == rest[j - 1];
      } else {
        assert r[j] == rest[j - 1] && r[j] in rest;
      }
    }
  }

  // ---------------------------------------------------------------------
  // handleScheduleToggle
  // ---------------------------------------------------------------------

  /** Removes every entry with the schedule's key if one is present, appends it otherwise. */
  function Toggle(prev: seq<SelectedSchedule>, key: Key, x: SelectedSchedule): seq<SelectedSchedule> {
    if HasKey(prev, key, key(x)) then WithoutKeys(prev, key, [key(x)]) else prev + [x]
  }

  /** Toggling flips the presence of the schedule's key and of no other key. */
  lemma ToggleFlips(prev: seq<SelectedSchedule>, key: Key, x: SelectedSchedule)
    ensures HasKey(Toggle(prev, key, x), key, key(x)) <==> !HasKey(prev, key, key(x))
    ensures forall k :: k != key(x) ==> (HasKey(Toggle(prev, key, x), key, k) <==> HasKey(prev, key, k))
  {
    var r := Toggle(prev, key, x);
    if HasKey(prev, key, key(x)) {
      WithoutKeysHasKey(prev, key, [key(x)], key(x));
      forall k | k != key(x) ensures HasKey(r, key, k) <==> HasKey(prev, key, k) {
        WithoutKeysHasKey(prev, key, [key(x)], k);
      }
    } else {
      assert r[|prev|] == x;
      forall k | k != key(x) ensures HasKey(r, key, k) <==> HasKey(prev, key, k) {
        if HasKey(r, key, k) {
          var i :| 0 <= i < |r| && key(r[i]) == k;
          assert i < |prev| && r[i] == prev[i];
        }
        if HasKey(prev, key, k) {
          var i :| 0 <= i < |prev| && key(prev[i]) == k;
          assert r[i] == prev[i];
        }
      }
    }
  }

  /** With the key present, toggle keeps exactly the entries with other keys, in order. */
  lemma TogglePresentFilters(a: seq<SelectedSchedule>, b: seq<SelectedSchedule>, key: Key, x: SelectedSchedule)
    requires HasKey(a + b, key, key(x))
    ensures Toggle(a + b, key, x) == WithoutKeys(a, key, [key(x)]) + WithoutKeys(b, key, [key(x)])
  {
    WithoutKeysAppend(a, b, key, [key(x)]);
  }

  /** Toggling the same schedule twice, starting without its key, restores the list. */
  lemma ToggleTwice(prev: seq<SelectedSchedule>, key: Key, x: SelectedSchedule)
    requires !HasKey(prev, key, key(x))
    ensures Toggle(Toggle(prev, key, x), key, x) == prev
  {
    var once := prev + [x];
    assert once[|prev|] == x;
    assert HasKey(once, key, key(x));
    WithoutKeysAppend(prev, [x], key, [key(x)]);
    WithoutKeysNone(prev, key, [key(x)]);
    assert WithoutKeys([x], key, [key(x)]) == [] + WithoutKeys([x][1..], key, [key(x)]);
    assert prev + [] == prev;
  }

  lemma ToggleDistinct(prev: seq<SelectedSchedule>, key: Key, x: SelectedSchedule)
    requires DistinctKeys(prev, key)
    ensures DistinctKeys(Toggle(prev, key, x), key)
  {
    if HasKey(prev, key, key(x)) {
      WithoutKeysDistinct(prev, key, [key(x)]);
    } else {
      var r := prev + [x];
      forall i, j | 0 <= i < j < |r| ensures key(r[i]) != key(r[j]) {
        if j == |prev| {
          assert r[i] == prev[i];
        }
      }
    }
  }

  // ---------------------------------------------------------------------
  // handleBulkToggle
  // ---------------------------------------------------------------------

  /** `allKeys.every((k) => selected.some((s) => key(s) === k))` */
  predicate AllSelected(prev: seq<SelectedSchedule>, key: Key, keys: seq<string>) {
    forall i :: 0 <= i < |keys| ==> HasKey(prev, key, keys[i])
  }

  /**
   * The append loop: each schedule, in order, is pushed when the growing
   * list does not yet hold its key.
   */
  function AppendMissing(acc: seq<SelectedSchedule>, key: Key, xs: seq<SelectedSchedule>): (r: seq<SelectedSchedule>)
    ensures |acc| <= |r| && r[..|acc|] == acc
    ensures forall i :: 0 <= i < |xs| ==> HasKey(r, key, key(xs[i]))
    ensures forall j :: |acc| <= j < |r| ==> r[j] in xs
    decreases |xs|
  {
    if |xs| == 0 then acc
    else
      var next := if HasKey(acc, key, key(xs[0])) then acc else acc + [xs[0]];
      assert HasKey(next, key, key(xs[0])) by {
        if !HasKey(acc, key, key(xs[0])) {
          assert next[|acc|] == xs[0];
        }
      }
      var r := AppendMissing(next, key, xs[1..]);
      assert forall i :: 0 <= i < |next| ==> r[i] == next[i];
      assert HasKey(r, key, key(xs[0])) by {
        var i :| 0 <= i < |next| && key(next[i]) == key(xs[0]);
        assert r[i] == next[i];
      }
      assert forall i :: 1 <= i < |xs| ==> xs[i] == xs[1..][i - 1];
      assert r[..|acc|] == next[..|acc|];
      r
  }

  /** Appending what is missing adds no key twice. */
  lemma {:induction false} AppendMissingDistinct(acc: seq<SelectedSchedule>, key: Key, xs: seq<SelectedSchedule>)
    requires DistinctKeys(acc, key)
    ensures DistinctKeys(AppendMissing(acc, key, xs), key)
    decreases |xs|
  {
    if |xs| > 0 {
      var next := if HasKey(acc, key, key(xs[0])) then acc else acc + [xs[0]];
      if !HasKey(acc, key, key(xs[0])) {
        forall i, j | 0 <= i < j < |next| ensures key(next[i]) != key(next[j]) {
          if j == |acc| {
            assert next[i] == acc[i];
          }
        }
      }
      AppendMissingDistinct(next, key, xs[1..]);
    }
  }

  /** `const newSchedules = [...prev]; for (const schedule of schedules) if (!some) push` */
  method AppendMissingLoop(prev: seq<SelectedSchedule>, key: Key, schedules: seq<SelectedSchedule>)
    returns (r: seq<SelectedSchedule>)
    ensures r == AppendMissing(prev, key, schedules)
  {
    r := prev;
    var i := 0;
    while i < |schedules|
      invariant 0 <= i <= |schedules|
      invariant AppendMissing(r, key, schedules[i..]) == AppendMissing(prev, key, schedules)
    {
      assert schedules[i..][1..] == schedules[i + 1..];
      var k := key(schedules[i]);
      if !HasKey(r, key, k) {
        r := r + [schedules[i]];
      }
      i := i + 1;
    }
    assert schedules[i..] == [];
  }

  /** Removes every given key when all are selected; otherwise appends the missing ones. */
  function BulkToggle(prev: seq<SelectedSchedule>, key: Key, schedules: seq<SelectedSchedule>): seq<SelectedSchedule> {
    var keys := Keys(schedules, key);
    if AllSelected(prev, key, keys) then WithoutKeys(prev, key, keys) else AppendMissing(prev, key, schedules)
  }

  /** When every given key is selected, the batch's keys are removed and all others kept. */
  lemma BulkToggleRemoves(prev: seq<SelectedSchedule>, key: Key, schedules: seq<SelectedSchedule>)
    requires AllSelected(prev, key, Keys(schedules, key))
    ensures forall k :: HasKey(BulkToggle(prev, key, schedules), key, k) <==> HasKey(prev, key, k) && k !in Keys(schedules, key)
    ensures forall y :: y in BulkToggle(prev, key, schedules) <==> y in prev && key(y) !in Keys(schedules, key)
  {
    forall k ensures HasKey(BulkToggle(prev, key, schedules), key, k) <==> HasKey(prev, key, k) && k !in Keys(schedules, key) {
      WithoutKeysHasKey(prev, key, Keys(schedules, key), k);
    }
  }

  /**
   * Otherwise the old list is a prefix of the new one, every given key is
   * present afterwards, and only given schedules are appended.
   */
  lemma BulkToggleAppends(prev: seq<SelectedSchedule>, key: Key, schedules: seq<SelectedSchedule>)
    requires !AllSelected(prev, key, Keys(schedules, key))
    ensures var r := BulkToggle(prev, key, schedules);
      && |prev| <= |r| && r[..|prev|] == prev
      && (forall i :: 0 <= i < |schedules| ==> HasKey(r, key, key(schedules[i])))
      && (forall j :: |prev| <= j < |r| ==> r[j] in schedules)
  {
  }

  lemma BulkToggleDistinct(prev: seq<SelectedSchedule>, key: Key, schedules: seq<SelectedSchedule>)
    requires DistinctKeys(prev, key)
    ensures DistinctKeys(BulkToggle(prev, key, schedules), key)
  {
    if AllSelected(prev, key, Keys(schedules, key)) {
      WithoutKeysDistinct(prev, key, Keys(schedules, key));
    } else {
      AppendMissingDistinct(prev, key, schedules);
    }
  }

  // ---------------------------------------------------------------------
  // handleRemoveSchedule
  // ---------------------------------------------------------------------

  /**
   * `prev.filter((s) => !prevKeys.includes(k))`: the predicate does not
   * look at s, so either every entry survives or none does.
   */
  function Remove(prev: seq<SelectedSchedule>, key: Key, k: string): seq<SelectedSchedule> {
    var keep := k !in Keys(prev, key);
    if keep then prev else []
  }

  /**
   * After a removal the key is gone; when it was present the whole
   * selection went with it, and when it was absent nothing changed.
   */
  lemma RemoveEffect(prev: seq<SelectedSchedule>, key: Key, k: string)
    ensures !HasKey(Remove(prev, key, k), key, k)
    ensures HasKey(prev, key, k) ==> Remove(prev, key, k) == []
    ensures !HasKey(prev, key, k) ==> Remove(prev, key, k) == prev
  {
    if HasKey(prev, key, k) {
      var i :| 0 <= i < |prev| && key(prev[i]) == k;
      assert Keys(prev, key)[i] == k;
    }
  }

  lemma RemoveDistinct(prev: seq<SelectedSchedule>, key: Key, k: string)
    requires DistinctKeys(prev, key)
    ensures DistinctKeys(Remove(prev, key, k), key)
  {
  }
}
