/** A fixed array of slots seen as a finite map from the keys of its items: what every small table of the
    gateway (pending commands, tracked commands, locators) is to its users. */
module Slots {
  import opened Common
  import opened Counting

  ghost predicate DistinctKeys<K(!new), V(!new)>(s: seq<Option<V>>, key: V -> K) {
    forall i, j | 0 <= i < j < |s| && s[i].Some? && s[j].Some? :: key(s[i].value) != key(s[j].value)
  }

  /** Slot `i` holds the item of key `k`. */
  ghost predicate At<K(!new), V(!new)>(s: seq<Option<V>>, key: V -> K, i: int, k: K) {
    0 <= i < |s| && s[i].Some? && key(s[i].value) == k
  }

  ghost function Keys<K(!new), V(!new)>(s: seq<Option<V>>, key: V -> K): set<K> {
    set i | 0 <= i < |s| && s[i].Some? :: key(s[i].value)
  }

  ghost function SlotOf<K(!new), V(!new)>(s: seq<Option<V>>, key: V -> K, k: K): (i: int)
    requires k in Keys(s, key)
    ensures At(s, key, i, k)
  {
    var i :| 0 <= i < |s| && s[i].Some? && key(s[i].value) == k;
    i
  }

  ghost function View<K(!new), V(!new)>(s: seq<Option<V>>, key: V -> K): map<K, V> {
    map k | k in Keys(s, key) :: s[SlotOf(s, key, k)].value
  }

  function UsedSlots<V>(s: seq<Option<V>>): set<int> {
    set i | 0 <= i < |s| && s[i].Some?
  }

  lemma ViewAt<K(!new), V(!new)>(s: seq<Option<V>>, key: V -> K, i: nat)
    requires DistinctKeys(s, key) && i < |s| && s[i].Some?
    ensures key(s[i].value) in View(s, key) && View(s, key)[key(s[i].value)] == s[i].value
  {
    var j := SlotOf(s, key, key(s[i].value));
    assert !(i < j) && !(j < i);
  }

  lemma ViewHas<K(!new), V(!new)>(s: seq<Option<V>>, key: V -> K, k: K)
    requires k in View(s, key)
    ensures At(s, key, SlotOf(s, key, k), k) && s[SlotOf(s, key, k)].value == View(s, key)[k]
  {
  }

  lemma ViewLacks<K(!new), V(!new)>(s: seq<Option<V>>, key: V -> K, k: K)
    requires forall i | 0 <= i < |s| && s[i].Some? :: key(s[i].value) != k
    ensures k !in View(s, key)
  {
  }

  /** A map agreeing with the slots in both directions is the view. */
  lemma ViewIs<K(!new), V(!new)>(s: seq<Option<V>>, key: V -> K, m: map<K, V>)
    requires forall i | 0 <= i < |s| && s[i].Some? :: key(s[i].value) in m && m[key(s[i].value)] == s[i].value
    requires forall k | k in m :: exists i :: At(s, key, i, k)
    ensures View(s, key) == m
  {
    forall k | k in m ensures k in View(s, key) && View(s, key)[k] == m[k] {
      var i :| At(s, key, i, k);
      var j := SlotOf(s, key, k);
    }
    forall k | k in View(s, key) ensures k in m {
      var j := SlotOf(s, key, k);
    }
  }

  /** Writing an item into its own slot, or a new key into a free one. */
  lemma ViewAfterPut<K(!new), V(!new)>(s: seq<Option<V>>, key: V -> K, i: nat, v: V)
    requires DistinctKeys(s, key) && i < |s|
    requires if s[i].Some? then key(s[i].value) == key(v) else key(v) !in View(s, key)
    ensures DistinctKeys(s[i := Some(v)], key)
    ensures View(s[i := Some(v)], key) == View(s, key)[key(v) := v]
  {
    var t := s[i := Some(v)];
    var m := View(s, key)[key(v) := v];
    forall j | 0 <= j < |s| && s[j].Some? && j != i
      ensures key(s[j].value) != key(v) && View(s, key)[key(s[j].value)] == s[j].value
    {
      ViewAt(s, key, j);
      assert i < j || j < i;
    }
    forall k | k in m ensures exists j :: At(t, key, j, k) {
      if k == key(v) {
        assert At(t, key, i, k);
      } else {
        assert At(t, key, SlotOf(s, key, k), k);
      }
    }
    ViewIs(t, key, m);
  }

  lemma ViewAfterClear<K(!new), V(!new)>(s: seq<Option<V>>, key: V -> K, i: nat)
    requires DistinctKeys(s, key) && i < |s| && s[i].Some?
    ensures DistinctKeys(s[i := None], key)
    ensures View(s[i := None], key) == View(s, key) - {key(s[i].value)}
    ensures key(s[i].value) in View(s, key)
  {
    var t := s[i := None];
    var m := View(s, key) - {key(s[i].value)};
    ViewAt(s, key, i);
    forall j | 0 <= j < |s| && s[j].Some? && j != i
      ensures key(s[j].value) != key(s[i].value) && key(s[j].value) in View(s, key)
              && View(s, key)[key(s[j].value)] == s[j].value
    {
      ViewAt(s, key, j);
      assert i < j || j < i;
    }
    forall k | k in m ensures exists j :: At(t, key, j, k) {
      assert At(t, key, SlotOf(s, key, k), k);
    }
    ViewIs(t, key, m);
  }

  lemma OneMoreSlot<K(!new), V(!new)>(s: seq<Option<V>>, key: V -> K)
    requires DistinctKeys(s, key) && s != []
    ensures var n := |s| - 1;
            if s[n].Some?
            then UsedSlots(s) == UsedSlots(s[..n]) + {n} && key(s[n].value) !in Keys(s[..n], key)
                 && Keys(s, key) == Keys(s[..n], key) + {key(s[n].value)}
            else UsedSlots(s) == UsedSlots(s[..n]) && Keys(s, key) == Keys(s[..n], key)
  {
    assert s == s[..|s| - 1] + [s[|s| - 1]];
  }

  lemma {:induction false} KeysCountSlots<K(!new), V(!new)>(s: seq<Option<V>>, key: V -> K)
    requires DistinctKeys(s, key)
    ensures |Keys(s, key)| == |UsedSlots(s)|
  {
    if s == [] {
      assert Keys(s, key) == {};
    } else {
      OneMoreSlot(s, key);
      KeysCountSlots(s[..|s| - 1], key);
    }
  }

  lemma ViewSize<K(!new), V(!new)>(s: seq<Option<V>>, key: V -> K)
    requires DistinctKeys(s, key)
    ensures |View(s, key)| == |UsedSlots(s)|
  {
    KeysCountSlots(s, key);
    assert View(s, key).Keys == Keys(s, key);
  }

  /** There is a free slot exactly when fewer keys than slots are in use. */
  lemma FreeSlotIffRoom<K(!new), V(!new)>(s: seq<Option<V>>, key: V -> K)
    requires DistinctKeys(s, key)
    ensures |View(s, key)| <= |s|
    ensures (exists i :: 0 <= i < |s| && s[i] == None) <==> |View(s, key)| < |s|
  {
    ViewSize(s, key);
    SubsetSize(UsedSlots(s), Range(|s|));
    if i :| 0 <= i < |s| && s[i] == None {
      SubsetSize(UsedSlots(s), Range(|s|) - {i});
    } else {
      assert UsedSlots(s) == Range(|s|);
    }
  }
}
