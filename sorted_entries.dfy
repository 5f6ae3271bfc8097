/**
 * The ordered map behind BDictionary, as a sequence of (key, handle)
 * entries whose keys ascend strictly in KeyOrder.Less. Strict ascent makes
 * keys unique by content and fixes the iteration order.
 */
module SortedEntries {
  import opened BValues
  import opened KeyOrder

  datatype Entry = Entry(key: Bytes, value: Item)

  /** Keys ascend strictly: unique by content, and in iteration order. */
  predicate Sorted(es: seq<Entry>) {
    forall i, j :: 0 <= i < j < |es| ==> Less(es[i].key, es[j].key)
  }

  /**
   * The mapping an entry sequence denotes. Of two entries with equal keys
   * the earlier one wins, which is what std::map's range insertion keeps.
   */
  function ToMap(es: seq<Entry>): map<Bytes, Item> {
    if es == [] then map[] else ToMap(es[1..])[es[0].key := es[0].value]
  }

  /** The stored handles, in entry order. */
  function ValuesOf(es: seq<Entry>): seq<Item> {
    seq(|es|, i requires 0 <= i < |es| => es[i].value)
  }

  /** Insert-or-assign `k := v` at its place in key order. */
  function Insert(es: seq<Entry>, k: Bytes, v: Item): seq<Entry> {
    if es == [] then [Entry(k, v)]
    else if es[0].key == k then [Entry(k, v)] + es[1..]
    else if Less(k, es[0].key) then [Entry(k, v)] + es
    else [es[0]] + Insert(es[1..], k, v)
  }

  /** Drop the entry whose key is `k`, if any. */
  function Remove(es: seq<Entry>, k: Bytes): seq<Entry> {
    if es == [] then []
    else if es[0].key == k then es[1..]
    else [es[0]] + Remove(es[1..], k)
  }

  /**
   * The ordered map built from a list of entries the way std::map's range
   * constructor builds it: an entry whose key is already present is skipped,
   * so the first occurrence of each key wins.
   */
  function FromItems(items: seq<Entry>): seq<Entry> {
    if items == [] then []
    else Insert(FromItems(items[1..]), items[0].key, items[0].value)
  }

  lemma {:induction false} ToMapKeys(es: seq<Entry>)
    ensures forall i :: 0 <= i < |es| ==> es[i].key in ToMap(es)
    ensures forall k :: k in ToMap(es) ==> exists i :: 0 <= i < |es| && es[i].key == k
  {
    if es != [] {
      var t := es[1..];
      ToMapKeys(t);
      forall i | 0 < i < |es| ensures es[i].key in ToMap(es) {
        assert es[i] == t[i - 1];
      }
      forall k | k in ToMap(es) ensures exists i :: 0 <= i < |es| && es[i].key == k {
        if k != es[0].key {
          var j :| 0 <= j < |t| && t[j].key == k;
          assert es[j + 1].key == k;
        }
      }
    }
  }

  /** In a sorted sequence the first key lies below every key of the rest. */
  lemma SortedHeadBelowTail(es: seq<Entry>)
    requires Sorted(es) && es != []
    ensures forall k :: k in ToMap(es[1..]) ==> Less(es[0].key, k)
    ensures es[0].key !in ToMap(es[1..])
  {
    var t := es[1..];
    ToMapKeys(t);
    forall k | k in ToMap(t) ensures Less(es[0].key, k) {
      var j :| 0 <= j < |t| && t[j].key == k;
      assert es[j + 1] == t[j];
    }
    LessIrreflexive(es[0].key);
  }

  /** Putting an entry in front of a sorted sequence whose keys all lie above it keeps it sorted. */
  lemma SortedCons(e: Entry, t: seq<Entry>)
    requires Sorted(t)
    requires forall k :: k in ToMap(t) ==> Less(e.key, k)
    ensures Sorted([e] + t)
  {
    var r := [e] + t;
    ToMapKeys(t);
    forall i, j | 0 <= i < j < |r| ensures Less(r[i].key, r[j].key) {
      assert r[j] == t[j - 1];
      if i > 0 {
        assert r[i] == t[i - 1];
      }
    }
  }

  lemma {:induction false} InsertCorrect(es: seq<Entry>, k: Bytes, v: Item)
    requires Sorted(es)
    ensures Sorted(Insert(es, k, v))
    ensures ToMap(Insert(es, k, v)) == ToMap(es)[k := v]
    ensures |Insert(es, k, v)| == if k in ToMap(es) then |es| else |es| + 1
  {
    if es == [] {
    } else if es[0].key == k {
      InsertReplacesHead(es, v);
    } else if Less(k, es[0].key) {
      InsertBeforeHead(es, k, v);
    } else {
      LessTotal(k, es[0].key);
      var t := es[1..];
      assert Sorted(t);
      InsertCorrect(t, k, v);
      InsertAfterHead(es, k, v);
    }
  }

  lemma InsertReplacesHead(es: seq<Entry>, v: Item)
    requires Sorted(es) && es != []
    ensures Sorted(Insert(es, es[0].key, v))
    ensures ToMap(Insert(es, es[0].key, v)) == ToMap(es)[es[0].key := v]
    ensures |Insert(es, es[0].key, v)| == |es|
  {
    var r := Insert(es, es[0].key, v);
    assert r[1..] == es[1..];
    assert forall i :: 0 <= i < |r| ==> r[i].key == es[i].key;
  }

  lemma InsertBeforeHead(es: seq<Entry>, k: Bytes, v: Item)
    requires Sorted(es) && es != [] && Less(k, es[0].key)
    ensures Sorted(Insert(es, k, v))
    ensures ToMap(Insert(es, k, v)) == ToMap(es)[k := v]
    ensures |Insert(es, k, v)| == |es| + 1 && k !in ToMap(es)
  {
    LessIrreflexive(k);
    assert Insert(es, k, v) == [Entry(k, v)] + es;
    SortedHeadBelowTail(es);
    forall k' | k' in ToMap(es) ensures Less(k, k') {
      if k' != es[0].key {
        LessTransitive(k, es[0].key, k');
      }
    }
    SortedCons(Entry(k, v), es);
  }

  lemma InsertAfterHead(es: seq<Entry>, k: Bytes, v: Item)
    requires Sorted(es) && es != [] && Less(es[0].key, k)
    requires Sorted(Insert(es[1..], k, v))
    requires ToMap(Insert(es[1..], k, v)) == ToMap(es[1..])[k := v]
    requires |Insert(es[1..], k, v)| == if k in ToMap(es[1..]) then |es| - 1 else |es|
    ensures Sorted(Insert(es, k, v))
    ensures ToMap(Insert(es, k, v)) == ToMap(es)[k := v]
    ensures |Insert(es, k, v)| == if k in ToMap(es) then |es| else |es| + 1
  {
    LessIrreflexive(k);
    var rt := Insert(es[1..], k, v);
    LessAsymmetric(es[0].key, k);
    assert Insert(es, k, v) == [es[0]] + rt;
    SortedHeadBelowTail(es);
    SortedCons(es[0], rt);
    MapUpdateCommute(ToMap(es[1..]), k, v, es[0].key, es[0].value);
  }

  lemma MapUpdateCommute(m: map<Bytes, Item>, k1: Bytes, v1: Item, k2: Bytes, v2: Item)
    requires k1 != k2
    ensures m[k1 := v1][k2 := v2] == m[k2 := v2][k1 := v1]
  {
  }

  lemma {:induction false} RemoveCorrect(es: seq<Entry>, k: Bytes)
    requires Sorted(es)
    ensures Sorted(Remove(es, k))
    ensures ToMap(Remove(es, k)) == ToMap(es) - {k}
    ensures |Remove(es, k)| == if k in ToMap(es) then |es| - 1 else |es|
  {
    if es != [] {
      var t := es[1..];
      assert Sorted(t);
      SortedHeadBelowTail(es);
      if es[0].key == k {
        assert ToMap(t) == ToMap(es) - {k};
      } else {
        RemoveCorrect(t, k);
        RemoveAfterHead(es, k);
      }
    }
  }

  lemma RemoveAfterHead(es: seq<Entry>, k: Bytes)
    requires Sorted(es) && es != [] && es[0].key != k
    requires Sorted(Remove(es[1..], k))
    requires ToMap(Remove(es[1..], k)) == ToMap(es[1..]) - {k}
    ensures Sorted(Remove(es, k))
    ensures ToMap(Remove(es, k)) == ToMap(es) - {k}
  {
    var rt := Remove(es[1..], k);
    assert Remove(es, k) == [es[0]] + rt;
    SortedHeadBelowTail(es);
    assert forall k' :: k' in ToMap(rt) ==> k' in ToMap(es[1..]);
    SortedCons(es[0], rt);
    calc {
      ToMap([es[0]] + rt);
      { assert ([es[0]] + rt)[1..] == rt; }
      ToMap(rt)[es[0].key := es[0].value];
      (ToMap(es[1..]) - {k})[es[0].key := es[0].value];
      { MapUpdateRemoveCommute(ToMap(es[1..]), es[0].key, es[0].value, k); }
      ToMap(es[1..])[es[0].key := es[0].value] - {k};
    }
  }

  lemma MapUpdateRemoveCommute(m: map<Bytes, Item>, k1: Bytes, v: Item, k2: Bytes)
    requires k1 != k2
    ensures (m - {k2})[k1 := v] == m[k1 := v] - {k2}
  {
  }

  /** A sorted sequence has exactly one entry per key of the map it denotes. */
  lemma {:induction false} SortedSize(es: seq<Entry>)
    requires Sorted(es)
    ensures |ToMap(es)| == |es|
  {
    if es != [] {
      assert Sorted(es[1..]);
      SortedSize(es[1..]);
      SortedHeadBelowTail(es);
    }
  }

  /**
   * Iteration order is determined by content alone: two sorted sequences
   * denoting the same map are equal, whatever order the entries were
   * inserted in.
   */
  lemma {:induction false} SortedUnique(a: seq<Entry>, b: seq<Entry>)
    requires Sorted(a) && Sorted(b)
    requires ToMap(a) == ToMap(b)
    ensures a == b
  {
    if a == [] || b == [] {
      ToMapKeys(a);
      ToMapKeys(b);
    } else {
      SortedHeadsAgree(a, b);
      SortedHeadBelowTail(a);
      SortedHeadBelowTail(b);
      assert ToMap(a[1..]) == ToMap(a) - {a[0].key};
      assert ToMap(b[1..]) == ToMap(b) - {b[0].key};
      assert Sorted(a[1..]) && Sorted(b[1..]);
      SortedUnique(a[1..], b[1..]);
      assert a[0] == b[0] by {
        assert ToMap(a)[a[0].key] == a[0].value;
        assert ToMap(b)[b[0].key] == b[0].value;
      }
      assert a == [a[0]] + a[1..] && b == [b[0]] + b[1..];
    }
  }

  /** Two sorted sequences over the same keys start with the same (least) key. */
  lemma SortedHeadsAgree(a: seq<Entry>, b: seq<Entry>)
    requires Sorted(a) && Sorted(b) && a != [] && b != []
    requires ToMap(a).Keys == ToMap(b).Keys
    ensures a[0].key == b[0].key
  {
    ToMapKeys(a);
    ToMapKeys(b);
    assert a[0].key in ToMap(b) && b[0].key in ToMap(a);
    var i :| 0 <= i < |a| && a[i].key == b[0].key;
    var j :| 0 <= j < |b| && b[j].key == a[0].key;
    if i > 0 && j > 0 {
      LessAsymmetric(a[0].key, a[i].key);
    } else if i > 0 {
      LessIrreflexive(a[0].key);
    } else if j > 0 {
      LessIrreflexive(b[0].key);
    }
  }

  /** The constructor's result is sorted and denotes the first-wins map of its items. */
  lemma {:induction false} FromItemsCorrect(items: seq<Entry>)
    ensures Sorted(FromItems(items))
    ensures ToMap(FromItems(items)) == ToMap(items)
  {
    if items != [] {
      FromItemsCorrect(items[1..]);
      InsertCorrect(FromItems(items[1..]), items[0].key, items[0].value);
    }
  }

  /**
   * Of several items with equal keys the first one is kept: the map
   * holds the value of the first item with that key.
   */
  lemma {:induction false} FirstOccurrenceWins(items: seq<Entry>, i: nat)
    requires i < |items|
    requires forall j :: 0 <= j < i ==> items[j].key != items[i].key
    ensures items[i].key in ToMap(items)
    ensures ToMap(items)[items[i].key] == items[i].value
  {
    if i > 0 {
      var t := items[1..];
      forall j | 0 <= j < i - 1 ensures t[j].key != t[i - 1].key {
        assert t[j] == items[j + 1] && t[i - 1] == items[i];
      }
      FirstOccurrenceWins(t, i - 1);
      assert t[i - 1] == items[i];
    }
  }

  /**
   * The handles of a sorted sequence are listed by ascending key: position
   * `i` holds the handle mapped to the `i`-th smallest key.
   */
  lemma ValuesInKeyOrder(es: seq<Entry>, i: nat)
    requires Sorted(es) && i < |es|
    ensures |ValuesOf(es)| == |es|
    ensures es[i].key in ToMap(es)
    ensures ValuesOf(es)[i] == ToMap(es)[es[i].key]
  {
    forall j | 0 <= j < i ensures es[j].key != es[i].key {
      LessIrreflexive(es[i].key);
    }
    FirstOccurrenceWins(es, i);
  }
}
