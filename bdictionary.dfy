/**
 * BDictionary: an ordered map from byte-string keys to value handles.
 * Keys are looked up and ordered by their content, never by handle.
 */
module BDictionaries {
  import opened BValues
  import opened KeyOrder
  import opened SortedEntries
  import opened BStrings
  import opened BLists

  /**
   * The map's comparator: compares two key handles by the bytes they hold.
   * Two handles are equivalent under it exactly when their contents are equal.
   */
  method ByValueLess(lhs: BString, rhs: BString) returns (r: bool)
    ensures r <==> Less(lhs.Content(), rhs.Content())
    ensures !r && lhs.Content() != rhs.Content() ==> Less(rhs.Content(), lhs.Content())
  {
    var a := lhs.Value();
    var b := rhs.Value();
    r := Less(a.content, b.content);
    LessTotal(a.content, b.content);
  }

  class BDictionary {
    /** The entries in iteration order. */
    var entries: seq<Entry>

    /** Keys strictly ascending by content. */
    ghost predicate Valid()
      reads this
    {
      Sorted(entries)
    }

    /** The key-to-handle mapping held. */
    function Map(): map<Bytes, Item>
      reads this
    {
      ToMap(entries)
    }

    /** create(). */
    constructor Create()
      ensures Valid()
      ensures Map() == map[]
    {
      entries := [];
    }

    /**
     * create(items): entries with equal keys after the first are skipped,
     * so the map is the first-occurrence map of `items`.
     */
    constructor CreateFrom(items: seq<Entry>)
      ensures Valid()
      ensures Map() == ToMap(items)
    {
      entries := FromItems(items);
      FromItemsCorrect(items);
    }

    method Size() returns (n: nat)
      requires Valid()
      ensures n == |Map()|
    {
      n := |entries|;
      SortedSize(entries);
    }

    method Empty() returns (b: bool)
      requires Valid()
      ensures b <==> |Map()| == 0
    {
      b := |entries| == 0;
      SortedSize(entries);
    }

    /**
     * begin()..end(): the entries in strictly ascending key order, exactly
     * one per key of the map.
     */
    method Iterate() returns (es: seq<Entry>)
      requires Valid()
      ensures Sorted(es)
      ensures ToMap(es) == Map()
      ensures |es| == |Map()|
    {
      es := entries;
      SortedSize(es);
    }

    /**
     * operator[](key): on a miss inserts the null handle under `key`; in
     * both cases gives the handle now stored under `key`.
     */
    method Index(key: BString) returns (r: Item)
      requires Valid()
      modifies this
      ensures Valid()
      ensures Map() == if key.Content() in old(Map()) then old(Map()) else old(Map())[key.Content() := None]
      ensures key.Content() in Map() && r == Map()[key.Content()]
      ensures |entries| == |old(entries)| + (if key.Content() in old(Map()) then 0 else 1)
    {
      var k := key.Content();
      if k !in ToMap(entries) {
        InsertCorrect(entries, k, None);
        entries := Insert(entries, k, None);
      }
      r := ToMap(entries)[k];
    }

    /** operator[](std::string): operator[] on a fresh key holding `key`. */
    method IndexStr(key: Bytes) returns (r: Item)
      requires Valid()
      modifies this
      ensures Valid()
      ensures Map() == if key in old(Map()) then old(Map()) else old(Map())[key := None]
      ensures key in Map() && r == Map()[key]
      ensures |entries| == |old(entries)| + (if key in old(Map()) then 0 else 1)
    {
      var tmpKey := new BString.FromString(key);
      r := Index(tmpKey);
    }

    /** erase(key): the number of entries removed, 1 or 0. */
    method Erase(key: BString) returns (count: nat)
      requires Valid()
      modifies this
      ensures Valid()
      ensures count == if key.Content() in old(Map()) then 1 else 0
      ensures Map() == old(Map()) - {key.Content()}
      ensures |entries| == |old(entries)| - count
    {
      var k := key.Content();
      count := if k in ToMap(entries) then 1 else 0;
      RemoveCorrect(entries, k);
      entries := Remove(entries, k);
    }

    /** erase(std::string): erase on a fresh key holding `key`. */
    method EraseStr(key: Bytes) returns (count: nat)
      requires Valid()
      modifies this
      ensures Valid()
      ensures count == if key in old(Map()) then 1 else 0
      ensures Map() == old(Map()) - {key}
      ensures |entries| == |old(entries)| - count
    {
      var keyStr := new BString.FromString(key);
      count := Erase(keyStr);
    }

    /**
     * values(): a new list of the stored handles in ascending key order.
     * Each is appended with push_back, which refuses null handles.
     */
    method Values() returns (r: BList)
      requires Valid()
      requires forall k :: k in Map() ==> Map()[k].Some?
      ensures fresh(r) && fresh(r.itemList)
      ensures r.Items() == ValuesOf(entries)
      ensures |r.Items()| == |Map()|
      ensures NoNulls(r.Items())
    {
      r := new BList.Create();
      var i := 0;
      while i < |entries|
        invariant 0 <= i <= |entries|
        invariant fresh(r.itemList)
        invariant r.Items() == ValuesOf(entries[..i])
        invariant NoNulls(r.Items())
      {
        ValuesInKeyOrder(entries, i);
        assert entries[i].key in Map();
        r.PushBack(entries[i].value);
        assert entries[..i + 1] == entries[..i] + [entries[i]];
        i := i + 1;
      }
      assert entries[..i] == entries;
      SortedSize(entries);
    }

    /** hasKey(key): whether an entry with equal content exists, null-valued or not. */
    method HasKey(key: BString) returns (b: bool)
      ensures b <==> key.Content() in Map()
    {
      var k := key.Content();
      b := k in ToMap(entries);
    }

    /** hasKey(std::string): hasKey on a fresh key holding `key`. */
    method HasKeyStr(key: Bytes) returns (b: bool)
      ensures b <==> key in Map()
    {
      var tmpKey := new BString.FromString(key);
      b := HasKey(tmpKey);
    }

    /**
     * setValue(key, value): `(*this)[key] = value`; every other entry is kept.
     */
    method SetValue(key: BString, v: Item)
      requires Valid()
      modifies this
      ensures Valid()
      ensures Map() == old(Map())[key.Content() := v]
      ensures |entries| == |old(entries)| + (if key.Content() in old(Map()) then 0 else 1)
    {
      var k := key.Content();
      InsertCorrect(entries, k, v);
      entries := Insert(entries, k, v);
    }

    /** setValue(std::string, value): setValue on a fresh key holding `key`. */
    method SetValueStr(key: Bytes, v: Item)
      requires Valid()
      modifies this
      ensures Valid()
      ensures Map() == old(Map())[key := v]
      ensures |entries| == |old(entries)| + (if key in old(Map()) then 0 else 1)
    {
      var tmpKey := new BString.FromString(key);
      SetValue(tmpKey, v);
    }

    /**
     * setDefault(key, value): when `key` is absent or holds the null handle,
     * stores `value` and returns it; otherwise returns the stored handle and
     * changes nothing.
     */
    method SetDefault(key: BString, v: Item) returns (r: Item)
      requires Valid()
      modifies this
      ensures Valid()
      ensures var k := key.Content();
        if k in old(Map()) && old(Map())[k].Some? then
          Map() == old(Map()) && r == old(Map())[k]
        else
          Map() == old(Map())[k := v] && r == v
      ensures |entries| == |old(entries)| + (if key.Content() in old(Map()) then 0 else 1)
    {
      var tmp := Index(key);
      if tmp == None {
        SetValue(key, v);
      }
      r := Index(key);
    }

    /** setDefault(std::string, value): setDefault on a fresh key holding `key`. */
    method SetDefaultStr(key: Bytes, v: Item) returns (r: Item)
      requires Valid()
      modifies this
      ensures Valid()
      ensures if key in old(Map()) && old(Map())[key].Some? then
          Map() == old(Map()) && r == old(Map())[key]
        else
          Map() == old(Map())[key := v] && r == v
      ensures |entries| == |old(entries)| + (if key in old(Map()) then 0 else 1)
    {
      var tmpKey := new BString.FromString(key);
      r := SetDefault(tmpKey, v);
    }

    /**
     * getValue<T>(key): null when `key` is absent; otherwise the stored
     * handle narrowed to kind `t`, null on a mismatch. The stored handle is
     * dereferenced, so it must not be null.
     */
    method GetValue(key: BString, t: Kind) returns (r: Item)
      requires key.Content() in Map() ==> Map()[key.Content()].Some?
      ensures key.Content() !in Map() ==> r == None
      ensures key.Content() in Map() ==> r == As(Map()[key.Content()].value, t)
      ensures r.Some? ==> KindOf(r.value) == t
    {
      var found := HasKey(key);
      if found {
        var stored := ToMap(entries)[key.Content()];
        r := As(stored.value, t);
      } else {
        r := None;
      }
    }

    /** getValue<T>(std::string): getValue on a fresh key holding `key`. */
    method GetValueStr(key: Bytes, t: Kind) returns (r: Item)
      requires key in Map() ==> Map()[key].Some?
      ensures key !in Map() ==> r == None
      ensures key in Map() ==> r == As(Map()[key].value, t)
    {
      var tmpKey := new BString.FromString(key);
      r := GetValue(tmpKey, t);
    }

    /**
     * getValue<T>(key, value): the caller's `d` when `key` is absent;
     * otherwise the stored handle narrowed to kind `t`, never `d`, even on a
     * mismatch. `d` is typed as a handle to `t` (or null) in the source.
     */
    method GetValueOr(key: BString, t: Kind, d: Item) returns (r: Item)
      requires d.Some? ==> KindOf(d.value) == t
      requires key.Content() in Map() ==> Map()[key.Content()].Some?
      ensures key.Content() !in Map() ==> r == d
      ensures key.Content() in Map() ==> r == As(Map()[key.Content()].value, t)
      ensures r.Some? ==> KindOf(r.value) == t
    {
      var k := key.Content();
      if k !in ToMap(entries) {
        return d;
      }
      r := As(ToMap(entries)[k].value, t);
    }

    /** getValue<T>(std::string, value): getValue on a fresh key holding `key`. */
    method GetValueOrStr(key: Bytes, t: Kind, d: Item) returns (r: Item)
      requires d.Some? ==> KindOf(d.value) == t
      requires key in Map() ==> Map()[key].Some?
      ensures key !in Map() ==> r == d
      ensures key in Map() ==> r == As(Map()[key].value, t)
    {
      var tmpKey := new BString.FromString(key);
      r := GetValueOr(tmpKey, t, d);
    }
  }
}
