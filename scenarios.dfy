/**
 * The repository's demo program, replayed against the contracts alone:
 * each result it prints is pinned down by the specifications of the
 * operations it calls.
 */
module Scenarios {
  import opened BValues
  import opened BLists
  import opened BStrings
  import opened BDictionaries
  import opened KeyOrder
  import opened SortedEntries

  /**
   * The list half of the demo: four strings, extended twice by a two-item
   * list, then sliced and erased with negative bounds. The sizes printed
   * are 8, 7, 4 and 6.
   */
  method ListDemo(a: Value, b: Value, c: Value, d: Value, z1: Value, z2: Value, draws: seq<nat>)
    returns (second: Item, sizes: seq<nat>)
    ensures second == Some(b)
    ensures sizes == [8, 7, 4, 6]
  {
    var vl := new BList.CreateFrom([Some(a), Some(b), Some(c), Some(d)]);
    var vl1 := new BList.CreateFrom([Some(z1), Some(z2)]);
    second := vl.At(1);
    vl.Shuffle(draws);
    vl.Extend(vl1);
    vl.Extend(vl1);
    var n0 := vl.Size();
    var head := vl.Range(0, -1);
    var n1 := head.Size();
    var tail := vl.RangeFrom(-4);
    var n2 := tail.Size();
    vl.RangeErase(-3, -1);
    var n3 := vl.Size();
    sizes := [n0, n1, n2, n3];
  }

  /**
   * setDefault twice on one key: the first call stores and returns its
   * value, the second returns that same value and adds nothing.
   */
  method SetDefaultTwice(key: Bytes, v: Value, v2: Value) returns (first: Item, again: Item, size: nat)
    ensures first == Some(v) && again == Some(v)
    ensures size == 1
  {
    var dict := new BDictionary.Create();
    first := dict.SetDefaultStr(key, Some(v));
    again := dict.SetDefaultStr(key, Some(v2));
    size := dict.Size();
  }

  /**
   * A key that was set is erased with count 1, a second erase counts 0, and
   * afterwards the key is gone.
   */
  method EraseTwice(key: Bytes, v: Value) returns (counts: seq<nat>, present: bool)
    ensures counts == [1, 0]
    ensures !present
  {
    var dict := new BDictionary.Create();
    dict.SetValueStr(key, Some(v));
    var e1 := dict.EraseStr(key);
    var e2 := dict.EraseStr(key);
    counts := [e1, e2];
    present := dict.HasKeyStr(key);
  }

  /** A sorted sequence mapping two keys holds them smaller key first. */
  lemma TwoEntriesInOrder(es: seq<Entry>, k1: Bytes, v1: Item, k2: Bytes, v2: Item)
    requires Sorted(es) && Less(k1, k2)
    requires ToMap(es) == map[k1 := v1, k2 := v2]
    ensures ValuesOf(es) == [v1, v2]
  {
    var want := [Entry(k1, v1), Entry(k2, v2)];
    LessIrreflexive(k1);
    assert ToMap(want[1..]) == map[k2 := v2];
    assert ToMap(want) == map[k2 := v2, k1 := v1];
    SortedUnique(want, es);
  }

  /**
   * `(*dict)[key] = v`, read back through `operator[]`, then `erase(key)`:
   * the read gives `v` and, for a key that was absent, the dictionary ends
   * as it began.
   */
  method AssignReadErase(dict: BDictionary, key: Bytes, v: Item) returns (read: Item)
    requires dict.Valid() && key !in dict.Map()
    modifies dict
    ensures dict.Valid() && dict.Map() == old(dict.Map())
    ensures read == v
  {
    var slot := dict.IndexStr(key);
    dict.SetValueStr(key, v);
    read := dict.IndexStr(key);
    var erased := dict.EraseStr(key);
    assert dict.Map() == old(dict.Map())[key := v] - {key};
  }

  /**
   * The dictionary half of the demo: "key2" and "key3" filled through
   * setDefault, "key4" assigned through operator[], read back and erased,
   * then values() lists both stored strings in key order,
   * getValue<BString> finds the stored string, and getValue with a default
   * on a missing key yields the default.
   */
  method LookupDemo(key2: Bytes, key3: Bytes, key4: Bytes, key20: Bytes,
                    value2: Bytes, value3: Bytes, value4: Bytes, empty: Bytes)
    returns (stored4: Item, listed: seq<Item>, found: Item, fallback: Item)
    requires Less(key2, key3) && key4 != key2 && key4 != key3
    requires key20 != key2 && key20 != key3
    ensures stored4 == Some(Str(value4))
    ensures listed == [Some(Str(value2)), Some(Str(value3))]
    ensures found == Some(Str(value2))
    ensures fallback == Some(Str(empty))
  {
    var dict := new BDictionary.Create();
    var deft := dict.SetDefaultStr(key2, Some(Str(value2)));
    deft := dict.SetDefaultStr(key2, Some(Str(value2)));
    deft := dict.SetDefaultStr(key3, Some(Str(value3)));
    assert key4 !in dict.Map();
    stored4 := AssignReadErase(dict, key4, Some(Str(value4)));
    LessIrreflexive(key2);
    assert dict.Map() == map[key2 := Some(Str(value2)), key3 := Some(Str(value3))];
    var mx := dict.Values();
    listed := mx.Items();
    TwoEntriesInOrder(dict.entries, key2, Some(Str(value2)), key3, Some(Str(value3)));
    found := dict.GetValueStr(key2, StringKind);
    fallback := dict.GetValueOrStr(key20, StringKind, Some(Str(empty)));
  }

  /**
   * value() hands out the list's own vector: a change made through the
   * handle it returns is a change to the list.
   */
  method ValueAliasesList(a: Value, b: Value) returns (items: seq<Item>)
    ensures items == [Some(b)]
  {
    var list := new BList.CreateFrom([Some(a)]);
    var vec := list.Value();
    vec.elems := [Some(b)];
    items := list.Items();
  }

  /**
   * A buffer handle read from a string keeps the old bytes after
   * setValue(std::string), while a string made from a caller's buffer sees
   * every later change to that buffer.
   */
  method BufferSharing(s1: Bytes, s2: Bytes)
    returns (detached: Bytes, current: Bytes, length: int, adopted: Bytes)
    ensures detached == s1 && current == s2 && length == |s2|
    ensures adopted == s2
  {
    var str := new BString.FromString(s1);
    var handle := str.Value();
    str.SetValue(s2);
    detached := handle.content;
    current := str.Content();
    length := str.Length();

    var buf := new StringBuffer(s1);
    var shared := new BString.FromBuffer(buf);
    buf.content := s2;
    adopted := shared.Content();
  }

  /**
   * Two distinct key handles with equal content address one entry: a value
   * set through one is found through the other.
   */
  method SameContentSameEntry(content: Bytes, v: Value) returns (size: nat, found: Item)
    ensures size == 1
    ensures found == Some(v)
  {
    var dict := new BDictionary.Create();
    var k1 := new BString.FromString(content);
    var k2 := new BString.FromString(content);
    dict.SetValue(k1, Some(v));
    dict.SetValue(k2, Some(v));
    size := dict.Size();
    found := dict.GetValue(k2, KindOf(v));
  }
}
