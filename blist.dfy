/**
 * BList: a vector of value handles with precondition-guarded access and
 * Python-style negative-index slicing.
 */
module BLists {
  import opened BValues

  /**
   * A negative slice bound counts from the end: `i < 0` stands for `n + i`.
   * `range` and `range_erase` both normalise their bounds this way.
   */
  function Normalize(i: int, n: nat): (r: int)
    ensures 0 <= i ==> r == i
    ensures i < 0 ==> r < n
    ensures (-(n as int) <= i <= n) <==> (0 <= r <= n)
  {
    if i < 0 then n + i else i
  }

  /** The normalised bounds of `[s, e)` name a slice of a list of length `n`. */
  predicate SliceOk(n: nat, s: int, e: int) {
    0 <= Normalize(s, n) <= Normalize(e, n) <= n
  }

  /** What range(s, e) copies out of `xs`: empty for an empty list, else the normalised slice. */
  function RangeOf(xs: seq<Item>, s: int, e: int): seq<Item>
    requires xs == [] || SliceOk(|xs|, s, e)
  {
    if xs == [] then [] else xs[Normalize(s, |xs|)..Normalize(e, |xs|)]
  }

  /**
   * range_erase(s, e) is safe when the list is empty, when the normalised
   * bounds give nothing to erase, or when every erased position exists.
   */
  predicate EraseOk(n: nat, s: int, e: int) {
    n == 0 || Normalize(e, n) <= Normalize(s, n) || SliceOk(n, s, e)
  }

  /** What range_erase(s, e) leaves of `xs`. */
  function RangeEraseOf(xs: seq<Item>, s: int, e: int): seq<Item>
    requires EraseOk(|xs|, s, e)
  {
    var n := |xs|;
    if n == 0 || Normalize(e, n) <= Normalize(s, n) then xs
    else xs[..Normalize(s, n)] + xs[Normalize(e, n)..]
  }

  /**
   * range(s, e) and range_erase(s, e) cover the same positions: the list is
   * what range_erase keeps with what range copies put back in place.
   */
  lemma RangeAndEraseSplit(xs: seq<Item>, s: int, e: int)
    requires xs != [] && SliceOk(|xs|, s, e)
    ensures var ns, ne := Normalize(s, |xs|), Normalize(e, |xs|);
      && RangeEraseOf(xs, s, e) == xs[..ns] + xs[ne..]
      && xs == xs[..ns] + RangeOf(xs, s, e) + xs[ne..]
    ensures |RangeOf(xs, s, e)| + |RangeEraseOf(xs, s, e)| == |xs|
    ensures multiset(RangeOf(xs, s, e)) + multiset(RangeEraseOf(xs, s, e)) == multiset(xs)
  {
    var ns, ne := Normalize(s, |xs|), Normalize(e, |xs|);
    assert xs == xs[..ns] + xs[ns..ne] + xs[ne..];
    if ne <= ns {
      assert xs[ns..ne] == [];
    }
  }

  /** range(s) is range(s, size()). */
  lemma RangeToEnd(xs: seq<Item>, s: int)
    requires xs != [] && -(|xs| as int) <= s <= |xs|
    ensures SliceOk(|xs|, s, |xs|)
    ensures RangeOf(xs, s, |xs|) == xs[Normalize(s, |xs|)..]
    ensures |RangeOf(xs, s, |xs|)| == if s < 0 then -s else |xs| - s
  {
  }

  /**
   * On eight items, range(0, -1) holds seven, range(-4) holds the last four,
   * and range_erase(-3, -1) leaves six.
   */
  lemma EightItemExamples(xs: seq<Item>)
    requires |xs| == 8
    ensures RangeOf(xs, 0, -1) == xs[..7]
    ensures RangeOf(xs, -4, 8) == xs[4..]
    ensures RangeEraseOf(xs, -3, -1) == xs[..5] + [xs[7]]
  {
    assert Normalize(-1, 8) == 7 && Normalize(-4, 8) == 4 && Normalize(-3, 8) == 5;
    assert RangeOf(xs, 0, -1) == xs[0..7];
    assert RangeOf(xs, -4, 8) == xs[4..8];
    assert xs[7..] == [xs[7]];
  }

  /** The two assertions range(s, e) makes, as written, on its normalised bounds. */
  predicate RangeAssertsHold(n: nat, s: int, e: int) {
    Normalize(s, n) <= n && Normalize(s, n) <= Normalize(e, n)
  }

  /**
   * The assertions of range(s, e) let through bounds outside the list: on
   * eight items, range(0, 9) copies past the end and range(-9, -1) starts
   * before the beginning. SliceOk is the check they evidently stand for.
   */
  lemma RangeAssertsAdmitOutOfBounds()
    ensures RangeAssertsHold(8, 0, 9) && !SliceOk(8, 0, 9)
    ensures RangeAssertsHold(8, -9, -1) && !SliceOk(8, -9, -1)
  {
  }

  /** SliceOk is the two assertions plus exactly the two missing bounds. */
  lemma SliceOkIsAssertsPlusBounds(n: nat, s: int, e: int)
    ensures SliceOk(n, s, e) <==>
      RangeAssertsHold(n, s, e) && 0 <= Normalize(s, n) && Normalize(e, n) <= n
  {
  }

  /** The std::vector of handles a list owns; value() hands out this very object. */
  class ItemVector {
    var elems: seq<Item>

    constructor (xs: seq<Item>)
      ensures elems == xs
    {
      elems := xs;
    }
  }

  class BList {
    /** The owned vector; the reference never changes, its contents do. */
    const itemList: ItemVector

    function Items(): seq<Item>
      reads itemList
    {
      itemList.elems
    }

    /** create(). */
    constructor Create()
      ensures fresh(itemList)
      ensures Items() == []
    {
      itemList := new ItemVector([]);
    }

    /** create(items): the list holds `items` in order. */
    constructor CreateFrom(items: seq<Item>)
      ensures fresh(itemList)
      ensures Items() == items
    {
      itemList := new ItemVector(items);
    }

    /** value(): the underlying vector by reference; changing it changes the list. */
    method Value() returns (v: ItemVector)
      ensures v == itemList
      ensures v.elems == Items()
    {
      v := itemList;
    }

    method Size() returns (n: nat)
      ensures n == |Items()|
    {
      n := |itemList.elems|;
    }

    method Empty() returns (b: bool)
      ensures b <==> Items() == []
    {
      b := |itemList.elems| == 0;
    }

    method Clear()
      modifies itemList
      ensures Items() == []
    {
      itemList.elems := [];
    }

    /** push_back: the handle must not be null. */
    method PushBack(x: Item)
      requires x.Some?
      modifies itemList
      ensures Items() == old(Items()) + [x]
      ensures NoNulls(old(Items())) ==> NoNulls(Items())
    {
      itemList.elems := itemList.elems + [x];
    }

    method PopBack()
      requires Items() != []
      modifies itemList
      ensures Items() == old(Items())[..|old(Items())| - 1]
    {
      itemList.elems := itemList.elems[..|itemList.elems| - 1];
    }

    method Front() returns (x: Item)
      requires Items() != []
      ensures x == Items()[0]
    {
      x := itemList.elems[0];
    }

    method Back() returns (x: Item)
      requires Items() != []
      ensures x == Items()[|Items()| - 1]
    {
      x := itemList.elems[|itemList.elems| - 1];
    }

    /** operator[] read access: bounds-checked by assertion. */
    method At(idx: nat) returns (x: Item)
      requires idx < |Items()|
      ensures x == Items()[idx]
    {
      x := itemList.elems[idx];
    }

    /**
     * getItem<T>: element `idx` narrowed to kind `k`, null on a mismatch.
     * The element is dereferenced, so it must not be null.
     */
    method GetItem(idx: nat, k: Kind) returns (r: Item)
      requires idx < |Items()| && Items()[idx].Some?
      ensures r.Some? <==> KindOf(Items()[idx].value) == k
      ensures r.Some? ==> r == Items()[idx]
    {
      var x := At(idx);
      r := As(x.value, k);
    }

    /**
     * setItem: overwrites one slot through operator[], whose assertion
     * demands `idx < size()`. No null check is made.
     */
    method SetItem(idx: nat, item: Item)
      requires idx < |Items()|
      modifies itemList
      ensures |Items()| == |old(Items())|
      ensures Items()[idx] == item
      ensures forall j :: 0 <= j < |Items()| && j != idx ==> Items()[j] == old(Items())[j]
    {
      itemList.elems := itemList.elems[idx := item];
    }

    /**
     * shuffle: reorders the handles in place. The time-seeded engine is
     * replaced by its sequence of raw draws, which pick the swap partner of
     * each position from the last one down; any permutation can result.
     */
    method Shuffle(draws: seq<nat>)
      modifies itemList
      ensures |Items()| == |old(Items())|
      ensures multiset(Items()) == multiset(old(Items()))
    {
      var i := |itemList.elems|;
      var k := 0;
      while i > 1
        invariant 0 <= i <= |itemList.elems|
        invariant |itemList.elems| == |old(itemList.elems)|
        invariant multiset(itemList.elems) == multiset(old(itemList.elems))
      {
        i := i - 1;
        var d := if k < |draws| then draws[k] else 0;
        var j := d % (i + 1);
        var xs := itemList.elems;
        itemList.elems := xs[i := xs[j]][j := xs[i]];
        k := k + 1;
      }
    }

    /**
     * extend: appends the other list's handles in order; the other list is
     * unchanged. Extending a list with itself is undefined in the source.
     */
    method Extend(other: BList)
      requires other.itemList != itemList
      modifies itemList
      ensures Items() == old(Items()) + old(other.Items())
      ensures other.Items() == old(other.Items())
    {
      itemList.elems := itemList.elems + other.itemList.elems;
    }

    /**
     * range(s, e): a new list with the handles in the normalised half-open
     * slice `[s, e)`; an empty list gives an empty list whatever the bounds.
     */
    method Range(s: int, e: int) returns (r: BList)
      requires Items() == [] || SliceOk(|Items()|, s, e)
      ensures fresh(r) && fresh(r.itemList)
      ensures r.Items() == RangeOf(Items(), s, e)
    {
      var n := |itemList.elems|;
      if n == 0 {
        r := new BList.Create();
        return;
      }
      var si := Normalize(s, n);
      var ei := Normalize(e, n);
      r := new BList.CreateFrom(itemList.elems[si..ei]);
    }

    /** range(s): range(s, size()). */
    method RangeFrom(s: int) returns (r: BList)
      requires Items() == [] || -(|Items()| as int) <= s <= |Items()|
      ensures fresh(r) && fresh(r.itemList)
      ensures r.Items() == RangeOf(Items(), s, |Items()|)
    {
      r := Range(s, |itemList.elems|);
    }

    /**
     * range_erase(s, e): erases `e - s` handles at the normalised position
     * `s`, one at a time; nothing happens on an empty list or when `e <= s`.
     */
    method RangeErase(s: int, e: int)
      requires EraseOk(|Items()|, s, e)
      modifies itemList
      ensures Items() == RangeEraseOf(old(Items()), s, e)
    {
      var n := |itemList.elems|;
      if n == 0 {
        return;
      }
      var si := Normalize(s, n);
      var ei := Normalize(e, n);
      var count := ei - si;
      var i := 0;
      while i < count
        invariant count <= 0 ==> i == 0 && itemList.elems == old(itemList.elems)
        invariant 0 < count ==> 0 <= i <= count
        invariant 0 < count ==> itemList.elems == old(itemList.elems)[..si] + old(itemList.elems)[si + i..]
      {
        itemList.elems := itemList.elems[..si] + itemList.elems[si + 1..];
        i := i + 1;
      }
    }

    /** range_erase(s): range_erase(s, size()). */
    method RangeEraseFrom(s: int)
      requires EraseOk(|Items()|, s, |Items()|)
      modifies itemList
      ensures Items() == RangeEraseOf(old(Items()), s, |old(Items())|)
    {
      RangeErase(s, |itemList.elems|);
    }
  }
}
