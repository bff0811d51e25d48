/**
 * `array_t` of ass2-a.c: the same growable pointer array as `list_t`, with
 * a growth factor of 1.618 and its own `array_remove`.
 */
module PtrArray {
  import opened Wrappers
  import opened Placement

  /**
   * The new size `ceil(size * GROWTH_MUL)` with GROWTH_MUL = 1.618, computed
   * on the exact rational 1618/1000; it always exceeds the old size.
   */
  function Grown(size: int): (r: int)
    requires size >= 1
    ensures r > size
  {
    (size * 1618 + 999) / 1000
  }

  /**
   * The slot `array_remove` reads for an index that passed its range check:
   * the test is written `index < -1`, so index -1 yields slot -1.
   */
  function RemoveSlot(count: int, index: int): int
  {
    if index < -1 then count - 1 else index
  }

  /** Index -1 passes the range check of `array_remove` and then selects slot -1, before the buffer. */
  lemma RemoveLastReadsBeforeBuffer(count: int)
    requires count > 0
    ensures !(count == 0 || -1 < -1 || -1 >= count)
    ensures RemoveSlot(count, -1) < 0
  {
  }

  class DynArray<T> {
    var items: array<Option<T>>
    var count: int
    var size: int
    ghost var Contents: seq<T>
    ghost var Repr: set<object>

    /** The object invariant; `count < size` keeps the slot `items[count]` in bounds. */
    ghost predicate Valid()
      reads this, Repr
    {
      Repr == {this, items} &&
      items.Length == size && 0 <= count < size && |Contents| == count &&
      forall k :: 0 <= k < count ==> items[k] == Some(Contents[k])
    }

    /** `array_new`: an empty array with room for `initial` items (at least one). */
    constructor (initial: nat)
      ensures Valid() && fresh(Repr)
      ensures Contents == []
      ensures size == if initial > 0 then initial else 1
    {
      size := if initial > 0 then initial else 1;
      items := new Option<T>[if initial > 0 then initial else 1](_ => None);
      count := 0;
      Contents := [];
      Repr := {this, items};
    }

    /**
     * `array_insert`: grows the buffer when the new count reaches the size,
     * then shifts the tail up and stores the item at `InsertSlot(count, index)`.
     */
    method Insert(item: T, index: int)
      requires Valid()
      modifies Repr
      ensures Valid() && fresh(Repr - old(Repr))
      ensures Contents == Inserted(old(Contents), item, index)
      ensures size == if old(count) + 1 >= old(size) then Grown(old(size)) else old(size)
    {
      ghost var s := Contents;
      var i := count;
      GrowFor(count + 1);
      count := count + 1;
      var buf := items;
      assert buf in old(Repr) || fresh(buf);
      assert |s| < buf.Length;
      if 0 <= index < count {
        while i > index + 1
          modifies buf
          invariant InsertSlot(|s|, index) <= i <= |s|
          invariant forall k :: 0 <= k < i ==> items[k] == Some(s[k])
          invariant forall k :: i < k <= |s| ==> items[k] == Some(s[k - 1])
        {
          items[i] := items[i - 1];
          i := i - 1;
        }
      }
      items[i] := Some(item);
      InsertedElements(s, item, index);
      Contents := Inserted(s, item, index);
    }

    /** The reallocation step of `array_insert`: the size becomes `Grown(size)` when the new count reaches it. */
    method GrowFor(newCount: int)
      requires Valid() && newCount == count + 1
      modifies this
      ensures Repr == {this, items} && (items == old(items) || fresh(items))
      ensures count == old(count) && Contents == old(Contents)
      ensures size == if newCount >= old(size) then Grown(old(size)) else old(size)
      ensures items.Length == size && newCount < size
      ensures forall k :: 0 <= k < count ==> items[k] == Some(Contents[k])
    {
      if newCount >= size {
        size := Grown(size);
        var grown := new Option<T>[size](_ => None);
        forall k | 0 <= k < items.Length {
          grown[k] := items[k];
        }
        items := grown;
        Repr := {this, items};
      }
    }

    /**
     * `array_remove` for every index but -1 on a non-empty array (there the
     * code reads `items[-1]`): NULL and no change for an empty array or an
     * index outside the items; otherwise the item at `index` is returned, the
     * later items move down and the vacated slot is set to NULL.
     */
    method Remove(index: int) returns (r: Option<T>)
      requires Valid()
      requires index == -1 ==> count == 0
      modifies Repr
      ensures Valid() && Repr == old(Repr)
      ensures old(count) == 0 || index < -1 || index >= old(count) ==>
                r == None && Contents == old(Contents)
      ensures !(old(count) == 0 || index < -1 || index >= old(count)) ==>
                r == Some(old(Contents)[index]) &&
                Contents == Removed(old(Contents), index) &&
                items[count] == None
    {
      if count == 0 || index < -1 || index >= count {
        return None;
      }
      assert 0 <= index < count && RemoveSlot(count, index) == index;
      ghost var s := Contents;
      ghost var before := items[..];
      var buf := items;
      var i := RemoveSlot(count, index);
      var item := items[i];
      if i != count - 1 {
        i := index;
        while i >= 0 && i < count
          modifies buf
          invariant index <= i <= count
          invariant forall k :: 0 <= k < index ==> items[k] == before[k]
          invariant forall k :: index <= k < i ==> items[k] == before[k + 1]
          invariant forall k :: i <= k < items.Length ==> items[k] == before[k]
          decreases count - i
        {
          items[i] := items[i + 1];
          i := i + 1;
        }
      }
      ghost var rest := Removed(s, index);
      assert forall k :: 0 <= k < |rest| ==> items[k] == Some(rest[k]);
      count := count - 1;
      items[count] := None;
      Contents := rest;
      r := item;
    }
  }
}
