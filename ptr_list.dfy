/**
 * `list_t` of ass2-q.c: a growable array of pointers with a length and an
 * allocated size. Unused slots are `None` (the C NULL); the abstract view is
 * the ghost sequence `Contents`.
 */
module PtrList {
  import opened Wrappers
  import opened Placement

  /** GROWTH_MUL of ass2-q.c. */
  const GROWTH_MUL := 2

  /** The slot `list_remove` reads, for an index that passed its range check. */
  function RemoveSlot(len: int, index: int): int
  {
    if index == -1 then len - 1 else index
  }

  class List<T> {
    var items: array<Option<T>>
    var len: int
    var size: int
    ghost var Contents: seq<T>
    ghost var Repr: set<object>

    /** The object invariant; `len < size` keeps the slot `items[len]` in bounds. */
    ghost predicate Valid()
      reads this, Repr
    {
      Repr == {this, items} &&
      items.Length == size && 0 <= len < size && |Contents| == len &&
      forall k :: 0 <= k < len ==> items[k] == Some(Contents[k])
    }

    /** `new_list`: an empty list with room for `initial` items (at least one). */
    constructor (initial: nat)
      ensures Valid() && fresh(Repr)
      ensures Contents == []
      ensures size == if initial > 0 then initial else 1
    {
      size := if initial > 0 then initial else 1;
      items := new Option<T>[if initial > 0 then initial else 1](_ => None);
      len := 0;
      Contents := [];
      Repr := {this, items};
    }

    /**
     * `list_insert`: grows the buffer when the new length reaches the size,
     * then shifts the tail up and stores the item at `InsertSlot(len, index)`.
     */
    method Insert(item: T, index: int)
      requires Valid()
      modifies Repr
      ensures Valid() && fresh(Repr - old(Repr))
      ensures Contents == Inserted(old(Contents), item, index)
      ensures size == if old(len) + 1 >= old(size) then old(size) * GROWTH_MUL else old(size)
    {
      ghost var s := Contents;
      var i := len;
      GrowFor(len + 1);
      len := len + 1;
      var buf := items;
      assert buf in old(Repr) || fresh(buf);
      assert |s| < buf.Length;
      if 0 <= index < len {
        while i > index + 1
          modifies buf
          invariant InsertSlot(|s|, index) <= i <= |s|
          invariant forall k :: 0 <= k < i ==> items[k] == Some(s[k])
          invariant forall k :: i < k <= |s| ==> items[k] == Some(s[k - 1])
        {
          items[i] := items[i - 1];
          i := i - 1;
        }
      }
      items[i] := Some(item);
      InsertedElements(s, item, index);
      Contents := Inserted(s, item, index);
    }

    /**
     * The reallocation step of `list_insert`: when the length about to be
     * reached is not below the size, the size is multiplied by GROWTH_MUL
     * (1 instead of 0) and the items are copied into the larger buffer.
     */
    method GrowFor(newLen: int)
      requires Valid() && newLen == len + 1
      modifies this
      ensures Repr == {this, items} && (items == old(items) || fresh(items))
      ensures len == old(len) && Contents == old(Contents)
      ensures size == if newLen >= old(size) then old(size) * GROWTH_MUL else old(size)
      ensures items.Length == size && newLen < size
      ensures forall k :: 0 <= k < len ==> items[k] == Some(Contents[k])
    {
      if newLen >= size {
        size := if size > 0 then size * GROWTH_MUL else 1;
        var grown := new Option<T>[size](_ => None);
        forall k | 0 <= k < items.Length {
          grown[k] := items[k];
        }
        items := grown;
        Repr := {this, items};
      }
    }

    /**
     * `list_remove`: NULL and no change for an empty list or an index outside
     * -1 .. len-1; otherwise the item at `RemoveSlot(len, index)` is returned,
     * the later items move down and the vacated slot is set to NULL.
     */
    method Remove(index: int) returns (r: Option<T>)
      requires Valid()
      modifies Repr
      ensures Valid() && Repr == old(Repr)
      ensures old(len) == 0 || index < -1 || index >= old(len) ==>
                r == None && Contents == old(Contents)
      ensures !(old(len) == 0 || index < -1 || index >= old(len)) ==>
                r == Some(old(Contents)[RemoveSlot(old(len), index)]) &&
                Contents == Removed(old(Contents), RemoveSlot(old(len), index)) &&
                items[len] == None
    {
      if len == 0 || index < -1 || index >= len {
        return None;
      }
      ghost var s := Contents;
      ghost var before := items[..];
      var buf := items;
      var i := if index == -1 then len - 1 else index;
      var item := items[i];
      if i != len - 1 {
        i := index;
        while i >= 0 && i < len
          modifies buf
          invariant index <= i <= len
          invariant forall k :: 0 <= k < index ==> items[k] == before[k]
          invariant forall k :: index <= k < i ==> items[k] == before[k + 1]
          invariant forall k :: i <= k < items.Length ==> items[k] == before[k]
          decreases len - i
        {
          items[i] := items[i + 1];
          i := i + 1;
        }
      }
      ghost var rest := Removed(s, RemoveSlot(|s|, index));
      assert forall k :: 0 <= k < |rest| ==> items[k] == Some(rest[k]);
      len := len - 1;
      items[len] := None;
      Contents := rest;
      r := item;
    }

    /** `clear_list`: the buffer is released and length and size drop to 0; the list is not used again. */
    method Clear()
      requires Valid()
      modifies this
      ensures len == 0 && size == 0 && items.Length == 0 && Contents == []
    {
      items := new Option<T>[0];
      len, size := 0, 0;
      Contents := [];
      Repr := {this, items};
    }
  }
}
