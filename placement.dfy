/**
 * The placement rule shared by `list_insert` (ass2-q.c) and `array_insert`
 * (ass2-a.c), and the deletion performed by `list_remove` / `array_remove`,
 * stated on the abstract contents of the container.
 */
module Placement {

  /**
   * The slot an insertion writes to, as the shifting loop leaves it: for an
   * index inside the old contents the loop stops one place too late, so the
   * item lands at `index + 1`; any other index appends.
   */
  function InsertSlot(len: nat, index: int): (p: nat)
    ensures p <= len
    ensures p == len <==> !(0 <= index < len - 1)
  {
    if 0 <= index < len then index + 1 else len
  }

  /** The contents after an insertion of `x` at `index`, as the code does it. */
  function Inserted<T>(s: seq<T>, x: T, index: int): (r: seq<T>)
    ensures |r| == |s| + 1
  {
    var p := InsertSlot(|s|, index);
    s[..p] + [x] + s[p..]
  }

  /** An insertion adds exactly the one item, wherever it lands. */
  lemma InsertedAddsItem<T>(s: seq<T>, x: T, index: int)
    ensures multiset(Inserted(s, x, index)) == multiset(s) + multiset{x}
  {
    var p := InsertSlot(|s|, index);
    assert s == s[..p] + s[p..];
  }

  /** The contents after removing position `i`. */
  function Removed<T>(s: seq<T>, i: int): (r: seq<T>)
    requires 0 <= i < |s|
    ensures |r| == |s| - 1
    ensures forall k :: 0 <= k < i ==> r[k] == s[k]
    ensures forall k :: i <= k < |r| ==> r[k] == s[k + 1]
  {
    s[..i] + s[i + 1..]
  }

  /** A removal takes out exactly the item at the position. */
  lemma RemovedTakesItem<T>(s: seq<T>, i: int)
    requires 0 <= i < |s|
    ensures multiset(Removed(s, i)) == multiset(s) - multiset{s[i]}
  {
    assert s == s[..i] + [s[i]] + s[i + 1..];
  }

  /** Element-wise view of an insertion, around the insertion slot. */
  lemma InsertedElements<T>(s: seq<T>, x: T, index: int)
    ensures var p := InsertSlot(|s|, index); var r := Inserted(s, x, index);
      (forall k :: 0 <= k < p ==> r[k] == s[k]) && r[p] == x &&
      (forall k :: p < k < |r| ==> r[k] == s[k - 1])
  {
  }

  /** Index -1, or any index at or past the last item, appends. */
  lemma InsertedAppends<T>(s: seq<T>, x: T, index: int)
    requires index < 0 || index >= |s| - 1
    ensures Inserted(s, x, index) == s + [x]
  {
  }

  /**
   * Every insertion keeps the old items in order around the new one:
   * the new item sits at the insertion slot, and deleting that slot gives
   * back the old contents.
   */
  lemma {:induction false} InsertThenRemoveSlot<T>(s: seq<T>, x: T, index: int)
    ensures Inserted(s, x, index)[InsertSlot(|s|, index)] == x
    ensures Removed(Inserted(s, x, index), InsertSlot(|s|, index)) == s
  {
    var p := InsertSlot(|s|, index);
    var r := Inserted(s, x, index);
    assert r == s[..p] + [x] + s[p..];
    assert r[..p] == s[..p];
    assert r[p + 1..] == s[p..];
    assert s[..p] + s[p..] == s;
  }

  /** An insertion at index 0 into non-empty contents lands at position 1, not at the front. */
  lemma InsertAtZeroLandsSecond<T>(s: seq<T>, x: T)
    requires |s| > 0
    ensures Inserted(s, x, 0) == [s[0], x] + s[1..]
  {
  }

  /** Pushing with index -1 and popping with the last position is a stack round trip. */
  lemma StackRoundTrip<T>(s: seq<T>, x: T)
    ensures Inserted(s, x, -1)[|s|] == x
    ensures Removed(Inserted(s, x, -1), |s|) == s
  {
    InsertThenRemoveSlot(s, x, -1);
  }

  /** Appending and removing position 0 is a queue: the front comes out first. */
  lemma QueueStep<T>(s: seq<T>, x: T)
    ensures Inserted(s, x, -1) == s + [x]
    ensures |s| > 0 ==> Removed(s, 0) == s[1..]
  {
  }

  /**
   * The positional insert the containers' comments describe: `x` ends up at
   * `index`, the items from `index` on move up one place.
   */
  function InsertedAt<T>(s: seq<T>, x: T, index: int): (r: seq<T>)
    ensures |r| == |s| + 1
    ensures 0 <= index <= |s| ==> r[index] == x && Removed(r, index) == s
    ensures !(0 <= index <= |s|) ==> r == s + [x]
  {
    if 0 <= index <= |s| then
      var r := s[..index] + [x] + s[index..];
      assert r[..index] == s[..index] && r[index + 1..] == s[index..];
      assert s[..index] + s[index..] == s;
      r
    else
      s + [x]
  }

  /** The as-written rule and the positional insert disagree on every interior index but the last. */
  lemma InsertedMisplacesInterior<T>(s: seq<T>, x: T, index: int)
    requires 0 <= index < |s| - 1
    requires s[index] != x
    ensures Inserted(s, x, index) != InsertedAt(s, x, index)
  {
    assert Inserted(s, x, index)[index] == s[index];
  }
}
