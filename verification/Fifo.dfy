// The ring buffer of ev-sdk/utils/containers/sm_fifo.c: one slot is kept empty, so
// that equal cursors mean "empty" and a buffer of length + 1 slots holds `length` items.
// Cursors are cast to uint8_t before they are used, so this is right for at most 256
// slots; a larger ring overwrites items that are still stored.
module Fifo {

  const RING_MAX: nat := 0x100

  /** The cursor after `i` in a ring of `n` slots. */
  function Next(i: nat, n: nat): (j: nat)
    requires i < n
    ensures j == if i + 1 == n then 0 else i + 1
  {
    (i + 1) % n
  }

  /** The slot of a cursor. */
  function Slot(cursor: nat): (s: nat)
    ensures s <= cursor && (cursor < RING_MAX ==> s == cursor)
  {
    cursor % RING_MAX
  }

  /** The number of items between the cursors. */
  function Span(tail: nat, head: nat, n: nat): nat
    requires tail < n && head < n
  {
    if tail <= head then head - tail else n - tail + head
  }

  /** The cursor `i` places after `tail`. */
  function Cursor(tail: nat, i: nat, n: nat): (c: nat)
    requires tail < n && i < n
    ensures c < n
  {
    if tail + i < n then tail + i else tail + i - n
  }

  /** The items between the cursors, oldest first, as reading them one by one gives them. */
  function Contents<T>(buff: seq<T>, tail: nat, head: nat): (items: seq<T>)
    requires tail < |buff| && head < |buff|
    ensures |items| == Span(tail, head, |buff|)
  {
    seq(Span(tail, head, |buff|), i requires 0 <= i < Span(tail, head, |buff|) => buff[Slot(Cursor(tail, i, |buff|))])
  }

  /** The items after `item` has been written at `head`: those in the same slot are overwritten. */
  function Overwritten<T>(items: seq<T>, tail: nat, head: nat, n: nat, item: T): (now: seq<T>)
    requires tail < n && head < n && |items| == Span(tail, head, n)
    ensures |now| == |items|
  {
    seq(|items|, i requires 0 <= i < |items| => if Slot(Cursor(tail, i, n)) == Slot(head) then item else items[i])
  }

  lemma SpanPush(tail: nat, head: nat, n: nat)
    requires tail < n && head < n && Next(head, n) != tail
    ensures Span(tail, Next(head, n), n) == Span(tail, head, n) + 1 < n
    ensures Cursor(tail, Span(tail, head, n), n) == head
  {
    hide Next;
  }

  lemma SpanPop(tail: nat, head: nat, n: nat)
    requires tail < n && head < n && head != tail
    ensures Span(tail, head, n) == Span(Next(tail, n), head, n) + 1
    ensures forall i :: 0 <= i < Span(Next(tail, n), head, n) ==> Cursor(Next(tail, n), i, n) == Cursor(tail, i + 1, n)
  {
    hide Next;
  }

  lemma ContentsPush<T>(buff: seq<T>, tail: nat, head: nat, item: T)
    requires tail < |buff| && head < |buff| && Next(head, |buff|) != tail
    ensures Contents(buff[Slot(head) := item], tail, Next(head, |buff|))
      == Overwritten(Contents(buff, tail, head), tail, head, |buff|, item) + [item]
  {
    hide Next, Slot, Span, Cursor;
    SpanPush(tail, head, |buff|);
  }

  lemma ContentsPop<T>(buff: seq<T>, tail: nat, head: nat)
    requires tail < |buff| && head < |buff| && head != tail
    ensures Contents(buff, tail, head) == [buff[Slot(tail)]] + Contents(buff, Next(tail, |buff|), head)
  {
    hide Next, Slot, Span;
    SpanPop(tail, head, |buff|);
  }

  /** No push into a ring of `n` slots writes to the slot of an item that is stored. */
  ghost predicate PushSafe(n: nat) {
    forall tail: nat, head: nat, i: nat :: tail < n && head < n && Next(head, n) != tail && i < Span(tail, head, n) ==>
      Slot(Cursor(tail, i, n)) != Slot(head)
  }

  /** That holds exactly for rings of at most 256 slots. */
  lemma PushSafeExactly(n: nat)
    ensures PushSafe(n) <==> n <= 256
  {
    if n > RING_MAX {
      assert Next(0, n) != 2 && Span(2, 0, n) == n - 2;
      assert Cursor(2, RING_MAX - 2, n) == RING_MAX && Slot(RING_MAX) == 0 == Slot(0);
    }
  }

  /** In a larger ring, with the cursors 2 and 0, a push is accepted and overwrites the item at cursor 256. */
  lemma RingOverwrites<T>(buff: seq<T>, item: T)
    requires |buff| > RING_MAX && item != buff[0]
    ensures var items := Contents(buff, 2, 0);
      && Next(0, |buff|) != 2 && |items| > RING_MAX - 2 && items[RING_MAX - 2] == buff[0]
      && Contents(buff[Slot(0) := item], 2, Next(0, |buff|))[RING_MAX - 2] == item
  {
    assert Slot(RING_MAX) == 0;
  }

  lemma NothingOverwritten<T>(items: seq<T>, tail: nat, head: nat, n: nat, item: T)
    requires tail < n && head < n && |items| == Span(tail, head, n) && Next(head, n) != tail && n <= RING_MAX
    ensures Overwritten(items, tail, head, n, item) == items
  {
    PushSafeExactly(n);
  }

  class Queue<T(0)> {
    const buff: array<T>
    var head: nat
    var tail: nat
    var count: nat

    ghost predicate Valid()
      reads this
    {
      head < buff.Length && tail < buff.Length && count == Span(tail, head, buff.Length)
    }

    ghost function Items(): seq<T>
      requires Valid()
      reads this, buff
    {
      Contents(buff[..], tail, head)
    }

    ghost function Capacity(): nat
      requires buff.Length >= 1
    {
      buff.Length - 1
    }

    constructor (length: nat)
      ensures Valid() && fresh(buff) && Capacity() == length && Items() == []
    {
      buff := new T[length + 1];
      head, tail, count := 0, 0, 0;
    }

    /** Refuses exactly when `length` items are stored.  An accepted item comes last; in a ring of more than 256 slots
        it may also take the place of a stored one. */
    method Push(item: T) returns (ok: bool)
      requires Valid()
      modifies this, buff
      ensures Valid()
      ensures ok <==> |old(Items())| < Capacity()
      ensures !ok ==> Items() == old(Items())
      ensures ok ==> Items() == Overwritten(old(Items()), old(tail), old(head), buff.Length, item) + [item]
      ensures ok && buff.Length <= 256 ==> Items() == old(Items()) + [item]
    {
      hide Next, Slot, Overwritten, Contents;
      var next := Next(head, buff.Length);
      if next != tail {
        SpanPush(tail, head, buff.Length);
        ContentsPush(buff[..], tail, head, item);
        if buff.Length <= RING_MAX { NothingOverwritten(Items(), tail, head, buff.Length, item); }
        buff[Slot(head)] := item;
        assert buff[..] == old(buff[..])[Slot(head) := item];
        head := next;
        count := count + 1;
        return true;
      }
      return false;
    }

    /** The oldest item, if there is one. */
    method Pop(last: T) returns (ok: bool, item: T)
      requires Valid()
      modifies this
      ensures Valid()
      ensures ok <==> old(Items()) != []
      ensures if ok then [item] + Items() == old(Items()) else Items() == [] && item == last
    {
      hide Next, Slot, Contents;
      item := last;
      if head != tail {
        ContentsPop(buff[..], tail, head);
        SpanPop(tail, head, buff.Length);
        item := buff[Slot(tail)];
        tail := Next(tail, buff.Length);
        count := count - 1;
        return true, item;
      }
      return false, item;
    }
  }
}
