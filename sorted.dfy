/**
 * `Sorted<S, T>` of sort/src/lib.rs: a list kept in ascending order over a
 * fixed arena of S `(value, next)` slots and a free list. `insert` walks
 * from the head and links the new slot before the first strictly greater
 * value; `pop` and `peek` take the head.
 *
 * `T` is `int`; a slot is the `Node` pair of `NodeSlot`, whose value cell
 * must have been written before it is read.
 */
module Sort {
  import opened Wrappers
  import opened NodeSlot
  import Arena

  /** Each value is no greater than any later one. */
  ghost predicate Ascending(s: seq<int>) {
    forall i, j :: 0 <= i < j < |s| ==> s[i] <= s[j]
  }

  /**
   * Where `insert` links v into a list holding vals: before the first
   * value strictly greater than v, or at the end. Every value before that
   * position is `<=` v, so v goes after the values equal to it.
   */
  function Position(vals: seq<int>, v: int): (p: nat)
    ensures p <= |vals|
    ensures forall i :: 0 <= i < p ==> vals[i] <= v
    ensures p < |vals| ==> v < vals[p]
  {
    if vals == [] || v < vals[0] then 0 else 1 + Position(vals[1..], v)
  }

  /** Inserting at `Position` keeps an ascending list ascending. */
  lemma InsertKeepsAscending(vals: seq<int>, v: int)
    requires Ascending(vals)
    ensures Ascending(Arena.InsertAt(vals, Position(vals, v), v))
  {
    var p := Position(vals, v);
    var s := Arena.InsertAt(vals, p, v);
    Arena.InsertAtIndex(vals, p, v);
    forall i, j | 0 <= i < j < |s|
      ensures s[i] <= s[j]
    {
      if i < p && j == p {
        assert s[i] == vals[i];
      } else if i == p && j > p {
        assert s[j] == vals[j - 1] && vals[p] <= vals[j - 1];
      } else if i < p && j > p {
        assert s[i] == vals[i] && s[j] == vals[j - 1];
      }
    }
  }

  /** Removing any entry keeps an ascending list ascending. */
  lemma RemoveKeepsAscending(vals: seq<int>, k: nat)
    requires Ascending(vals) && k < |vals|
    ensures Ascending(Arena.RemoveAt(vals, k))
  {
    var s := Arena.RemoveAt(vals, k);
    forall i, j | 0 <= i < j < |s|
      ensures s[i] <= s[j]
    {
      assert s[i] == vals[if i < k then i else i + 1];
      assert s[j] == vals[if j < k then j else j + 1];
    }
  }

  /** The values after inserting xs one by one into a list holding vals. */
  function InsertAll(vals: seq<int>, xs: seq<int>): seq<int>
    decreases |xs|
  {
    if xs == [] then vals
    else InsertAll(Arena.InsertAt(vals, Position(vals, xs[0]), xs[0]), xs[1..])
  }

  /**
   * Inserting any values into an ascending list gives an ascending list of
   * exactly those values with the old ones: popping the list until it is
   * empty returns everything inserted, in ascending order.
   */
  lemma {:induction false} InsertAllSorts(vals: seq<int>, xs: seq<int>)
    requires Ascending(vals)
    ensures Ascending(InsertAll(vals, xs))
    ensures multiset(InsertAll(vals, xs)) == multiset(vals) + multiset(xs)
    decreases |xs|
  {
    if xs != [] {
      var vals' := Arena.InsertAt(vals, Position(vals, xs[0]), xs[0]);
      InsertKeepsAscending(vals, xs[0]);
      Arena.InsertAtIndex(vals, Position(vals, xs[0]), xs[0]);
      InsertAllSorts(vals', xs[1..]);
      assert xs == [xs[0]] + xs[1..];
    }
  }

  class Sorted {
    const data: array<Node<int>>
    var head: Option<NodePtr>
    var free: Option<NodePtr>

    /** The list from `head` and the free list from `free`. */
    ghost var live: seq<NodePtr>
    ghost var freeList: seq<NodePtr>

    /** The arena invariant, with the values ascending along the list. */
    ghost predicate Valid()
      reads this, data
    {
      && 1 <= data.Length <= MaxSlots
      && Arena.Valid(data[..], live, freeList)
      && head == Arena.First(live)
      && free == Arena.First(freeList)
      && Ascending(Arena.ValuesOf(data[..], live))
    }

    /** The stored values in list order. */
    ghost function Values(): seq<int>
      reads this, data
      requires Valid()
    {
      Arena.ValuesOf(data[..], live)
    }

    /** `new`: slot i links to i + 1 and the last slot to nothing; all are free. */
    constructor (n: nat)
      requires 1 <= n <= MaxSlots
      ensures Valid() && fresh(data) && data.Length == n
      ensures live == [] && freeList == Arena.Range(n)
      ensures head == None && free == Some(0) && Peek() == None
      ensures forall j :: 0 <= j < n ==> data[j] == NewUninit().(next := if j < n - 1 then Some(j + 1) else None)
    {
      data := new Node<int>[n](_ => NewUninit());
      head, free := None, Some(0);
      live, freeList := [], Arena.Range(n);
      new;
      for i := 0 to n
        modifies data
        invariant forall j :: 0 <= j < n ==> !data[j].Initialized()
        invariant forall j :: 0 <= j < i ==> data[j].next == if j < n - 1 then Some(j + 1) else None
      {
        data[i] := data[i].(next := if i < n - 1 then Some(i + 1) else None);
      }
      Arena.Threaded(data[..]);
    }

    /** `peek_at`: the value in a written slot. */
    function PeekAt(index: NodePtr): int
      reads data
      requires index < data.Length && data[index].Initialized()
    {
      data[index].Read()
    }

    /** `peek`: the head value, a least one, or `None` on an empty list. */
    function Peek(): (r: Option<int>)
      reads this, data
      requires Valid()
      ensures r.None? <==> live == []
      ensures r.Some? ==> r.value == Values()[0]
      ensures r.Some? ==> forall i :: 0 <= i < |live| ==> r.value <= Values()[i]
    {
      if head.Some? then Some(PeekAt(head.value)) else None
    }

    /** `pop`: the head value comes off, and its slot goes onto the front of the free list. */
    method Pop() returns (r: Option<int>)
      requires Valid()
      modifies this, data
      ensures Valid()
      ensures old(live) == [] ==> r == None && unchanged(this) && unchanged(data)
      ensures old(live) != [] ==>
        && r == Some(old(Values())[0])
        && live == old(live)[1..] && freeList == [old(live)[0]] + old(freeList)
        && data[..] == Arena.Unlinked(old(data[..]), old(live), old(freeList), 0)
        && Values() == old(Values())[1..]
      ensures r.Some? ==> forall i :: 0 <= i < |old(live)| ==> r.value <= old(Values())[i]
    {
      if head.None? {
        return None;
      }
      var i := head.value;
      ghost var slots, L, F := data[..], live, freeList;
      Arena.Unlink(slots, L, F, 0);
      var slot := data[i];
      head := slot.next;
      data[i] := data[i].(next := free);
      free := Some(i);
      assert Arena.LinkedAt(slots, L, 0);
      assert data[..] == Arena.Unlinked(slots, L, F, 0);
      live, freeList := Arena.RemoveAt(L, 0), [i] + F;
      assert Arena.RemoveAt(L, 0) == L[1..];
      assert Arena.RemoveAt(Arena.ValuesOf(slots, L), 0) == Arena.ValuesOf(slots, L)[1..];
      RemoveKeepsAscending(Arena.ValuesOf(slots, L), 0);
      r := Some(slot.Read());
    }

    /**
     * `insert_first`: the free-list head is taken, written with the value
     * and linked to `next` (the old head), and becomes the head.
     */
    method InsertFirst(value: int, freeIndex: NodePtr, next: Option<NodePtr>)
      requires Valid() && free == Some(freeIndex) && next == head && Position(Values(), value) == 0
      modifies this, data
      ensures Valid()
      ensures live == Arena.InsertAt(old(live), 0, freeIndex) && freeList == old(freeList)[1..]
      ensures data[..] == Arena.Inserted(old(data[..]), old(live), old(freeList), 0, value)
      ensures Values() == Arena.InsertAt(old(Values()), 0, value)
    {
      ghost var slots, L, F := data[..], live, freeList;
      assert freeIndex == F[0] && Arena.LinkedAt(slots, F, 0);
      Arena.InsertInto(slots, L, F, 0, value);
      free := data[freeIndex].next;
      data[freeIndex] := New(value, next);
      head := Some(freeIndex);
      assert data[..] == Arena.Inserted(slots, L, F, 0, value);
      live, freeList := Arena.InsertAt(L, 0, freeIndex), F[1..];
      InsertKeepsAscending(Arena.ValuesOf(slots, L), value);
    }

    /**
     * `insert_at`: the free-list head is taken, written with the value and
     * linked to `next`, and the slot `prevIndex` (position p - 1) now links
     * to it.
     */
    method InsertAt(value: int, prevIndex: NodePtr, freeIndex: NodePtr, next: Option<NodePtr>, ghost p: nat)
      returns (r: Result<(), ()>)
      requires Valid() && free == Some(freeIndex)
      requires 1 <= p <= |live| && prevIndex == live[p - 1] && next == Arena.NextOf(live, p - 1)
      requires p == Position(Values(), value)
      modifies this, data
      ensures r == Ok(()) && Valid()
      ensures live == Arena.InsertAt(old(live), p, freeIndex) && freeList == old(freeList)[1..]
      ensures data[..] == Arena.Inserted(old(data[..]), old(live), old(freeList), p, value)
      ensures Values() == Arena.InsertAt(old(Values()), p, value)
    {
      ghost var slots, L, F := data[..], live, freeList;
      assert freeIndex == F[0] && Arena.LinkedAt(slots, F, 0);
      Arena.InsertInto(slots, L, F, p, value);
      assert prevIndex in L && freeIndex in F;
      free := data[freeIndex].next;
      data[freeIndex] := New(value, next);
      ghost var written := data[..];
      assert written == slots[freeIndex := New(value, if p < |L| then Some(L[p]) else None)];
      data[prevIndex] := data[prevIndex].(next := Some(freeIndex));
      assert data[..] == written[prevIndex := written[prevIndex].(next := Some(freeIndex))];
      live, freeList := Arena.InsertAt(L, p, freeIndex), F[1..];
      InsertKeepsAscending(Arena.ValuesOf(slots, L), value);
      r := Ok(());
    }

    /**
     * `insert`: fails on a full list; otherwise links the value in at
     * `Position`, so the list stays ascending and gains exactly the value.
     */
    method Insert(value: int) returns (r: Result<(), ()>)
      requires Valid()
      modifies this, data
      ensures Valid()
      ensures r.Err? <==> |old(live)| == data.Length
      ensures r.Err? ==> unchanged(this) && unchanged(data)
      ensures r.Ok? ==>
        var p := Position(old(Values()), value);
        && live == Arena.InsertAt(old(live), p, old(freeList)[0]) && freeList == old(freeList)[1..]
        && data[..] == Arena.Inserted(old(data[..]), old(live), old(freeList), p, value)
        && Values() == Arena.InsertAt(old(Values()), p, value)
    {
      if free.None? {
        return Err(());
      }
      var freeIndex := free.value;
      if head.None? {
        InsertFirst(value, freeIndex, None);
        return Ok(());
      }
      var headIndex := head.value;
      if value < Peek().value {
        InsertFirst(value, freeIndex, Some(headIndex));
        return Ok(());
      }
      ghost var vals, L := Values(), live;
      var prevIndex := headIndex;
      var next: Option<NodePtr>;
      ghost var i := 0;
      while true
        invariant 0 <= i < |L| && prevIndex == L[i] && i < Position(vals, value)
        decreases |L| - i
      {
        assert Arena.LinkedAt(data[..], L, i);
        next := data[prevIndex].next;
        if next.None? {
          break;
        }
        var nextIndex := next.value;
        assert nextIndex == L[i + 1] && vals[i + 1] == data[nextIndex].Read();
        if value < data[nextIndex].Read() {
          break;
        }
        prevIndex, i := nextIndex, i + 1;
      }
      r := InsertAt(value, prevIndex, freeIndex, next, i + 1);
    }
  }
}
