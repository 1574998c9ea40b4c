/**
 * `PriorityQueue<T, N>` of priority_queue/src/lib.rs: a cached-minimum queue
 * over a fixed arena of N slots. `insert` appends at the tail in O(1) and
 * moves the cached minimum only on a strictly smaller value; `pop` makes
 * one pass over the live list to find and unlink a least element.
 *
 * `T` is `int`. The `UnsafeCell` getters and setters and `node_at` /
 * `next_at` / `peek_at` are plain field and array accesses here; a read of
 * a value cell goes through `Node.Read`, which demands an initialised cell.
 */
module PriorityQueue {
  import opened Wrappers
  import opened NodeSlot
  import Arena
  import opened PopScan

  datatype Error = QueueFull

  /** m is no greater than any of vals. */
  ghost predicate IsLeast(m: int, vals: seq<int>) {
    forall i :: 0 <= i < |vals| ==> m <= vals[i]
  }

  /** A value no greater than any other but the one at k is least once k is removed. */
  lemma RunnerUpIsLeast(vals: seq<int>, k: nat, j: nat)
    requires k < |vals| && j < |vals| && j != k
    requires forall i :: 0 <= i < |vals| && i != k ==> vals[j] <= vals[i]
    ensures IsLeast(vals[j], Arena.RemoveAt(vals, k))
  {
    forall i | 0 <= i < |vals| - 1
      ensures vals[j] <= Arena.RemoveAt(vals, k)[i]
    {
      assert Arena.RemoveAt(vals, k)[i] == vals[if i < k then i else i + 1];
    }
  }

  /**
   * One comparison of the pass as written, read off the slots: the node at
   * position c + 1 takes over the candidate exactly when its value is `<=`
   * the candidate's and its slot is not the candidate's.
   */
  lemma TrackStep(vals: seq<int>, L: seq<NodePtr>, c: nat)
    requires |vals| == |L| && Arena.NoDup(L) && c + 1 < |L|
    ensures var st, st' := ScanTo(vals, c), ScanTo(vals, c + 1);
      && st'.min < |L| && st'.second < |L| && st'.pred < |L|
      && (L[st.min] == L[c + 1] <==> st.min == c + 1)
      && st' == if vals[c + 1] <= vals[st.min] && L[st.min] != L[c + 1] then Cursor(c + 1, st.min, c) else st
  {
  }

  /** The same for the corrected pass, whose runner-up also moves. */
  lemma TrackStepFixed(vals: seq<int>, L: seq<NodePtr>, c: nat)
    requires |vals| == |L| && Arena.NoDup(L) && c + 1 < |L|
    ensures var st, st' := ScanToFixed(vals, c), ScanToFixed(vals, c + 1);
      && st'.min < |L| && st'.second < |L| && st'.pred < |L|
      && (L[st.min] == L[c + 1] <==> st.min == c + 1)
      && st' == if vals[c + 1] <= vals[st.min] && L[st.min] != L[c + 1] then Cursor(c + 1, st.min, c)
                else if L[st.min] != L[c + 1] && vals[c + 1] < vals[st.second] then st.(second := c + 1)
                else st
  {
  }

  /**
   * The slots after `insert` as written has allocated slot `at`: a
   * non-empty queue (tail `tail`) links its tail to `at` and fills `at`; an
   * empty one fills slot 0.
   */
  function WrittenAsInsert(slots: seq<Node<int>>, tail: Option<NodePtr>, at: NodePtr, v: int): (r: seq<Node<int>>)
    requires 1 <= |slots| && at < |slots| && (tail.Some? ==> tail.value < |slots|)
    ensures |r| == |slots| && r[if tail.Some? then at else 0] == New(v, None)
    ensures tail.Some? && tail.value != at ==> r[tail.value] == slots[tail.value].(next := Some(at))
    ensures tail.None? && at != 0 ==> r[at] == slots[at]
    ensures forall y :: 0 <= y < |slots| && y != (if tail.Some? then at else 0) && (tail.None? || y != tail.value) ==>
      r[y] == slots[y]
  {
    var linked := if tail.Some? then slots[tail.value := slots[tail.value].(next := Some(at))] else slots;
    linked[if tail.Some? then at else 0 := New(v, None)]
  }

  /**
   * `insert` as written does what the corrected one does when the queue is
   * not empty, or when the slot it allocates is slot 0.
   */
  lemma AsWrittenAppends(slots: seq<Node<int>>, L: seq<NodePtr>, F: seq<NodePtr>, v: int)
    requires Arena.Valid(slots, L, F) && F != [] && (L != [] || F[0] == 0)
    ensures 1 <= |slots| && F[0] < |slots| && (L != [] ==> Arena.Last(L).value < |slots|)
    ensures WrittenAsInsert(slots, Arena.Last(L), F[0], v) == Arena.Appended(slots, L, F, v)
  {
    assert F[0] in F;
    if L != [] {
      assert Arena.Last(L).value == L[|L| - 1];
    }
  }

  /**
   * When the queue is empty and the free list does not start at slot 0,
   * `insert` as written of v writes slot 0, which becomes the head, while
   * the walk from the new free pointer `F[1]` along the written slots
   * still reaches slot 0; the slot it took off the free list, `F[0]`, is
   * left untouched and is on neither list.
   */
  lemma AsWrittenShares(slots: seq<Node<int>>, L: seq<NodePtr>, F: seq<NodePtr>, v: int)
    requires Arena.Valid(slots, L, F) && L == [] && F != [] && F[0] != 0
    ensures 1 <= |slots| && F[0] < |slots|
    ensures WrittenAsInsert(slots, None, F[0], v)[0] == New(v, None)
    ensures WrittenAsInsert(slots, None, F[0], v)[F[0]] == slots[F[0]] && F[0] !in F[1..]
    ensures exists i :: 1 <= i < |F| && F[i] == 0 &&
                        forall j :: 1 <= j < i ==> WrittenAsInsert(slots, None, F[0], v)[F[j]].next == Some(F[j + 1])
  {
    assert F[0] in F;
    var y: NodePtr := 0;
    assert y in F;
    var i :| 0 <= i < |F| && F[i] == 0;
    forall j | 0 <= j < |F| - 1
      ensures F[1..][j] != F[0]
    {
      assert F[1..][j] == F[j + 1];
    }
    forall j | 1 <= j < i
      ensures WrittenAsInsert(slots, None, F[0], v)[F[j]].next == Some(F[j + 1])
    {
      assert Arena.LinkedAt(slots, F, j);
    }
  }

  class PriorityQueue {
    const data: array<Node<int>>
    var headPtr: Option<NodePtr>
    var tailPtr: Option<NodePtr>
    var freePtr: Option<NodePtr>
    var minPtr: Option<NodePtr>

    /** The live list from `headPtr` and the free list from `freePtr`. */
    ghost var live: seq<NodePtr>
    ghost var freeList: seq<NodePtr>

    /** The structural invariant every public operation keeps. */
    ghost predicate Valid()
      reads this, data
    {
      && 1 <= data.Length <= MaxSlots
      && Arena.Valid(data[..], live, freeList)
      && headPtr == Arena.First(live)
      && tailPtr == Arena.Last(live)
      && freePtr == Arena.First(freeList)
      && (minPtr.None? <==> live == [])
      && (minPtr.Some? ==> minPtr.value in live)
    }

    /** The stored values in list order (insertion order). */
    ghost function Values(): seq<int>
      reads this, data
      requires Valid()
    {
      Arena.ValuesOf(data[..], live)
    }

    /** The cached minimum designates a least stored value. */
    ghost predicate MinIsLeast()
      reads this, data
      requires Valid()
    {
      minPtr.Some? ==> IsLeast(data[minPtr.value].Read(), Values())
    }

    /** `new`: every slot is threaded onto the free list in index order. */
    constructor (n: nat)
      requires 1 <= n <= MaxSlots
      ensures Valid() && fresh(data) && data.Length == n
      ensures live == [] && freeList == Arena.Range(n)
      ensures headPtr == None && tailPtr == None && minPtr == None && freePtr == Some(0)
      ensures MinRef() == None && MinIsLeast()
      ensures forall j :: 0 <= j < n ==> data[j] == NewUninit().(next := if j < n - 1 then Some(j + 1) else None)
    {
      data := new Node<int>[n](_ => NewUninit());
      headPtr, tailPtr, freePtr, minPtr := None, None, Some(0), None;
      live, freeList := [], Arena.Range(n);
      new;
      var i := 0;
      while i < n
        modifies data
        invariant 0 <= i <= n
        invariant forall j :: 0 <= j < n ==> !data[j].Initialized()
        invariant forall j :: 0 <= j < i ==> data[j].next == if j < n - 1 then Some(j + 1) else None
      {
        data[i] := data[i].(next := if i < n - 1 then Some(i + 1) else None);
        i := i + 1;
      }
      Arena.Threaded(data[..]);
    }

    /** `min_ref`: the value at the cached minimum, if any. */
    function MinRef(): (r: Option<int>)
      reads this, data
      requires Valid()
      ensures r.None? <==> live == []
      ensures r.Some? ==> r.value in Values()
      ensures r.Some? && MinIsLeast() ==> forall i :: 0 <= i < |live| ==> r.value <= Values()[i]
    {
      if minPtr.None? then None else Some(data[minPtr.value].Read())
    }

    /** `min`: a copy of the value `min_ref` designates. */
    method Min() returns (r: Option<int>)
      requires Valid()
      ensures r == MinRef()
    {
      r := MinRef();
    }

    /**
     * `insert` with the empty-queue branch linking the slot it allocated
     * (`insert_at`) rather than slot 0.
     */
    method Insert(v: int) returns (r: Result<(), Error>)
      requires Valid()
      modifies this, data
      ensures Valid()
      ensures r.Err? <==> |old(live)| == data.Length
      ensures r.Err? ==> r.error == QueueFull && unchanged(this) && unchanged(data)
      ensures r.Ok? ==>
        var at := old(freeList)[0];
        && live == old(live) + [at]
        && freeList == old(freeList)[1..]
        && data[..] == Arena.Appended(old(data[..]), old(live), old(freeList), v)
        && Values() == old(Values()) + [v]
        && minPtr == (if old(minPtr).None? || v < old(MinRef()).value then Some(at) else old(minPtr))
        && MinRef() == Some(if old(MinRef()).None? || v < old(MinRef()).value then v else old(MinRef()).value)
      ensures old(MinIsLeast()) ==> MinIsLeast()
    {
      if freePtr.None? {
        return Err(QueueFull);
      }
      ghost var slots, L, F := data[..], live, freeList;
      ghost var oldVals, oldMin, oldMinPtr, wasLeast := Values(), MinRef(), minPtr, MinIsLeast();
      var insertAt := freePtr.value;
      assert insertAt == F[0] && insertAt !in L;
      assert Arena.LinkedAt(slots, F, 0);
      freePtr := data[insertAt].next;
      match tailPtr {
        case Some(t) =>
          assert t in L;
          data[t] := data[t].(next := Some(insertAt));
          assert data[..] == slots[t := slots[t].(next := Some(insertAt))];
          tailPtr := Some(insertAt);
          if v < data[minPtr.value].Read() {
            minPtr := Some(insertAt);
          }
        case None =>
          headPtr, tailPtr, minPtr := Some(insertAt), Some(insertAt), Some(insertAt);
      }
      ghost var linked := data[..];
      data[tailPtr.value] := New(v, None);
      assert data[..] == linked[insertAt := New(v, None)];
      assert data[..] == Arena.Appended(slots, L, F, v);
      live, freeList := L + [insertAt], F[1..];
      AppendedValid(slots, L, F, v);
      AppendedMin(slots, L, F, v, oldMinPtr, oldMin, wasLeast);
      r := Ok(());
    }

    /** The invariant once `insert` has appended v: the arena step is `Arena.Append`. */
    lemma AppendedValid(slots: seq<Node<int>>, L: seq<NodePtr>, F: seq<NodePtr>, v: int)
      requires Arena.Valid(slots, L, F) && F != [] && 1 <= data.Length <= MaxSlots && |slots| == data.Length
      requires F[0] < |slots| && (L != [] ==> Arena.Last(L).value < |slots|)
      requires data[..] == Arena.Appended(slots, L, F, v)
      requires live == L + [F[0]] && freeList == F[1..]
      requires headPtr == Arena.First(live) && tailPtr == Some(F[0]) && freePtr == Arena.First(freeList)
      requires minPtr.Some? && minPtr.value in live
      ensures Valid() && Values() == Arena.ValuesOf(slots, L) + [v]
    {
      Arena.Append(slots, L, F, v);
    }

    /** The cached minimum once `insert` has appended v: the smaller of the
      * old minimum and v, the old one winning a tie. */
    lemma AppendedMin(slots: seq<Node<int>>, L: seq<NodePtr>, F: seq<NodePtr>, v: int,
                      oldMinPtr: Option<NodePtr>, oldMin: Option<int>, wasLeast: bool)
      requires Valid() && Arena.Valid(slots, L, F) && F != [] && |slots| == data.Length
      requires F[0] < |slots| && (L != [] ==> Arena.Last(L).value < |slots|)
      requires data[..] == Arena.Appended(slots, L, F, v) && live == L + [F[0]]
      requires oldMinPtr.None? <==> L == []
      requires oldMinPtr.Some? ==> oldMinPtr.value in L && oldMin == Some(slots[oldMinPtr.value].Read())
      requires oldMinPtr.None? ==> oldMin == None
      requires minPtr == if oldMin.None? || v < oldMin.value then Some(F[0]) else oldMinPtr
      requires wasLeast <==> oldMin.Some? ==> IsLeast(oldMin.value, Arena.ValuesOf(slots, L))
      ensures MinRef() == Some(if oldMin.None? || v < oldMin.value then v else oldMin.value)
      ensures wasLeast ==> MinIsLeast()
    {
      Arena.Append(slots, L, F, v);
    }

    /**
     * What the unchecked reads of the source rely on, without the list
     * structure: every pointer and every link names a slot, and a tail
     * comes with a cached minimum whose cell is initialised.
     */
    ghost predicate Indexed()
      reads this, data
    {
      && 1 <= data.Length <= MaxSlots
      && (headPtr.Some? ==> headPtr.value < data.Length)
      && (tailPtr.Some? ==> tailPtr.value < data.Length)
      && (freePtr.Some? ==> freePtr.value < data.Length)
      && (minPtr.Some? ==> minPtr.value < data.Length)
      && (forall y :: 0 <= y < data.Length ==> data[y].next.None? || data[y].next.value < data.Length)
      && (tailPtr.Some? ==> minPtr.Some? && data[minPtr.value].Initialized())
    }

    /** The invariant provides everything the unchecked reads rely on. */
    lemma ValidIndexed()
      requires Valid()
      ensures Indexed()
    {
      Arena.LinksInside(data[..], live, freeList);
      assert forall y :: 0 <= y < data.Length ==> data[..][y] == data[y];
      if tailPtr.Some? {
        assert Arena.LinkedAt(data[..], live, |live| - 1);
      }
      if freePtr.Some? {
        assert Arena.LinkedAt(data[..], freeList, 0);
      }
    }

    /**
     * `insert` as written: on an empty queue the head, tail and minimum are
     * set to slot 0 whatever slot was allocated, and the new node is then
     * written through the tail pointer, into slot 0 (`WrittenAsInsert`).
     */
    method InsertAsWritten(v: int) returns (r: Result<(), Error>)
      requires Indexed()
      modifies this, data
      ensures Indexed()
      ensures r.Err? <==> old(freePtr).None?
      ensures r.Err? ==> r.error == QueueFull && unchanged(this) && unchanged(data)
      ensures r.Ok? ==>
        var at := old(freePtr).value;
        && freePtr == old(data[at].next)
        && headPtr == (if old(tailPtr).Some? then old(headPtr) else Some(0))
        && tailPtr == Some(if old(tailPtr).Some? then at else 0)
        && minPtr == (if old(tailPtr).None? then Some(0)
                      else if v < old(data[minPtr.value].Read()) then Some(at) else old(minPtr))
        && data[..] == WrittenAsInsert(old(data[..]), old(tailPtr), at, v)
      ensures live == old(live) && freeList == old(freeList)
    {
      if freePtr.None? {
        return Err(QueueFull);
      }
      ghost var slots := data[..];
      var insertAt := freePtr.value;
      freePtr := data[insertAt].next;
      match tailPtr {
        case Some(t) =>
          data[t] := data[t].(next := Some(insertAt));
          assert data[..] == slots[t := slots[t].(next := Some(insertAt))];
          tailPtr := Some(insertAt);
          if v < data[minPtr.value].Read() {
            minPtr := Some(insertAt);
          }
        case None =>
          headPtr, tailPtr, minPtr := Some(0), Some(0), Some(0);
      }
      ghost var linked := data[..];
      data[tailPtr.value] := New(v, None);
      assert data[..] == linked[tailPtr.value := New(v, None)];
      r := Ok(());
    }

    /**
     * `insert` as written on a queue that is not empty, or whose free list
     * starts at slot 0, keeps the invariant and appends v, as the corrected
     * `insert` does.
     */
    method InsertAsWrittenAppends(v: int) returns (r: Result<(), Error>)
      requires Valid() && freePtr.Some? && (tailPtr.Some? || freePtr == Some(0))
      modifies this, data
      ensures r.Ok? && Valid()
      ensures live == old(live) + [old(freePtr).value] && freeList == old(freeList)[1..]
      ensures data[..] == Arena.Appended(old(data[..]), old(live), old(freeList), v)
      ensures Values() == old(Values()) + [v]
    {
      ghost var slots, L, F := data[..], live, freeList;
      assert F[0] in F && Arena.LinkedAt(slots, F, 0);
      ValidIndexed();
      r := InsertAsWritten(v);
      AsWrittenAppends(slots, L, F, v);
      Relist(slots, L, F, v);
    }

    /**
     * The live and free lists once a slot taken off the free list has been
     * appended: the structure is again the invariant's.
     */
    ghost method Relist(slots: seq<Node<int>>, L: seq<NodePtr>, F: seq<NodePtr>, v: int)
      requires Arena.Valid(slots, L, F) && F != [] && 1 <= data.Length <= MaxSlots && |slots| == data.Length
      requires F[0] < |slots| && (L != [] ==> Arena.Last(L).value < |slots|)
      requires data[..] == Arena.Appended(slots, L, F, v)
      requires headPtr == Arena.First(L + [F[0]]) && tailPtr == Some(F[0]) && freePtr == Arena.First(F[1..])
      requires minPtr.Some? && (minPtr.value in L || minPtr.value == F[0])
      modifies this
      ensures Valid() && live == L + [F[0]] && freeList == F[1..]
      ensures Values() == Arena.ValuesOf(slots, L) + [v]
      ensures headPtr == old(headPtr) && tailPtr == old(tailPtr) && freePtr == old(freePtr) && minPtr == old(minPtr)
    {
      live, freeList := L + [F[0]], F[1..];
      AppendedValid(slots, L, F, v);
    }

    /**
     * The traversal of `pop` as written, from the seed on the head and its
     * successor to the cursor reaching the tail: the candidate (`m`), the
     * runner-up (`second`), the candidate's predecessor (`pred`) and the
     * node before the tail (`prev`), as slots of the positions `Select`
     * computes on the live values.
     */
    method Scan(ghost L: seq<NodePtr>, head: NodePtr, afterHead: NodePtr)
      returns (m: NodePtr, second: NodePtr, pred: NodePtr, prev: NodePtr)
      requires Arena.Linked(data[..], L) && Arena.Initialized(data[..], L) && Arena.NoDup(L)
      requires 2 <= |L| && head == L[0] && afterHead == L[1]
      ensures var sel := Select(Arena.ValuesOf(data[..], L));
        && sel.min < |L| && sel.second < |L| && sel.pred < |L|
        && m == L[sel.min] && second == L[sel.second] && pred == L[sel.pred]
        && prev == L[|L| - 2]
    {
      ghost var vals := Arena.ValuesOf(data[..], L);
      if data[head].Read() <= data[afterHead].Read() {
        m, second := head, afterHead;
      } else {
        m, second := afterHead, head;
      }
      var cursor := head;
      prev, pred := head, head;
      ghost var c, st := 0, Seed(vals);
      while true
        invariant 0 <= c < |L| && st == ScanTo(vals, c)
        invariant cursor == L[c] && prev == L[if c == 0 then 0 else c - 1]
        invariant st.min < |L| && st.second < |L| && st.pred < |L|
        invariant m == L[st.min] && second == L[st.second] && pred == L[st.pred]
        decreases |L| - c
      {
        assert Arena.LinkedAt(data[..], L, c);
        var next := data[cursor].next;
        if next.None? {
          break;
        }
        var n := next.value;
        assert n == L[c + 1];
        assert vals[c + 1] == data[n].Read() && vals[st.min] == data[m].Read();
        TrackStep(vals, L, c);
        if data[n].Read() <= data[m].Read() && m != n {
          second, m, pred := m, n, cursor;
        }
        prev, cursor := cursor, n;
        c, st := c + 1, ScanTo(vals, c + 1);
      }
    }

    /**
     * The traversal with the runner-up also replaced by a node that beats
     * it without beating the candidate: the positions `SelectFixed`
     * computes.
     */
    method ScanFixed(ghost L: seq<NodePtr>, head: NodePtr, afterHead: NodePtr)
      returns (m: NodePtr, second: NodePtr, pred: NodePtr, prev: NodePtr)
      requires Arena.Linked(data[..], L) && Arena.Initialized(data[..], L) && Arena.NoDup(L)
      requires 2 <= |L| && head == L[0] && afterHead == L[1]
      ensures var sel := SelectFixed(Arena.ValuesOf(data[..], L));
        && sel.min < |L| && sel.second < |L| && sel.pred < |L|
        && m == L[sel.min] && second == L[sel.second] && pred == L[sel.pred]
        && prev == L[|L| - 2]
    {
      ghost var vals := Arena.ValuesOf(data[..], L);
      if data[head].Read() <= data[afterHead].Read() {
        m, second := head, afterHead;
      } else {
        m, second := afterHead, head;
      }
      var cursor := head;
      prev, pred := head, head;
      ghost var c, st := 0, Seed(vals);
      while true
        invariant 0 <= c < |L| && st == ScanToFixed(vals, c)
        invariant cursor == L[c] && prev == L[if c == 0 then 0 else c - 1]
        invariant st.min < |L| && st.second < |L| && st.pred < |L|
        invariant m == L[st.min] && second == L[st.second] && pred == L[st.pred]
        decreases |L| - c
      {
        assert Arena.LinkedAt(data[..], L, c);
        var next := data[cursor].next;
        if next.None? {
          break;
        }
        var n := next.value;
        assert n == L[c + 1];
        assert vals[c + 1] == data[n].Read();
        assert vals[st.min] == data[m].Read() && vals[st.second] == data[second].Read();
        TrackStepFixed(vals, L, c);
        if data[n].Read() <= data[m].Read() && m != n {
          second, m, pred := m, n, cursor;
        } else if m != n && data[n].Read() < data[second].Read() {
          second := n;
        }
        prev, cursor := cursor, n;
        c, st := c + 1, ScanToFixed(vals, c + 1);
      }
    }

    /**
     * The end of `pop`: the value at slot m (position k of the live list)
     * is read, the slot is unlinked (the head moves on, or the predecessor
     * takes over its link), the tail falls back to `prev` if m was the
     * tail, the slot is pushed onto the free list, and the cached minimum
     * becomes `second`.
     */
    method Unlink(ghost k: nat, ghost j: nat, m: NodePtr, pred: NodePtr, prev: NodePtr, second: NodePtr)
      returns (value: int)
      requires Valid() && 2 <= |live| && k < |live| && m == live[k]
      requires k > 0 ==> pred == live[k - 1]
      requires prev == live[|live| - 2]
      requires j < |live| && j != k && second == live[j]
      modifies this, data
      ensures Valid()
      ensures value == old(Values())[k]
      ensures live == Arena.RemoveAt(old(live), k) && freeList == [m] + old(freeList)
      ensures data[..] == Arena.Unlinked(old(data[..]), old(live), old(freeList), k)
      ensures Values() == Arena.RemoveAt(old(Values()), k)
      ensures minPtr == Some(second)
    {
      ghost var slots, L, F := data[..], live, freeList;
      Arena.Unlink(slots, L, F, k);
      assert Arena.LinkedAt(slots, L, k);
      assert k > 0 ==> L[k - 1] != m;
      assert Some(m) == headPtr <==> k == 0;
      assert Some(m) == tailPtr <==> k == |L| - 1;
      value := data[m].Read();
      var nextAfterMin := data[m].next;
      if Some(m) == headPtr {
        headPtr := nextAfterMin;
      } else {
        data[pred] := data[pred].(next := nextAfterMin);
      }
      if Some(m) == tailPtr {
        tailPtr := Some(prev);
      }
      ghost var patched := data[..];
      assert patched == if k == 0 then slots else slots[L[k - 1] := slots[L[k - 1]].(next := Arena.NextOf(L, k))];
      data[m] := data[m].(next := freePtr);
      assert data[..] == patched[m := patched[m].(next := Arena.First(F))];
      freePtr := Some(m);
      minPtr := Some(second);
      live, freeList := Arena.RemoveAt(L, k), [m] + F;
      UnlinkedValid(slots, L, F, k, j);
    }

    /** The invariant once `pop` has unlinked position k: the arena step is `Arena.Unlink`. */
    lemma UnlinkedValid(slots: seq<Node<int>>, L: seq<NodePtr>, F: seq<NodePtr>, k: nat, j: nat)
      requires Arena.Valid(slots, L, F) && 2 <= |L| && k < |L| && j < |L| && j != k
      requires 1 <= data.Length <= MaxSlots && |slots| == data.Length
      requires L[k] < |slots| && (k > 0 ==> L[k - 1] < |slots|)
      requires data[..] == Arena.Unlinked(slots, L, F, k)
      requires live == Arena.RemoveAt(L, k) && freeList == [L[k]] + F
      requires headPtr == if k == 0 then Arena.NextOf(L, 0) else Some(L[0])
      requires tailPtr == if k == |L| - 1 then Some(L[|L| - 2]) else Some(L[|L| - 1])
      requires freePtr == Some(L[k]) && minPtr == Some(L[j])
      ensures Valid() && Values() == Arena.RemoveAt(Arena.ValuesOf(slots, L), k)
    {
      Arena.Unlink(slots, L, F, k);
      assert live[if j < k then j else j - 1] == L[j];
    }

    /** After unlinking position k, a cached minimum at position j that was
      * least among the others is least of what remains. */
    lemma PoppedLeast(slots: seq<Node<int>>, L: seq<NodePtr>, F: seq<NodePtr>, k: nat, j: nat)
      requires Valid() && Arena.Valid(slots, L, F) && k < |L| && j < |L| && j != k
      requires L[k] < |slots| && (k > 0 ==> L[k - 1] < |slots|)
      requires data[..] == Arena.Unlinked(slots, L, F, k) && live == Arena.RemoveAt(L, k)
      requires Values() == Arena.RemoveAt(Arena.ValuesOf(slots, L), k)
      requires minPtr == Some(L[j])
      requires forall i :: 0 <= i < |L| && i != k ==> Arena.ValuesOf(slots, L)[j] <= Arena.ValuesOf(slots, L)[i]
      ensures MinIsLeast()
    {
      var vals := Arena.ValuesOf(slots, L);
      assert data[L[j]].value == slots[L[j]].value;
      RunnerUpIsLeast(vals, k, j);
    }

    /** The single-node case of `pop`: the head is read, pushed onto the
      * free list, and the queue's pointers are cleared. */
    method TakeOnly(head: NodePtr) returns (value: int)
      requires Valid() && live == [head]
      modifies this, data
      ensures Valid() && live == [] && freeList == [head] + old(freeList)
      ensures value == old(Values())[0]
      ensures data[..] == Arena.Unlinked(old(data[..]), old(live), old(freeList), 0)
    {
      ghost var slots, L, F := data[..], live, freeList;
      Arena.Unlink(slots, L, F, 0);
      value := data[head].Read();
      data[head] := data[head].(next := freePtr);
      freePtr := Some(head);
      headPtr, tailPtr, minPtr := None, None, None;
      live, freeList := [], [head] + F;
      assert Arena.RemoveAt(L, 0) == [];
    }

    /**
     * The scan-and-unlink part of `pop` for a queue of two or more nodes:
     * the last least value is unlinked, and the cached minimum becomes the
     * runner-up of the corrected pass.
     */
    method PopLeast(head: NodePtr, afterHead: NodePtr) returns (value: int)
      requires Valid() && 2 <= |live| && head == live[0] && afterHead == live[1]
      modifies this, data
      ensures Valid() && MinIsLeast()
      ensures var k := Victim(old(Values()));
        && value == old(Values())[k]
        && live == Arena.RemoveAt(old(live), k) && freeList == [old(live)[k]] + old(freeList)
        && data[..] == Arena.Unlinked(old(data[..]), old(live), old(freeList), k)
        && Values() == Arena.RemoveAt(old(Values()), k)
      ensures minPtr == Some(old(live)[SelectFixed(old(Values())).second])
    {
      ghost var vals, L := Values(), live;
      var m, second, pred, prev := ScanFixed(live, head, afterHead);
      SelectFixedRunnerUp(vals);
      ghost var sel := SelectFixed(vals);
      assert sel.min > 0 ==> pred == L[sel.min - 1];
      assert Valid();
      assert 2 <= |live| && sel.min < |live| && m == live[sel.min];
      assert prev == live[|live| - 2];
      assert sel.second < |live| && sel.second != sel.min && second == live[sel.second];
      ghost var slots, F := data[..], freeList;
      value := Unlink(sel.min, sel.second, m, pred, prev, second);
      PoppedLeast(slots, L, F, sel.min, sel.second);
    }

    /**
     * `pop`: removes and returns the last least value (`Victim`), leaving
     * the others in order; the cached minimum becomes the runner-up of the
     * corrected pass, a least value of what remains.
     */
    method Pop() returns (r: Option<int>)
      requires Valid()
      modifies this, data
      ensures Valid() && MinIsLeast()
      ensures old(live) == [] ==> r == None && unchanged(this) && unchanged(data)
      ensures old(live) != [] ==>
        var k := Victim(old(Values()));
        && r == Some(old(Values())[k])
        && (forall i :: 0 <= i < |old(live)| ==> r.value <= old(Values())[i])
        && live == Arena.RemoveAt(old(live), k) && freeList == [old(live)[k]] + old(freeList)
        && data[..] == Arena.Unlinked(old(data[..]), old(live), old(freeList), k)
        && Values() == Arena.RemoveAt(old(Values()), k)
      ensures 2 <= |old(live)| ==> minPtr == Some(old(live)[SelectFixed(old(Values())).second])
    {
      if headPtr.None? {
        return None;
      }
      var head := headPtr.value;
      assert Arena.LinkedAt(data[..], live, 0);
      match data[head].next {
        case None =>
          assert live == [head];
          var value := TakeOnly(head);
          r := Some(value);
        case Some(afterHead) =>
          var value := PopLeast(head, afterHead);
          r := Some(value);
      }
    }

    /**
     * `pop` as written: the same removal, but the cached minimum becomes
     * the runner-up of the pass as written, which `StaleRunnerUp` shows
     * need not be a least value of what remains.
     */
    method PopAsWritten() returns (r: Option<int>)
      requires Valid()
      modifies this, data
      ensures Valid()
      ensures old(live) == [] ==> r == None && unchanged(this) && unchanged(data)
      ensures old(live) != [] ==>
        var k := Victim(old(Values()));
        && r == Some(old(Values())[k])
        && live == Arena.RemoveAt(old(live), k) && freeList == [old(live)[k]] + old(freeList)
        && data[..] == Arena.Unlinked(old(data[..]), old(live), old(freeList), k)
        && Values() == Arena.RemoveAt(old(Values()), k)
      ensures 2 <= |old(live)| ==> minPtr == Some(old(live)[Select(old(Values())).second])
    {
      if headPtr.None? {
        return None;
      }
      var head := headPtr.value;
      assert Arena.LinkedAt(data[..], live, 0);
      match data[head].next {
        case None =>
          assert live == [head];
          var value := TakeOnly(head);
          r := Some(value);
        case Some(afterHead) =>
          ghost var vals := Values();
          var m, second, pred, prev := Scan(live, head, afterHead);
          SelectIsLastLeast(vals);
          ghost var sel := Select(vals);
          var value := Unlink(sel.min, sel.second, m, pred, prev, second);
          r := Some(value);
      }
    }
  }
}
