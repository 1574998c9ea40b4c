/**
 * Concrete runs of the queue, after the unit tests of
 * priority_queue/src/tests/mod.rs, on a queue of five slots.
 */
module PriorityQueueScenarios {
  import opened Wrappers
  import opened NodeSlot
  import Arena
  import opened PopScan
  import opened PriorityQueue

  /** `insert` on a queue with room, seen through the lists alone. */
  method Push(q: PriorityQueue, v: int)
    requires q.Valid() && q.MinIsLeast() && |q.live| < q.data.Length
    modifies q, q.data
    ensures q.Valid() && q.MinIsLeast()
    ensures q.Values() == old(q.Values()) + [v]
    ensures q.live == old(q.live) + [old(q.freeList)[0]] && q.freeList == old(q.freeList)[1..]
  {
    var r := q.Insert(v);
  }

  /** A fresh queue of five slots after inserting a: slot 0. */
  method Filled1(a: int) returns (q: PriorityQueue)
    ensures fresh(q) && fresh(q.data) && q.data.Length == 5 && q.Valid() && q.MinIsLeast()
    ensures q.Values() == [a] && q.live == [0] && q.freeList == [1, 2, 3, 4]
  {
    q := new PriorityQueue(5);
    assert q.freeList == [0, 1, 2, 3, 4];
    Push(q, a);
  }

  /** The same after inserting a and b: slots 0 and 1. */
  method Filled2(a: int, b: int) returns (q: PriorityQueue)
    ensures fresh(q) && fresh(q.data) && q.data.Length == 5 && q.Valid() && q.MinIsLeast()
    ensures q.Values() == [a, b] && q.live == [0, 1] && q.freeList == [2, 3, 4]
  {
    q := Filled1(a);
    Push(q, b);
  }

  /** The same after inserting a, b and c: slots 0, 1 and 2. */
  method Filled(a: int, b: int, c: int) returns (q: PriorityQueue)
    ensures fresh(q) && fresh(q.data) && q.data.Length == 5 && q.Valid() && q.MinIsLeast()
    ensures q.Values() == [a, b, c] && q.live == [0, 1, 2] && q.freeList == [3, 4]
  {
    q := Filled2(a, b);
    Push(q, c);
  }

  /**
   * After 1, 5 and 3, `pop` as written returns 1 and leaves the cached
   * minimum on 5 although 3 is still queued.
   */
  method StaleMinAsWritten() returns (popped: Option<int>, min: Option<int>)
    ensures popped == Some(1) && min == Some(5)
  {
    var q := Filled(1, 5, 3);
    assert Select([1, 5, 3]) == Cursor(0, 1, 0);
    popped := q.PopAsWritten();
    min := q.Min();
  }

  /** The same run with the corrected `pop`: the cached minimum moves to 3. */
  method StaleMin() returns (popped: Option<int>, min: Option<int>)
    ensures popped == Some(1) && min == Some(3)
  {
    var q := Filled(1, 5, 3);
    popped := q.Pop();
    assert q.Values() == [5, 3];
    min := q.Min();
  }

  /** The `reinsert` set-up: 100, 200 and 300 inserted, then three pops. */
  method Drained1() returns (q: PriorityQueue, popped: Option<int>)
    ensures fresh(q) && fresh(q.data) && q.data.Length == 5 && q.Valid() && q.MinIsLeast()
    ensures popped == Some(100)
    ensures q.Values() == [200, 300] && q.live == [1, 2] && q.freeList == [0, 3, 4]
  {
    q := Filled(100, 200, 300);
    assert Victim([100, 200, 300]) == 0;
    popped := q.Pop();
  }

  method Drained2() returns (q: PriorityQueue, popped: Option<int>)
    ensures fresh(q) && fresh(q.data) && q.data.Length == 5 && q.Valid() && q.MinIsLeast()
    ensures popped == Some(200)
    ensures q.Values() == [300] && q.live == [2] && q.freeList == [1, 0, 3, 4]
  {
    q, popped := Drained1();
    assert Victim([200, 300]) == 0;
    popped := q.Pop();
  }

  /** Empty again, with the free list starting at slot 2, not slot 0. */
  method Drained() returns (q: PriorityQueue, popped: Option<int>)
    ensures fresh(q) && fresh(q.data) && q.data.Length == 5 && q.Valid() && q.MinIsLeast()
    ensures popped == Some(300)
    ensures q.live == [] && q.freeList == [2, 1, 0, 3, 4]
    ensures q.headPtr == None && q.minPtr == None && q.freePtr == Some(2)
  {
    q, popped := Drained2();
    popped := q.Pop();
  }

  /** The corrected `insert` of 200: head, tail and minimum on slot 2. */
  method Reinsert1() returns (q: PriorityQueue)
    ensures fresh(q) && fresh(q.data) && q.data.Length == 5 && q.Valid() && q.MinIsLeast()
    ensures q.Values() == [200] && q.live == [2] && q.freeList == [1, 0, 3, 4]
    ensures q.headPtr == Some(2) && q.minPtr == Some(2) && q.tailPtr == Some(2)
  {
    var popped;
    q, popped := Drained();
    var r := q.Insert(200);
  }

  method Reinsert2() returns (q: PriorityQueue)
    ensures fresh(q) && fresh(q.data) && q.data.Length == 5 && q.Valid() && q.MinIsLeast()
    ensures q.Values() == [200, 100] && q.live == [2, 1] && q.freeList == [0, 3, 4]
    ensures q.minPtr == Some(1)
  {
    q := Reinsert1();
    var r := q.Insert(100);
  }

  /** 100 and 300 follow: head still slot 2, minimum slot 1, tail slot 0. */
  method Reinsert3() returns (q: PriorityQueue)
    ensures fresh(q) && fresh(q.data) && q.data.Length == 5 && q.Valid() && q.MinIsLeast()
    ensures q.Values() == [200, 100, 300] && q.live == [2, 1, 0] && q.freeList == [3, 4]
    ensures q.headPtr == Some(2) && q.minPtr == Some(1) && q.tailPtr == Some(0)
  {
    q := Reinsert2();
    var r := q.Insert(300);
  }

  method Repop1() returns (q: PriorityQueue, popped: Option<int>)
    ensures fresh(q) && fresh(q.data) && q.data.Length == 5 && q.Valid() && q.MinIsLeast()
    ensures popped == Some(100)
    ensures q.Values() == [200, 300] && q.live == [2, 0] && q.freeList == [1, 3, 4]
  {
    q := Reinsert3();
    assert Victim([200, 100, 300]) == 1;
    popped := q.Pop();
  }

  method Repop2() returns (q: PriorityQueue, popped: Option<int>)
    ensures fresh(q) && fresh(q.data) && q.data.Length == 5 && q.Valid() && q.MinIsLeast()
    ensures popped == Some(200)
    ensures q.Values() == [300] && q.live == [0] && q.freeList == [2, 1, 3, 4]
  {
    q, popped := Repop1();
    assert Victim([200, 300]) == 0;
    popped := q.Pop();
  }

  /**
   * The `reinsert` test with the corrected `insert`: after the queue has
   * been emptied with slot 2 first on the free list, 200, 100 and 300 come
   * back out as 100, 200, 300, and the free list ends at slot 0.
   */
  method Reinsert() returns (popped: Option<int>, head: Option<NodePtr>, free: Option<NodePtr>)
    ensures popped == Some(300) && head == None && free == Some(0)
  {
    var q;
    q, popped := Repop2();
    popped := q.Pop();
    head, free := q.headPtr, q.freePtr;
  }

  /** `insert` as written of 200 on the drained queue: slot 2 is taken off
    * the free list, but head, tail and minimum are set to slot 0, and 200
    * is written into slot 0. */
  method ReinsertAsWritten1() returns (q: PriorityQueue)
    ensures fresh(q) && fresh(q.data) && q.data.Length == 5 && q.Indexed()
    ensures q.headPtr == Some(0) && q.tailPtr == Some(0) && q.minPtr == Some(0) && q.freePtr == Some(1)
    ensures q.data[0] == New(200, None) && q.data[1].next == Some(0)
  {
    var popped;
    q, popped := Drained();
    assert Arena.LinkedAt(q.data[..], q.freeList, 1);
    assert q.data[1] == q.data[..][1];
    assert Arena.LinkedAt(q.data[..], q.freeList, 0);
    q.ValidIndexed();
    var r := q.InsertAsWritten(200);
  }

  /** 100 as written: slot 1 is linked after slot 0, and the free pointer
    * moves on to slot 0, which holds 200. */
  method ReinsertAsWritten2() returns (q: PriorityQueue)
    ensures fresh(q) && fresh(q.data) && q.data.Length == 5 && q.Indexed()
    ensures q.headPtr == Some(0) && q.tailPtr == Some(1) && q.minPtr == Some(1) && q.freePtr == Some(0)
    ensures q.data[0] == New(200, Some(1)) && q.data[1] == New(100, None)
  {
    q := ReinsertAsWritten1();
    var r := q.InsertAsWritten(100);
  }

  /**
   * The `reinsert` test against `insert` as written: after 200, 100 and
   * 300 the head is slot 0 and holds only 300 (200 was overwritten), the
   * cached minimum is slot 1, holding 100, and the free list starts at
   * slot 1, then slot 0: both slots still in use. The test expects the
   * head on slot 2.
   */
  method ReinsertAsWritten() returns (head: Option<NodePtr>, headNode: Node<int>,
                                      min: Option<NodePtr>, free: Option<NodePtr>, freeNode: Node<int>)
    ensures head == Some(0) && headNode == New(300, None)
    ensures min == Some(1) && free == Some(1) && freeNode == New(100, Some(0))
  {
    var q := ReinsertAsWritten2();
    var r := q.InsertAsWritten(300);
    head, headNode, min, free, freeNode := q.headPtr, q.data[0], q.minPtr, q.freePtr, q.data[1];
  }

  /** The `duplicate_values` test: 100, 200, 100; the later 100 goes first. */
  method Duplicates1() returns (q: PriorityQueue, popped: Option<int>, min: Option<int>)
    ensures fresh(q) && fresh(q.data) && q.data.Length == 5 && q.Valid() && q.MinIsLeast()
    ensures popped == Some(100) && min == Some(100)
    ensures q.Values() == [100, 200] && q.live == [0, 1]
  {
    q := Filled(100, 200, 100);
    assert Victim([100, 200, 100]) == 2;
    popped := q.Pop();
    min := q.Min();
  }

  method Duplicates2() returns (q: PriorityQueue, popped: Option<int>, min: Option<int>)
    ensures fresh(q) && fresh(q.data) && q.data.Length == 5 && q.Valid() && q.MinIsLeast()
    ensures popped == Some(100) && min == Some(200)
    ensures q.Values() == [200] && q.live == [1]
  {
    q, popped, min := Duplicates1();
    assert Victim([100, 200]) == 0;
    popped := q.Pop();
    min := q.Min();
  }

  /** The two 100s come out first, each time leaving a least value cached. */
  method DuplicateValues() returns (popped: Option<int>, min: Option<int>, last: Option<int>)
    ensures popped == Some(200) && min == None && last == None
  {
    var q;
    q, popped, min := Duplicates2();
    popped := q.Pop();
    min := q.Min();
    last := q.Pop();
  }
}
