/**
 * Concrete runs of the sorted list, after the unit tests at the end of
 * sort/src/lib.rs, on a list of three slots.
 */
module SortScenarios {
  import opened Wrappers
  import opened NodeSlot
  import opened Sort

  /** A fresh list of three slots after inserting a: slot 0. */
  method Holding1(a: int) returns (s: Sorted)
    ensures fresh(s) && fresh(s.data) && s.data.Length == 3 && s.Valid()
    ensures s.Values() == [a] && s.live == [0] && s.freeList == [1, 2]
    ensures s.head == Some(0) && s.free == Some(1) && s.Peek() == Some(a)
    ensures s.data[0] == New(a, None)
  {
    s := new Sorted(3);
    assert s.freeList == [0, 1, 2];
    var r := s.Insert(a);
  }

  /** `test_insert_first`: 3, then 2 goes in front of it into slot 1. */
  method Descending2() returns (s: Sorted)
    ensures fresh(s) && fresh(s.data) && s.data.Length == 3 && s.Valid()
    ensures s.Values() == [2, 3] && s.live == [1, 0] && s.freeList == [2]
  {
    s := Holding1(3);
    var r := s.Insert(2);
  }

  /** 1 goes in front again, into slot 2: the list is full. */
  method Descending3() returns (s: Sorted)
    ensures fresh(s) && fresh(s.data) && s.data.Length == 3 && s.Valid()
    ensures s.Values() == [1, 2, 3] && s.live == [2, 1, 0] && s.freeList == []
  {
    s := Descending2();
    var r := s.Insert(1);
  }

  /** A fourth insert fails and leaves the list as it was. */
  method DescendingFull() returns (s: Sorted, r: Result<(), ()>)
    ensures fresh(s) && fresh(s.data) && s.data.Length == 3 && s.Valid()
    ensures r.Err?
    ensures s.Values() == [1, 2, 3] && s.live == [2, 1, 0] && s.freeList == []
  {
    s := Descending3();
    r := s.Insert(0);
  }

  method DescendingPop1() returns (s: Sorted, popped: Option<int>)
    ensures fresh(s) && fresh(s.data) && s.data.Length == 3 && s.Valid()
    ensures popped == Some(1)
    ensures s.Values() == [2, 3] && s.live == [1, 0] && s.freeList == [2]
  {
    var r;
    s, r := DescendingFull();
    popped := s.Pop();
  }

  method DescendingPop2() returns (s: Sorted, popped: Option<int>)
    ensures fresh(s) && fresh(s.data) && s.data.Length == 3 && s.Valid()
    ensures popped == Some(2)
    ensures s.Values() == [3] && s.live == [0] && s.freeList == [1, 2]
  {
    s, popped := DescendingPop1();
    popped := s.Pop();
  }

  /** The last pop empties the list, whose free list starts at slot 0 again. */
  method DescendingPop3() returns (s: Sorted, popped: Option<int>)
    ensures fresh(s) && fresh(s.data) && s.data.Length == 3 && s.Valid()
    ensures popped == Some(3)
    ensures s.live == [] && s.freeList == [0, 1, 2] && s.head == None && s.free == Some(0)
  {
    s, popped := DescendingPop2();
    popped := s.Pop();
  }

  /**
   * `test_insert_first`: 3, 2 and 1 come back as 1, 2, 3, a fourth insert
   * fails, and a pop of the emptied list gives nothing.
   */
  method InsertFirstRun() returns (popped: Option<int>, head: Option<NodePtr>,
                                   free: Option<NodePtr>, last: Option<int>)
    ensures popped == Some(3) && head == None && free == Some(0) && last == None
  {
    var s;
    s, popped := DescendingPop3();
    head, free := s.head, s.free;
    last := s.Pop();
  }

  /** `test_insert_middle`: 2, then 4 goes after it into slot 1. */
  method Middle2() returns (s: Sorted)
    ensures fresh(s) && fresh(s.data) && s.data.Length == 3 && s.Valid()
    ensures s.Values() == [2, 4] && s.live == [0, 1] && s.freeList == [2]
    ensures s.Peek() == Some(2)
  {
    s := Holding1(2);
    var r := s.Insert(4);
  }

  /** 3 goes between them, into slot 2. */
  method Middle3() returns (s: Sorted)
    ensures fresh(s) && fresh(s.data) && s.data.Length == 3 && s.Valid()
    ensures s.Values() == [2, 3, 4] && s.live == [0, 2, 1] && s.freeList == []
  {
    s := Middle2();
    var r := s.Insert(3);
  }

  method MiddlePop1() returns (s: Sorted, popped: Option<int>)
    ensures fresh(s) && fresh(s.data) && s.data.Length == 3 && s.Valid()
    ensures popped == Some(2)
    ensures s.Values() == [3, 4] && s.live == [2, 1] && s.freeList == [0]
  {
    s := Middle3();
    popped := s.Pop();
  }

  method MiddlePop2() returns (s: Sorted, popped: Option<int>)
    ensures fresh(s) && fresh(s.data) && s.data.Length == 3 && s.Valid()
    ensures popped == Some(3)
    ensures s.Values() == [4] && s.live == [1] && s.freeList == [2, 0]
  {
    s, popped := MiddlePop1();
    popped := s.Pop();
  }

  /** `test_insert_middle`: 2, 4 and 3 come back as 2, 3, 4. */
  method InsertMiddleRun() returns (popped: Option<int>)
    ensures popped == Some(4)
  {
    var s;
    s, popped := MiddlePop2();
    popped := s.Pop();
  }

  /** 1 then 2 in slots 0 and 1. */
  method Ascending2() returns (s: Sorted)
    ensures fresh(s) && fresh(s.data) && s.data.Length == 3 && s.Valid()
    ensures s.Values() == [1, 2] && s.live == [0, 1] && s.freeList == [2]
    ensures s.data[0] == New(1, Some(1)) && s.data[1] == New(2, None)
  {
    s := Holding1(1);
    var r := s.Insert(2);
  }

  /**
   * 1, 2 and 3 inserted in order give exactly the full list that
   * `test_pop` writes out by hand: slot i holds i + 1 and links to i + 1.
   */
  method PopFixture() returns (s: Sorted)
    ensures fresh(s) && fresh(s.data) && s.data.Length == 3 && s.Valid()
    ensures s.data[..] == [New(1, Some(1)), New(2, Some(2)), New(3, None)]
    ensures s.head == Some(0) && s.free == None
    ensures s.Values() == [1, 2, 3] && s.live == [0, 1, 2] && s.freeList == []
  {
    s := Ascending2();
    var r := s.Insert(3);
  }

  method FixturePop1() returns (s: Sorted, popped: Option<int>)
    ensures fresh(s) && fresh(s.data) && s.data.Length == 3 && s.Valid()
    ensures popped == Some(1)
    ensures s.Values() == [2, 3] && s.live == [1, 2] && s.freeList == [0]
  {
    s := PopFixture();
    popped := s.Pop();
  }

  method FixturePop2() returns (s: Sorted, popped: Option<int>)
    ensures fresh(s) && fresh(s.data) && s.data.Length == 3 && s.Valid()
    ensures popped == Some(2)
    ensures s.Values() == [3] && s.live == [2] && s.freeList == [1, 0]
  {
    s, popped := FixturePop1();
    popped := s.Pop();
  }

  /** `test_pop`: 1, 2, 3 come off in order; the free list then starts at slot 2. */
  method PopRun() returns (popped: Option<int>, head: Option<NodePtr>, free: Option<NodePtr>)
    ensures popped == Some(3) && head == None && free == Some(2)
  {
    var s;
    s, popped := FixturePop2();
    popped := s.Pop();
    head, free := s.head, s.free;
  }
}
