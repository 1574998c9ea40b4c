/**
 * The arena + index scheme shared by both engines: a fixed array of slots,
 * and two singly linked lists threaded through the slots' `next` fields,
 * the live list and the free list. The lists are described by ghost
 * sequences of indices, in the order one meets them walking `next` links
 * from the list's first index.
 */
module Arena {
  import opened Wrappers
  import opened NodeSlot

  function First(list: seq<NodePtr>): Option<NodePtr> {
    if list == [] then None else Some(list[0])
  }

  function Last(list: seq<NodePtr>): Option<NodePtr> {
    if list == [] then None else Some(list[|list| - 1])
  }

  /** The link that slot `list[i]` must hold for `list` to be walked in order. */
  function NextOf(list: seq<NodePtr>, i: nat): Option<NodePtr>
    requires i < |list|
  {
    if i + 1 < |list| then Some(list[i + 1]) else None
  }

  /** s without its entry at position k. */
  function RemoveAt<T>(s: seq<T>, k: nat): seq<T>
    requires k < |s|
  {
    seq(|s| - 1, i requires 0 <= i < |s| - 1 => if i < k then s[i] else s[i + 1])
  }

  /** s with x placed at position p, the entries from p on moving up by one. */
  function InsertAt<T>(s: seq<T>, p: nat, x: T): seq<T>
    requires p <= |s|
  {
    seq(|s| + 1, i requires 0 <= i <= |s| => if i < p then s[i] else if i == p then x else s[i - 1])
  }

  /** The indices 0, 1, ..., n - 1 in order. */
  function Range(n: nat): (r: seq<NodePtr>)
    requires n <= MaxSlots
    ensures |r| == n && forall i :: 0 <= i < n ==> r[i] == i
  {
    seq(n, i requires 0 <= i < n => i as NodePtr)
  }

  ghost predicate NoDup(s: seq<NodePtr>) {
    forall i, j :: 0 <= i < j < |s| ==> s[i] != s[j]
  }

  /** Every slot 0..n-1 is on exactly one of the two lists, once. */
  ghost predicate Partition(n: nat, live: seq<NodePtr>, free: seq<NodePtr>) {
    && NoDup(live)
    && NoDup(free)
    && |live| + |free| == n
    && (forall x :: x in live ==> x < n && x !in free)
    && (forall x :: x in free ==> x < n)
    && (forall x: NodePtr :: x < n ==> x in live || x in free)
  }

  /** Walking `next` from `list[0]` visits exactly `list` and then meets `None`. */
  ghost predicate Linked<T>(slots: seq<Node<T>>, list: seq<NodePtr>) {
    && (forall i :: 0 <= i < |list| ==> list[i] < |slots|)
    && (forall i :: 0 <= i < |list| ==> LinkedAt(slots, list, i))
  }

  /**
   * Slot `list[i]` links to the next entry of `list`, or to nothing at the
   * end. (A predicate of its own, so that knowing one link does not bring
   * the next one into view.)
   */
  ghost predicate LinkedAt<T>(slots: seq<Node<T>>, list: seq<NodePtr>, i: nat)
    requires i < |list|
  {
    list[i] < |slots| && slots[list[i]].next == NextOf(list, i)
  }

  /** Every slot on `list` has had its value written. */
  ghost predicate Initialized<T>(slots: seq<Node<T>>, list: seq<NodePtr>) {
    forall i :: 0 <= i < |list| ==> list[i] < |slots| && slots[list[i]].Initialized()
  }

  /** The arena invariant: the two lists partition the slots, both are
    * properly linked and terminated, and every live slot holds a value. */
  ghost predicate Valid<T>(slots: seq<Node<T>>, live: seq<NodePtr>, free: seq<NodePtr>) {
    && Partition(|slots|, live, free)
    && Linked(slots, live)
    && Linked(slots, free)
    && Initialized(slots, live)
  }

  /** The values held along `list`, in list order. */
  ghost function ValuesOf<T>(slots: seq<Node<T>>, list: seq<NodePtr>): (vs: seq<T>)
    requires Initialized(slots, list)
    ensures |vs| == |list|
    ensures forall i :: 0 <= i < |list| ==> vs[i] == slots[list[i]].Read()
  {
    seq(|list|, i requires 0 <= i < |list| => slots[list[i]].Read())
  }

  /**
   * A freshly built arena whose slot i links to i + 1 and whose last slot
   * links to nothing has every slot on the free list, in index order.
   */
  lemma {:induction false} Threaded<T>(slots: seq<Node<T>>)
    requires 1 <= |slots| <= MaxSlots
    requires forall i :: 0 <= i < |slots| ==> slots[i].next == (if i + 1 < |slots| then Some(i + 1) else None)
    ensures Valid(slots, [], Range(|slots|))
  {
    var free := Range(|slots|);
    forall x: NodePtr | x < |slots|
      ensures x in free
    {
      assert free[x] == x;
    }
  }

  lemma InsertAtIndex<T>(s: seq<T>, p: nat, x: T)
    requires p <= |s|
    ensures |InsertAt(s, p, x)| == |s| + 1
    ensures forall i :: 0 <= i < |s| + 1 ==> InsertAt(s, p, x)[i] == if i < p then s[i] else if i == p then x else s[i - 1]
    ensures multiset(InsertAt(s, p, x)) == multiset(s) + multiset{x}
  {
    assert s == s[..p] + s[p..];
    assert InsertAt(s, p, x) == s[..p] + [x] + s[p..];
  }

  lemma RemoveAtIndex<T>(s: seq<T>, k: nat)
    requires k < |s|
    ensures |RemoveAt(s, k)| == |s| - 1
    ensures forall i :: 0 <= i < |s| - 1 ==> RemoveAt(s, k)[i] == if i < k then s[i] else s[i + 1]
    ensures multiset(s) == multiset(RemoveAt(s, k)) + multiset{s[k]}
  {
    assert s == s[..k] + [s[k]] + s[k + 1..];
    assert RemoveAt(s, k) == s[..k] + s[k + 1..];
  }

  /** Moving the free-list head into the live list keeps the partition. */
  lemma {:induction false} PartitionAllocate(n: nat, live: seq<NodePtr>, free: seq<NodePtr>, p: nat)
    requires Partition(n, live, free) && free != [] && p <= |live|
    ensures Partition(n, InsertAt(live, p, free[0]), free[1..])
  {
    var x := free[0];
    var live' := InsertAt(live, p, x);
    var free' := free[1..];
    InsertAtIndex(live, p, x);
    assert x !in live;
    assert forall y :: y in live' <==> y in live || y == x by {
      forall y ensures y in live' <==> y in multiset(live') {}
      forall y ensures y in live <==> y in multiset(live) {}
    }
    assert free == [x] + free';
    forall i, j | 0 <= i < j < |live'|
      ensures live'[i] != live'[j]
    {
      if i == p {
        assert live'[j] in live;
      } else if j == p {
        assert live'[i] in live;
      } else {
        var i0 := if i < p then i else i - 1;
        var j0 := if j < p then j else j - 1;
        assert live[i0] != live[j0];
      }
    }
    forall y | y in free'
      ensures y in free
    {
    }
    forall y: NodePtr | y < n
      ensures y in live' || y in free'
    {
      if y !in live && y != x {
        assert y in free;
      }
    }
  }

  /** Moving live slot k to the front of the free list keeps the partition. */
  lemma {:induction false} PartitionRelease(n: nat, live: seq<NodePtr>, free: seq<NodePtr>, k: nat)
    requires Partition(n, live, free) && k < |live|
    ensures Partition(n, RemoveAt(live, k), [live[k]] + free)
  {
    var x := live[k];
    var live' := RemoveAt(live, k);
    var free' := [x] + free;
    RemoveAtIndex(live, k);
    assert forall y :: y in live <==> y in live' || y == x by {
      forall y ensures y in live' <==> y in multiset(live') {}
      forall y ensures y in live <==> y in multiset(live) {}
    }
    assert x !in live' by {
      forall i | 0 <= i < |live'| ensures live'[i] != x {
        if i < k {
          assert live[i] != live[k];
        } else {
          assert live[k] != live[i + 1];
        }
      }
    }
    forall i, j | 0 <= i < j < |live'|
      ensures live'[i] != live'[j]
    {
      var i0 := if i < k then i else i + 1;
      var j0 := if j < k then j else j + 1;
      assert live[i0] != live[j0];
    }
    forall i, j | 0 <= i < j < |free'|
      ensures free'[i] != free'[j]
    {
      if i == 0 {
        assert free'[j] in free;
      }
    }
  }

  /** Walking a list only reads the links of the slots on it. */
  lemma LinkedFrame<T>(slots: seq<Node<T>>, slots': seq<Node<T>>, list: seq<NodePtr>)
    requires Linked(slots, list) && |slots'| == |slots|
    requires forall i :: 0 <= i < |list| ==> slots'[list[i]].next == slots[list[i]].next
    ensures Linked(slots', list)
  {
    forall i | 0 <= i < |list|
      ensures LinkedAt(slots', list, i)
    {
      assert LinkedAt(slots, list, i);
    }
  }

  /** The tail of a linked list is linked. */
  lemma LinkedTail<T>(slots: seq<Node<T>>, list: seq<NodePtr>)
    requires Linked(slots, list) && list != []
    ensures Linked(slots, list[1..])
  {
    forall i | 0 <= i < |list| - 1
      ensures LinkedAt(slots, list[1..], i)
    {
      assert LinkedAt(slots, list, i + 1);
    }
  }

  /** Slot x, linked in at position p (after slot `live[p - 1]` when p > 0). */
  lemma {:induction false} LinkIn<T>(slots: seq<Node<T>>, live: seq<NodePtr>, x: NodePtr, p: nat, v: T,
                                     slots': seq<Node<T>>)
    requires Linked(slots, live) && Initialized(slots, live)
    requires x < |slots| && p <= |live| && |slots'| == |slots|
    requires slots'[x] == New(v, if p < |live| then Some(live[p]) else None)
    requires p > 0 ==> slots'[live[p - 1]] == slots[live[p - 1]].(next := Some(x))
    requires forall i :: 0 <= i < |live| && i != p - 1 ==> slots'[live[i]] == slots[live[i]]
    ensures Linked(slots', InsertAt(live, p, x)) && Initialized(slots', InsertAt(live, p, x))
  {
    var live' := InsertAt(live, p, x);
    InsertAtIndex(live, p, x);
    forall i | 0 <= i < |live'|
      ensures live'[i] < |slots'| && slots'[live'[i]].next == NextOf(live', i)
      ensures slots'[live'[i]].Initialized()
    {
      if i < p {
        LinkInBefore(slots, live, x, p, v, slots', i);
      } else if i > p {
        LinkInAfter(slots, live, x, p, v, slots', i);
      }
    }
  }

  /** The values along the list once slot x holding v is linked in at position p. */
  lemma LinkInValues<T>(slots: seq<Node<T>>, live: seq<NodePtr>, x: NodePtr, p: nat, v: T,
                        slots': seq<Node<T>>)
    requires Initialized(slots, live) && p <= |live| && |slots'| == |slots| && x < |slots|
    requires Initialized(slots', InsertAt(live, p, x))
    requires slots'[x].Initialized() && slots'[x].Read() == v
    requires forall i :: 0 <= i < |live| && i != p - 1 ==> slots'[live[i]] == slots[live[i]]
    requires p > 0 ==> slots'[live[p - 1]].value == slots[live[p - 1]].value
    ensures ValuesOf(slots', InsertAt(live, p, x)) == InsertAt(ValuesOf(slots, live), p, v)
  {
    var live' := InsertAt(live, p, x);
    InsertAtIndex(live, p, x);
    var vs := ValuesOf(slots, live);
    InsertAtIndex(vs, p, v);
    forall i | 0 <= i < |live'|
      ensures ValuesOf(slots', live')[i] == InsertAt(vs, p, v)[i]
    {
      var j := if i < p then i else i - 1;
      if i == p {
        assert live'[i] == x && InsertAt(vs, p, v)[i] == v;
      } else {
        assert live'[i] == live[j] && InsertAt(vs, p, v)[i] == vs[j];
        assert slots'[live[j]].value == slots[live[j]].value;
      }
    }
  }

  lemma LinkInBefore<T>(slots: seq<Node<T>>, live: seq<NodePtr>, x: NodePtr, p: nat, v: T,
                        slots': seq<Node<T>>, i: nat)
    requires Linked(slots, live) && Initialized(slots, live)
    requires x < |slots| && p <= |live| && |slots'| == |slots|
    requires p > 0 ==> slots'[live[p - 1]] == slots[live[p - 1]].(next := Some(x))
    requires forall i :: 0 <= i < |live| && i != p - 1 ==> slots'[live[i]] == slots[live[i]]
    requires i < p
    ensures InsertAt(live, p, x)[i] == live[i]
    ensures slots'[live[i]].next == NextOf(InsertAt(live, p, x), i) && slots'[live[i]].Initialized()
  {
    InsertAtIndex(live, p, x);
    assert LinkedAt(slots, live, i);
  }

  lemma LinkInAfter<T>(slots: seq<Node<T>>, live: seq<NodePtr>, x: NodePtr, p: nat, v: T,
                       slots': seq<Node<T>>, i: nat)
    requires Linked(slots, live) && Initialized(slots, live)
    requires x < |slots| && p <= |live| && |slots'| == |slots|
    requires forall i :: 0 <= i < |live| && i != p - 1 ==> slots'[live[i]] == slots[live[i]]
    requires p < i <= |live|
    ensures InsertAt(live, p, x)[i] == live[i - 1]
    ensures slots'[live[i - 1]].next == NextOf(InsertAt(live, p, x), i) && slots'[live[i - 1]].Initialized()
  {
    InsertAtIndex(live, p, x);
    assert slots'[live[i - 1]] == slots[live[i - 1]];
    assert LinkedAt(slots, live, i - 1);
  }

  /** Slot `live[k]` unlinked: its predecessor, if any, takes over its link. */
  lemma {:induction false} LinkOut<T>(slots: seq<Node<T>>, live: seq<NodePtr>, k: nat, slots': seq<Node<T>>)
    requires Linked(slots, live) && Initialized(slots, live) && NoDup(live)
    requires k < |live| && |slots'| == |slots|
    requires k > 0 ==> slots'[live[k - 1]] == slots[live[k - 1]].(next := NextOf(live, k))
    requires forall i :: 0 <= i < |live| && i != k && i != k - 1 ==> slots'[live[i]] == slots[live[i]]
    ensures Linked(slots', RemoveAt(live, k)) && Initialized(slots', RemoveAt(live, k))
  {
    var live' := RemoveAt(live, k);
    RemoveAtIndex(live, k);
    forall i | 0 <= i < |live'|
      ensures live'[i] < |slots'| && LinkedAt(slots', live', i)
      ensures slots'[live'[i]].Initialized()
    {
      var i0 := if i < k then i else i + 1;
      assert live'[i] == live[i0];
      assert LinkedAt(slots, live, i0);
      if k > 0 && i0 != k - 1 {
        assert live[i0] != live[k - 1];
      }
    }
  }

  /** The values along the list once position k is unlinked. */
  lemma LinkOutValues<T>(slots: seq<Node<T>>, live: seq<NodePtr>, k: nat, slots': seq<Node<T>>)
    requires Initialized(slots, live) && k < |live| && |slots'| == |slots|
    requires Initialized(slots', RemoveAt(live, k))
    requires k > 0 ==> slots'[live[k - 1]].value == slots[live[k - 1]].value
    requires forall i :: 0 <= i < |live| && i != k && i != k - 1 ==> slots'[live[i]] == slots[live[i]]
    ensures ValuesOf(slots', RemoveAt(live, k)) == RemoveAt(ValuesOf(slots, live), k)
  {
    var live' := RemoveAt(live, k);
    RemoveAtIndex(live, k);
    var vs := ValuesOf(slots, live);
    RemoveAtIndex(vs, k);
    forall i | 0 <= i < |live'|
      ensures ValuesOf(slots', live')[i] == RemoveAt(vs, k)[i]
    {
      assert live'[i] == if i < k then live[i] else live[i + 1];
    }
  }

  /**
   * Allocation (the free-list head `free[0]` is taken and written with `v`)
   * followed by linking it into the live list at position p: the arena
   * invariant still holds with the slot moved from the free list to the
   * live list, and the live values gain `v` at position p.
   */
  lemma {:induction false} Allocate<T>(slots: seq<Node<T>>, live: seq<NodePtr>, free: seq<NodePtr>,
                                       p: nat, v: T, slots': seq<Node<T>>)
    requires Valid(slots, live, free) && free != [] && p <= |live|
    requires |slots'| == |slots|
    requires slots'[free[0]] == New(v, if p < |live| then Some(live[p]) else None)
    requires p > 0 ==> slots'[live[p - 1]] == slots[live[p - 1]].(next := Some(free[0]))
    requires forall y: NodePtr :: y < |slots| && y != free[0] && (p == 0 || y != live[p - 1]) ==> slots'[y] == slots[y]
    ensures Valid(slots', InsertAt(live, p, free[0]), free[1..])
    ensures ValuesOf(slots', InsertAt(live, p, free[0])) == InsertAt(ValuesOf(slots, live), p, v)
  {
    var x := free[0];
    PartitionAllocate(|slots|, live, free, p);
    assert x !in live;
    forall i | 0 <= i < |live| && i != p - 1
      ensures slots'[live[i]] == slots[live[i]]
    {
      assert live[i] != x;
      assert p > 0 ==> live[i] != live[p - 1];
    }
    LinkIn(slots, live, x, p, v, slots');
    LinkInValues(slots, live, x, p, v, slots');
    forall i | 0 <= i < |free| - 1
      ensures slots'[free[1..][i]].next == slots[free[1..][i]].next
    {
      var y := free[i + 1];
      assert y in free && y != x;
      assert p > 0 ==> live[p - 1] in live && live[p - 1] != y;
    }
    LinkedTail(slots, free);
    LinkedFrame(slots, slots', free[1..]);
  }

  /**
   * Release: the live slot at position k is unlinked (its predecessor, if
   * any, takes over its link) and pushed onto the front of the free list.
   * The arena invariant still holds, and the live values lose position k.
   */
  lemma {:induction false} Release<T>(slots: seq<Node<T>>, live: seq<NodePtr>, free: seq<NodePtr>,
                                      k: nat, slots': seq<Node<T>>)
    requires Valid(slots, live, free) && k < |live|
    requires |slots'| == |slots|
    requires slots'[live[k]] == slots[live[k]].(next := First(free))
    requires k > 0 ==> slots'[live[k - 1]] == slots[live[k - 1]].(next := NextOf(live, k))
    requires forall y: NodePtr :: y < |slots| && y != live[k] && (k == 0 || y != live[k - 1]) ==> slots'[y] == slots[y]
    ensures Valid(slots', RemoveAt(live, k), [live[k]] + free)
    ensures ValuesOf(slots', RemoveAt(live, k)) == RemoveAt(ValuesOf(slots, live), k)
  {
    var x := live[k];
    PartitionRelease(|slots|, live, free, k);
    forall i | 0 <= i < |live| && i != k && i != k - 1
      ensures slots'[live[i]] == slots[live[i]]
    {
      assert live[i] != x;
      assert k > 0 ==> live[i] != live[k - 1];
    }
    LinkOut(slots, live, k, slots');
    LinkOutValues(slots, live, k, slots');
    forall i | 0 <= i < |free|
      ensures slots'[free[i]].next == slots[free[i]].next
    {
      var y := free[i];
      assert y in free && x in live && y != x;
      assert k > 0 ==> live[k - 1] in live && live[k - 1] != y;
    }
    LinkedFrame(slots, slots', free);
    var free' := [x] + free;
    forall i | 0 <= i < |free'|
      ensures free'[i] < |slots'| && LinkedAt(slots', free', i)
    {
      if i > 0 {
        assert free'[i] == free[i - 1];
        assert LinkedAt(slots', free, i - 1);
      }
    }
  }

  /**
   * The slots after appending `v` to the live list: the free-list head is
   * written with `v` and no link, and the old last live slot, if any, now
   * links to it.
   */
  function Appended<T>(slots: seq<Node<T>>, live: seq<NodePtr>, free: seq<NodePtr>, v: T): (r: seq<Node<T>>)
    requires free != [] && free[0] < |slots| && (live != [] ==> Last(live).value < |slots|)
    ensures |r| == |slots| && r[free[0]] == New(v, None)
    ensures live != [] && Last(live).value != free[0] ==>
      r[Last(live).value] == slots[Last(live).value].(next := Some(free[0]))
    ensures forall y :: 0 <= y < |slots| && y != free[0] && (live == [] || y != Last(live).value) ==> r[y] == slots[y]
  {
    var linked := if live == [] then slots
                  else slots[Last(live).value := slots[Last(live).value].(next := Some(free[0]))];
    linked[free[0] := New(v, None)]
  }

  /** Appending keeps the arena invariant, and the live values gain `v` at the end. */
  lemma Append<T>(slots: seq<Node<T>>, live: seq<NodePtr>, free: seq<NodePtr>, v: T)
    requires Valid(slots, live, free) && free != []
    ensures free[0] < |slots| && (live != [] ==> Last(live).value < |slots|)
    ensures Valid(Appended(slots, live, free, v), live + [free[0]], free[1..])
    ensures ValuesOf(Appended(slots, live, free, v), live + [free[0]]) == ValuesOf(slots, live) + [v]
  {
    assert free[0] in free;
    assert live != [] ==> live[|live| - 1] in live;
    assert InsertAt(live, |live|, free[0]) == live + [free[0]];
    assert InsertAt(ValuesOf(slots, live), |live|, v) == ValuesOf(slots, live) + [v];
    Allocate(slots, live, free, |live|, v, Appended(slots, live, free, v));
  }

  /**
   * The slots after unlinking position k of the live list and pushing its
   * slot onto the free list: the predecessor, if any, takes over the
   * slot's link, and the slot links to the old free-list head.
   */
  function Unlinked<T>(slots: seq<Node<T>>, live: seq<NodePtr>, free: seq<NodePtr>, k: nat): (r: seq<Node<T>>)
    requires k < |live| && live[k] < |slots| && (k > 0 ==> live[k - 1] < |slots|)
    ensures |r| == |slots| && r[live[k]] == slots[live[k]].(next := First(free))
    ensures k > 0 && live[k - 1] != live[k] ==> r[live[k - 1]] == slots[live[k - 1]].(next := NextOf(live, k))
    ensures forall y :: 0 <= y < |slots| && y != live[k] && (k == 0 || y != live[k - 1]) ==> r[y] == slots[y]
  {
    var patched := if k == 0 then slots
                   else slots[live[k - 1] := slots[live[k - 1]].(next := NextOf(live, k))];
    patched[live[k] := patched[live[k]].(next := First(free))]
  }

  /** Unlinking keeps the arena invariant, and the live values lose position k. */
  lemma Unlink<T>(slots: seq<Node<T>>, live: seq<NodePtr>, free: seq<NodePtr>, k: nat)
    requires Valid(slots, live, free) && k < |live|
    ensures live[k] < |slots| && (k > 0 ==> live[k - 1] < |slots|)
    ensures Valid(Unlinked(slots, live, free, k), RemoveAt(live, k), [live[k]] + free)
    ensures ValuesOf(Unlinked(slots, live, free, k), RemoveAt(live, k)) == RemoveAt(ValuesOf(slots, live), k)
  {
    assert live[k] in live;
    if k > 0 {
      assert live[k - 1] in live && live[k - 1] != live[k];
      assert LinkedAt(slots, live, k);
    }
    Release(slots, live, free, k, Unlinked(slots, live, free, k));
  }

  /** In a valid arena every link stays inside the arena. */
  lemma LinksInside<T>(slots: seq<Node<T>>, live: seq<NodePtr>, free: seq<NodePtr>)
    requires Valid(slots, live, free)
    ensures forall y: NodePtr :: y < |slots| ==> slots[y].next.None? || slots[y].next.value < |slots|
  {
    forall y: NodePtr | y < |slots|
      ensures slots[y].next.None? || slots[y].next.value < |slots|
    {
      var list := if y in live then live else free;
      var i :| 0 <= i < |list| && list[i] == y;
      assert LinkedAt(slots, list, i);
    }
  }

  /**
   * The slots after linking the free-list head, written with `v`, into the
   * live list at position p: it links to the entry that was at p (or to
   * nothing at the end), and the entry before p, if any, now links to it.
   */
  function Inserted<T>(slots: seq<Node<T>>, live: seq<NodePtr>, free: seq<NodePtr>, p: nat, v: T): (r: seq<Node<T>>)
    requires free != [] && free[0] < |slots| && p <= |live| && (p > 0 ==> live[p - 1] < |slots|)
    ensures |r| == |slots|
    ensures p == 0 || live[p - 1] != free[0] ==> r[free[0]] == New(v, if p < |live| then Some(live[p]) else None)
    ensures p > 0 ==> r[live[p - 1]].next == Some(free[0])
    ensures forall y :: 0 <= y < |slots| && y != free[0] && (p == 0 || y != live[p - 1]) ==> r[y] == slots[y]
  {
    var written := slots[free[0] := New(v, if p < |live| then Some(live[p]) else None)];
    if p == 0 then written else written[live[p - 1] := written[live[p - 1]].(next := Some(free[0]))]
  }

  /** Linking in at position p keeps the arena invariant, and the live values gain `v` at p. */
  lemma InsertInto<T>(slots: seq<Node<T>>, live: seq<NodePtr>, free: seq<NodePtr>, p: nat, v: T)
    requires Valid(slots, live, free) && free != [] && p <= |live|
    ensures free[0] < |slots| && (p > 0 ==> live[p - 1] < |slots|)
    ensures Valid(Inserted(slots, live, free, p, v), InsertAt(live, p, free[0]), free[1..])
    ensures ValuesOf(Inserted(slots, live, free, p, v), InsertAt(live, p, free[0])) == InsertAt(ValuesOf(slots, live), p, v)
  {
    assert free[0] in free;
    if p > 0 {
      assert live[p - 1] in live;
    }
    Allocate(slots, live, free, p, v, Inserted(slots, live, free, p, v));
  }
}
