/**
 * The single forward pass that `PriorityQueue::pop` makes over the live
 * list (priority_queue/src/lib.rs), stated on the sequence of live values
 * in list order. Positions, not arena indices, are tracked here; the class
 * maps them to slots through its ghost `live` sequence.
 */
module PopScan {

  /** What the pass keeps: the candidate minimum, the runner-up, and the
    * candidate's predecessor, as positions in the live list. */
  datatype Cursor = Cursor(min: nat, second: nat, pred: nat)

  /** The highest position the pass has compared once the cursor is at c:
    * the seed compares positions 0 and 1 before the cursor moves. */
  function Seen(c: nat): nat {
    if c == 0 then 1 else c
  }

  /** The seed: the first two nodes compared with `<=`, the head winning ties. */
  function Seed(vals: seq<int>): (st: Cursor)
    requires 2 <= |vals|
    ensures st.min <= 1 && st.second == 1 - st.min && st.pred == 0
    ensures vals[st.min] <= vals[st.second]
    ensures st.min == 0 <==> vals[0] <= vals[1]
  {
    if vals[0] <= vals[1] then Cursor(0, 1, 0) else Cursor(1, 0, 0)
  }

  /** One comparison of the pass as written: the node at position c (the
    * cursor's successor) replaces the candidate if its value is `<=` the
    * candidate's and it is not the candidate itself; the old candidate
    * becomes the runner-up and the cursor, c - 1, the predecessor. */
  function Step(vals: seq<int>, st: Cursor, c: nat): (r: Cursor)
    requires 1 <= c < |vals| && st.min < |vals|
    ensures r.min < |vals| && vals[r.min] <= vals[st.min]
    ensures r.min != st.min ==> r == Cursor(c, st.min, c - 1)
    ensures r.min == st.min ==> r == st
  {
    if vals[c] <= vals[st.min] && st.min != c then Cursor(c, st.min, c - 1) else st
  }

  /** The same comparison with the runner-up also replaced when the node
    * beats it without beating the candidate. */
  function StepFixed(vals: seq<int>, st: Cursor, c: nat): (r: Cursor)
    requires 1 <= c < |vals| && st.min < |vals| && st.second < |vals|
    ensures r.min < |vals| && r.second < |vals| && vals[r.min] <= vals[st.min]
    ensures r.min != st.min ==> r == Cursor(c, st.min, c - 1)
    ensures r.min == st.min ==> r.pred == st.pred && vals[r.second] <= vals[st.second]
  {
    if st.min == c then st
    else if vals[c] <= vals[st.min] then Cursor(c, st.min, c - 1)
    else if vals[c] < vals[st.second] then st.(second := c)
    else st
  }

  /** The state of the pass as written once the cursor is at c. */
  function ScanTo(vals: seq<int>, c: nat): (st: Cursor)
    requires 2 <= |vals| && c < |vals|
    ensures st.min <= Seen(c) && st.second <= Seen(c) && st.pred <= Seen(c)
    ensures st.min != st.second
  {
    if c == 0 then Seed(vals) else Step(vals, ScanTo(vals, c - 1), c)
  }

  /** The state of the corrected pass once the cursor is at c. */
  function ScanToFixed(vals: seq<int>, c: nat): (st: Cursor)
    requires 2 <= |vals| && c < |vals|
    ensures st.min <= Seen(c) && st.second <= Seen(c) && st.pred <= Seen(c)
    ensures st.min != st.second
  {
    if c == 0 then Seed(vals) else StepFixed(vals, ScanToFixed(vals, c - 1), c)
  }

  /** The state at the end of the pass (cursor on the tail). */
  function Select(vals: seq<int>): (sel: Cursor)
    requires 2 <= |vals|
    ensures sel.min < |vals| && sel.second < |vals| && sel.pred < |vals| && sel.min != sel.second
  {
    ScanTo(vals, |vals| - 1)
  }

  /** The state at the end of the corrected pass. */
  function SelectFixed(vals: seq<int>): (sel: Cursor)
    requires 2 <= |vals|
    ensures sel.min < |vals| && sel.second < |vals| && sel.pred < |vals| && sel.min != sel.second
  {
    ScanToFixed(vals, |vals| - 1)
  }

  /**
   * What the pass keeps while it runs with the cursor at c: the candidate
   * is a least value among the positions compared so far, once the cursor
   * has moved every later compared position holds a strictly greater value
   * (so among equal minima the last one wins; the seed alone lets the head
   * win a tie), and the predecessor is the position just before the
   * candidate.
   */
  ghost predicate LastLeastSoFar(vals: seq<int>, st: Cursor, c: nat)
    requires c < |vals| && 2 <= |vals|
  {
    && st.min <= Seen(c)
    && (forall j :: 0 <= j <= Seen(c) ==> vals[st.min] <= vals[j])
    && (c >= 1 ==> forall j :: st.min < j <= Seen(c) ==> vals[st.min] < vals[j])
    && (st.min > 0 ==> st.pred == st.min - 1)
  }

  /** The runner-up is a least value among the compared positions other
    * than the candidate. */
  ghost predicate RunnerUpSoFar(vals: seq<int>, st: Cursor, c: nat)
    requires c < |vals| && 2 <= |vals|
  {
    && st.second <= Seen(c) && st.second != st.min
    && (forall j :: 0 <= j <= Seen(c) && j != st.min ==> vals[st.second] <= vals[j])
  }

  lemma SeedInvariant(vals: seq<int>)
    requires 2 <= |vals|
    ensures LastLeastSoFar(vals, Seed(vals), 0) && RunnerUpSoFar(vals, Seed(vals), 0)
  {
  }

  /** One comparison keeps the candidate invariant. */
  lemma StepKeepsLeast(vals: seq<int>, st: Cursor, c: nat)
    requires 1 <= c < |vals| && LastLeastSoFar(vals, st, c - 1)
    ensures LastLeastSoFar(vals, Step(vals, st, c), c)
  {
    assert c >= 2 ==> Seen(c) == Seen(c - 1) + 1;
  }

  /** One corrected comparison keeps both invariants. */
  lemma StepFixedKeepsRunnerUp(vals: seq<int>, st: Cursor, c: nat)
    requires 1 <= c < |vals| && LastLeastSoFar(vals, st, c - 1) && RunnerUpSoFar(vals, st, c - 1)
    ensures LastLeastSoFar(vals, StepFixed(vals, st, c), c)
    ensures RunnerUpSoFar(vals, StepFixed(vals, st, c), c)
  {
    assert c >= 2 ==> Seen(c) == Seen(c - 1) + 1;
  }

  /** A corrected comparison moves the candidate and predecessor exactly as
    * the comparison as written does, whatever the runner-ups are. */
  lemma StepsAgree(vals: seq<int>, st: Cursor, st': Cursor, c: nat)
    requires 1 <= c < |vals| && st.min < |vals| && st'.second < |vals|
    requires st'.min == st.min && st'.pred == st.pred
    ensures StepFixed(vals, st', c).min == Step(vals, st, c).min
    ensures StepFixed(vals, st', c).pred == Step(vals, st, c).pred
  {
  }

  /** The pass as written keeps `LastLeastSoFar` all the way. */
  lemma {:induction false} ScanInvariant(vals: seq<int>, c: nat)
    requires 2 <= |vals| && c < |vals|
    ensures LastLeastSoFar(vals, ScanTo(vals, c), c)
  {
    if c == 0 {
      SeedInvariant(vals);
    } else {
      ScanInvariant(vals, c - 1);
      StepKeepsLeast(vals, ScanTo(vals, c - 1), c);
    }
  }

  /** The corrected pass keeps the same candidate and predecessor as the
    * pass as written: the correction only touches the runner-up. */
  lemma {:induction false} FixedAgreesOnMin(vals: seq<int>, c: nat)
    requires 2 <= |vals| && c < |vals|
    ensures ScanToFixed(vals, c).min == ScanTo(vals, c).min
    ensures ScanToFixed(vals, c).pred == ScanTo(vals, c).pred
  {
    if c > 0 {
      FixedAgreesOnMin(vals, c - 1);
      StepsAgree(vals, ScanTo(vals, c - 1), ScanToFixed(vals, c - 1), c);
    }
  }

  /** The corrected pass keeps both invariants all the way. */
  lemma {:induction false} ScanFixedInvariant(vals: seq<int>, c: nat)
    requires 2 <= |vals| && c < |vals|
    ensures LastLeastSoFar(vals, ScanToFixed(vals, c), c)
    ensures RunnerUpSoFar(vals, ScanToFixed(vals, c), c)
  {
    if c == 0 {
      SeedInvariant(vals);
    } else {
      ScanFixedInvariant(vals, c - 1);
      StepFixedKeepsRunnerUp(vals, ScanToFixed(vals, c - 1), c);
    }
  }

  /**
   * The position pop removes is the LAST position holding a least value:
   * its value is no greater than any other, every later value is strictly
   * greater, and `pred` is the position just before it.
   */
  lemma SelectIsLastLeast(vals: seq<int>)
    requires 2 <= |vals|
    ensures var sel := Select(vals);
      && sel.min < |vals| && sel.second < |vals| && sel.min != sel.second
      && (forall j :: 0 <= j < |vals| ==> vals[sel.min] <= vals[j])
      && (forall j :: sel.min < j < |vals| ==> vals[sel.min] < vals[j])
      && (sel.min > 0 ==> sel.pred == sel.min - 1)
  {
    ScanInvariant(vals, |vals| - 1);
  }

  /**
   * The corrected pass removes the same position, and its runner-up holds
   * a least value of what remains.
   */
  lemma SelectFixedRunnerUp(vals: seq<int>)
    requires 2 <= |vals|
    ensures var sel := SelectFixed(vals);
      && sel.min == Select(vals).min && sel.pred == Select(vals).pred
      && sel.min == Victim(vals) && (sel.min > 0 ==> sel.pred == sel.min - 1)
      && sel.second < |vals| && sel.second != sel.min
      && (forall j :: 0 <= j < |vals| && j != sel.min ==> vals[sel.second] <= vals[j])
  {
    FixedAgreesOnMin(vals, |vals| - 1);
    ScanFixedInvariant(vals, |vals| - 1);
    SelectIsLastLeast(vals);
  }

  /**
   * The position pop removes from a list of `vals` (the single-node case
   * removes the only node): the last position holding a least value.
   */
  function Victim(vals: seq<int>): (k: nat)
    requires 1 <= |vals|
    ensures k < |vals|
    ensures forall j :: 0 <= j < |vals| ==> vals[k] <= vals[j]
    ensures forall j :: k < j < |vals| ==> vals[k] < vals[j]
  {
    if |vals| == 1 then 0
    else
      SelectIsLastLeast(vals);
      Select(vals).min
  }

  /**
   * The pass as written leaves a stale runner-up: for the values 1, 5, 3
   * it removes the 1 and caches the 5, although 3 remains; the corrected
   * pass caches the 3.
   */
  lemma StaleRunnerUp()
    ensures Select([1, 5, 3]) == Cursor(0, 1, 0)
    ensures SelectFixed([1, 5, 3]) == Cursor(0, 2, 0)
  {
  }

  /** Duplicate minima: of 100, 200, 100 the second 100 is removed and the
    * first 100 becomes the cached minimum. */
  lemma DuplicateMinima()
    ensures Select([100, 200, 100]) == Cursor(2, 0, 1)
    ensures SelectFixed([100, 200, 100]) == Cursor(2, 0, 1)
  {
  }
}
