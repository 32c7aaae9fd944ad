/** What a recursive reveal ("flood fill") uncovers, stated independently of
    any draft: the cells it uncovers, in the order it uncovers them. */
module Flood {
  import opened Grid

  /** No element occurs twice: each cell is uncovered at most once. */
  ghost predicate Distinct<T>(s: seq<T>) {
    forall k, m | 0 <= k < m < |s| :: s[k] != s[m]
  }

  /** Every cell after the first was reached from an earlier cell that opens
      (a cell that opens is one whose reveal cascades into its neighbours). */
  ghost predicate Reached(rows: int, cols: int, opens: set<Pos>, order: seq<Pos>) {
    forall k | 0 < k < |order| :: ReachedAt(rows, cols, opens, order, k)
  }

  /** order[k] is a neighbour of an earlier cell that opens. */
  ghost predicate ReachedAt(rows: int, cols: int, opens: set<Pos>, order: seq<Pos>, k: int)
    requires 0 <= k < |order|
  {
    exists m | 0 <= m < k :: order[m] in opens && order[k] in Neighbours(rows, cols, order[m])
  }

  /** p leaves nothing behind: if it opens, each neighbour was blocked or is uncovered too. */
  ghost predicate Closed(rows: int, cols: int, opens: set<Pos>, blocked: set<Pos>, order: seq<Pos>, p: Pos) {
    p in opens ==> Neighbours(rows, cols, p) <= blocked + Elems(order)
  }

  /** The cells uncovered, in order, by revealing `start` on a grid where the cells in
      `blocked` (already revealed, or flagged) are never touched and the cells in
      `opens` cascade. Nothing is uncovered when start is blocked; otherwise start
      comes first, every other cell is reached from an earlier opening cell, no cell
      repeats, and every opening cell has all its neighbours blocked or uncovered. */
  ghost predicate IsFlood(rows: int, cols: int, opens: set<Pos>, blocked: set<Pos>, start: Pos, order: seq<Pos>) {
    && (start in blocked ==> order == [])
    && (start !in blocked ==> |order| > 0 && order[0] == start)
    && (forall k | 0 <= k < |order| :: InBounds(rows, cols, order[k]) && order[k] !in blocked)
    && Distinct(order)
    && Reached(rows, cols, opens, order)
    && (forall k | 0 <= k < |order| :: Closed(rows, cols, opens, blocked, order, order[k]))
  }

  /** A flood in progress: order[0] is uncovered and the window cells in `done` have
      been handed to the recursion; all later cells are already closed. */
  ghost predicate PartialFlood(rows: int, cols: int, opens: set<Pos>, blocked: set<Pos>, order: seq<Pos>, done: set<Pos>) {
    && |order| > 0
    && (forall k | 0 <= k < |order| :: InBounds(rows, cols, order[k]) && order[k] !in blocked)
    && Distinct(order)
    && Reached(rows, cols, opens, order)
    && (forall k | 0 < k < |order| :: Closed(rows, cols, opens, blocked, order, order[k]))
    && done <= blocked + Elems(order)
  }

  lemma FloodStart(rows: int, cols: int, opens: set<Pos>, blocked: set<Pos>, start: Pos)
    requires InBounds(rows, cols, start) && start !in blocked
    ensures PartialFlood(rows, cols, opens, blocked, [start], {})
  {
  }

  /** Recursing into a window cell q of order[0] and appending what that call uncovers
      (a flood from q in which everything uncovered so far counts as blocked) keeps
      the flood well formed. */
  lemma FloodExtend(rows: int, cols: int, opens: set<Pos>, blocked: set<Pos>,
                    order: seq<Pos>, done: set<Pos>, q: Pos, sub: seq<Pos>)
    requires PartialFlood(rows, cols, opens, blocked, order, done)
    requires order[0] in opens && q in Window(rows, cols, order[0])
    requires IsFlood(rows, cols, opens, blocked + Elems(order), q, sub)
    ensures PartialFlood(rows, cols, opens, blocked, order + sub, done + {q})
    ensures Elems(order + sub) == Elems(order) + Elems(sub)
  {
    var all := order + sub;
    assert Elems(all) == Elems(order) + Elems(sub);
    ExtendBounds(rows, cols, blocked, order, sub);
    ExtendDistinct(order, sub);
    ExtendReached(rows, cols, opens, order, q, sub);
    ExtendClosed(rows, cols, opens, blocked, order, sub);
    if q !in blocked + Elems(order) {
      assert sub[0] == q && q in Elems(sub);
    }
  }

  lemma ExtendBounds(rows: int, cols: int, blocked: set<Pos>, order: seq<Pos>, sub: seq<Pos>)
    requires forall k | 0 <= k < |order| :: InBounds(rows, cols, order[k]) && order[k] !in blocked
    requires forall k | 0 <= k < |sub| :: InBounds(rows, cols, sub[k]) && sub[k] !in blocked + Elems(order)
    ensures forall k | 0 <= k < |order + sub| :: InBounds(rows, cols, (order + sub)[k]) && (order + sub)[k] !in blocked
  {
    var all := order + sub;
    forall k | 0 <= k < |all|
      ensures InBounds(rows, cols, all[k]) && all[k] !in blocked
    {
      if k >= |order| { assert all[k] == sub[k - |order|]; }
    }
  }

  lemma ExtendDistinct(order: seq<Pos>, sub: seq<Pos>)
    requires Distinct(order) && Distinct(sub)
    requires forall k | 0 <= k < |sub| :: sub[k] !in Elems(order)
    ensures Distinct(order + sub)
  {
    var all := order + sub;
    forall k, m | 0 <= k < m < |all| ensures all[k] != all[m] {
      if m >= |order| {
        assert all[m] == sub[m - |order|];
        if k < |order| {
          assert all[k] in Elems(order);
        } else {
          assert all[k] == sub[k - |order|];
        }
      }
    }
  }

  lemma ExtendReached(rows: int, cols: int, opens: set<Pos>, order: seq<Pos>, q: Pos, sub: seq<Pos>)
    requires |order| > 0 && order[0] in opens && q in Window(rows, cols, order[0])
    requires Reached(rows, cols, opens, order) && Reached(rows, cols, opens, sub)
    requires |sub| > 0 ==> sub[0] == q && q != order[0]
    ensures Reached(rows, cols, opens, order + sub)
  {
    var all := order + sub;
    forall k | 0 < k < |all| ensures ReachedAt(rows, cols, opens, all, k) {
      if k >= |order| {
        var k' := k - |order|;
        assert all[k] == sub[k'];
        if k' == 0 {
          assert all[0] == order[0];
          assert all[k] in Neighbours(rows, cols, all[0]);
          assert 0 <= 0 < k && all[0] in opens && all[k] in Neighbours(rows, cols, all[0]);
        } else {
          assert ReachedAt(rows, cols, opens, sub, k');
          var m' :| 0 <= m' < k' && sub[m'] in opens && sub[k'] in Neighbours(rows, cols, sub[m']);
          assert all[|order| + m'] == sub[m'];
          assert 0 <= |order| + m' < k && all[|order| + m'] in opens && all[k] in Neighbours(rows, cols, all[|order| + m']);
        }
      } else {
        assert all[k] == order[k];
        assert ReachedAt(rows, cols, opens, order, k);
        var m :| 0 <= m < k && order[m] in opens && order[k] in Neighbours(rows, cols, order[m]);
        assert all[m] == order[m];
        assert 0 <= m < k && all[m] in opens && all[k] in Neighbours(rows, cols, all[m]);
      }
    }
  }

  lemma ExtendClosed(rows: int, cols: int, opens: set<Pos>, blocked: set<Pos>, order: seq<Pos>, sub: seq<Pos>)
    requires forall k | 0 < k < |order| :: Closed(rows, cols, opens, blocked, order, order[k])
    requires forall k | 0 <= k < |sub| :: Closed(rows, cols, opens, blocked + Elems(order), sub, sub[k])
    ensures forall k | 0 < k < |order + sub| :: Closed(rows, cols, opens, blocked, order + sub, (order + sub)[k])
  {
    var all := order + sub;
    assert Elems(all) == Elems(order) + Elems(sub);
    forall k | 0 < k < |all| ensures Closed(rows, cols, opens, blocked, all, all[k]) {
      if k >= |order| {
        assert all[k] == sub[k - |order|];
        assert Closed(rows, cols, opens, blocked + Elems(order), sub, sub[k - |order|]);
      } else {
        assert all[k] == order[k];
        assert Closed(rows, cols, opens, blocked, order, order[k]);
      }
    }
  }

  /** Once every neighbour of order[0] has been handed over, the partial flood is a flood. */
  lemma FloodFinish(rows: int, cols: int, opens: set<Pos>, blocked: set<Pos>, order: seq<Pos>, done: set<Pos>)
    requires PartialFlood(rows, cols, opens, blocked, order, done)
    requires order[0] in opens ==> Neighbours(rows, cols, order[0]) <= done
    ensures IsFlood(rows, cols, opens, blocked, order[0], order)
  {
    assert order[0] !in blocked;
    forall k | 0 <= k < |order| ensures Closed(rows, cols, opens, blocked, order, order[k]) {
      if k == 0 {
        assert Neighbours(rows, cols, order[0]) <= done || order[0] !in opens;
      }
    }
  }

  /** Each cell a flood uncovers is uncovered by any other flood from the same start. */
  lemma {:induction false} FloodIncluded(rows: int, cols: int, opens: set<Pos>, blocked: set<Pos>,
                                         start: Pos, o1: seq<Pos>, o2: seq<Pos>, k: nat)
    requires IsFlood(rows, cols, opens, blocked, start, o1)
    requires IsFlood(rows, cols, opens, blocked, start, o2)
    requires k < |o1|
    ensures o1[k] in o2
    decreases k
  {
    if k == 0 {
      assert o2[0] == start;
    } else {
      assert ReachedAt(rows, cols, opens, o1, k);
      var m :| 0 <= m < k && o1[m] in opens && o1[k] in Neighbours(rows, cols, o1[m]);
      FloodIncluded(rows, cols, opens, blocked, start, o1, o2, m);
      var j :| 0 <= j < |o2| && o2[j] == o1[m];
      assert Closed(rows, cols, opens, blocked, o2, o2[j]);
      assert o1[k] !in blocked;
      assert o1[k] in Elems(o2);
    }
  }

  /** The flood from a start cell is unique: whatever order a recursion uncovers cells
      in, the set it uncovers is the same, the start's connected region of opening
      cells together with their bordering cells, and nothing else. */
  lemma FloodUnique(rows: int, cols: int, opens: set<Pos>, blocked: set<Pos>,
                    start: Pos, o1: seq<Pos>, o2: seq<Pos>)
    requires IsFlood(rows, cols, opens, blocked, start, o1)
    requires IsFlood(rows, cols, opens, blocked, start, o2)
    ensures Elems(o1) == Elems(o2)
  {
    forall k | 0 <= k < |o1| ensures o1[k] in o2 {
      FloodIncluded(rows, cols, opens, blocked, start, o1, o2, k);
    }
    forall k | 0 <= k < |o2| ensures o2[k] in o1 {
      FloodIncluded(rows, cols, opens, blocked, start, o2, o1, k);
    }
  }

  /** A flood never uncovers a blocked (revealed or flagged) cell, and it uncovers
      the start exactly when the start is not blocked. */
  lemma FloodAvoidsBlocked(rows: int, cols: int, opens: set<Pos>, blocked: set<Pos>, start: Pos, order: seq<Pos>)
    requires IsFlood(rows, cols, opens, blocked, start, order)
    ensures Elems(order) !! blocked
    ensures start in Elems(order) <==> start !in blocked
  {
  }
}
