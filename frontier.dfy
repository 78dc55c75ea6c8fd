/**
 * The open list of alg.py as a sequence of arena indices, and the pure
 * meaning of the scans the source runs over it: `in`/`next` with the
 * positional node equality, `min` by `f`, `list.remove`, and the
 * neighbour step of `add_neighbors`.
 */
module Frontier {
  import opened Wrappers
  import opened Nodes
  import opened Arena

  /** The index in `open` of the first entry at position `p` (what `in`, `next` and `remove` look for). */
  function FirstMatch(arena: seq<Node>, open: seq<nat>, p: Pos): (r: Option<nat>)
    requires IndicesIn(open, |arena|)
    ensures r.Some? ==> r.value < |open| && arena[open[r.value]].pos == p
    ensures r.Some? ==> forall j :: 0 <= j < r.value ==> arena[open[j]].pos != p
    ensures r.None? ==> forall j :: 0 <= j < |open| ==> arena[open[j]].pos != p
    decreases |open|
  {
    if open == [] then None
    else
      match FirstMatch(arena, open[..|open| - 1], p)
      case Some(k) => Some(k)
      case None => if arena[open[|open| - 1]].pos == p then Some(|open| - 1) else None
  }

  /** The index in `open` of the first entry of least `f`, as Python's `min` with a key returns it. */
  function FirstMin(arena: seq<Node>, open: seq<nat>): (k: nat)
    requires IndicesIn(open, |arena|) && |open| > 0
    ensures k < |open|
    ensures forall j :: 0 <= j < |open| ==> arena[open[k]].F() <= arena[open[j]].F()
    ensures forall j :: 0 <= j < k ==> arena[open[k]].F() < arena[open[j]].F()
    decreases |open|
  {
    if |open| == 1 then 0
    else
      var k := FirstMin(arena, open[..|open| - 1]);
      if arena[open[|open| - 1]].F() < arena[open[k]].F() then |open| - 1 else k
  }

  /**
   * `open` without its first entry at position `p` (`list.remove` with the
   * positional equality); every other entry keeps its place.
   */
  function RemoveFirstMatch(arena: seq<Node>, open: seq<nat>, p: Pos): (r: seq<nat>)
    requires IndicesIn(open, |arena|)
    requires exists k :: 0 <= k < |open| && arena[open[k]].pos == p
    ensures |r| == |open| - 1 && IndicesIn(r, |arena|)
    ensures exists j :: && 0 <= j < |open| && arena[open[j]].pos == p
                        && (forall i :: 0 <= i < j ==> arena[open[i]].pos != p)
                        && r == open[..j] + open[j + 1..]
  {
    var j := FirstMatch(arena, open, p).value;
    open[..j] + open[j + 1..]
  }

  /** The admission test: no entry at the candidate's position, or a strictly better `f` than the first one. */
  predicate Admits(arena: seq<Node>, open: seq<nat>, cand: Node)
    requires IndicesIn(open, |arena|)
  {
    match FirstMatch(arena, open, cand.pos)
    case None => true
    case Some(k) => cand.F() < arena[open[k]].F()
  }

  /** One pass of the `add_neighbors` loop body, for move `m`, expanding node `cur`. */
  function TryMove(grid: Grid, target: Pos, arena: seq<Node>, open: seq<nat>, cur: nat, m: Pos): (seq<Node>, seq<nat>)
    requires cur < |arena| && IndicesIn(open, |arena|)
  {
    var newPos := Add(arena[cur].pos, m);
    if InBounds(grid, newPos) && grid[newPos.row][newPos.col] == 0 then
      var newNode := Node(newPos, arena[cur].g + 1, Manhattan(newPos, target), Some(cur));
      if Admits(arena, open, newNode) then (arena + [newNode], open + [|arena|]) else (arena, open)
    else
      (arena, open)
  }

  /**
   * `add_neighbors(cur)` over the moves `ms`, in order; the result is the
   * new arena and open list. Nodes are only ever added.
   */
  function Expand(grid: Grid, target: Pos, arena: seq<Node>, open: seq<nat>, cur: nat, ms: seq<Pos>): (r: (seq<Node>, seq<nat>))
    requires cur < |arena| && IndicesIn(open, |arena|)
    ensures |arena| <= |r.0| && r.0[..|arena|] == arena
    ensures IndicesIn(r.1, |r.0|)
    decreases |ms|
  {
    if ms == [] then (arena, open)
    else
      var prev := Expand(grid, target, arena, open, cur, ms[..|ms| - 1]);
      TryMove(grid, target, prev.0, prev.1, cur, ms[|ms| - 1])
  }

  /**
   * One move appends a node exactly when the new cell is in bounds and
   * walkable and either no open entry has that position or the new `f` is
   * below that of the first entry with it; otherwise nothing changes.
   */
  lemma TryMoveAppendsIff(grid: Grid, target: Pos, arena: seq<Node>, open: seq<nat>, cur: nat, m: Pos)
    requires cur < |arena| && IndicesIn(open, |arena|)
    ensures var r := TryMove(grid, target, arena, open, cur, m);
            var np := Add(arena[cur].pos, m);
            var f := arena[cur].g + 1 + Manhattan(np, target);
            && (r.1 != open <==>
                 && Passable(grid, np)
                 && ((forall k :: 0 <= k < |open| ==> arena[open[k]].pos != np)
                     || exists k :: && 0 <= k < |open| && arena[open[k]].pos == np
                                    && (forall j :: 0 <= j < k ==> arena[open[j]].pos != np)
                                    && f < arena[open[k]].F()))
            && (r.1 != open ==> r == (arena + [Node(np, arena[cur].g + 1, Manhattan(np, target), Some(cur))], open + [|arena|]))
            && (r.1 == open ==> r == (arena, open))
  {
    var np := Add(arena[cur].pos, m);
    var first := FirstMatch(arena, open, np);
    if first.Some? {
      var k := first.value;
      forall k' | && 0 <= k' < |open| && arena[open[k']].pos == np
                  && (forall j :: 0 <= j < k' ==> arena[open[j]].pos != np)
        ensures k' == k
      {
      }
    }
  }

  /**
   * Expansion only appends: the old open list is a prefix of the new one,
   * and the new entries are exactly the new arena nodes, in creation order.
   */
  lemma {:induction false} ExpandOnlyAppends(grid: Grid, target: Pos, arena: seq<Node>, open: seq<nat>, cur: nat, ms: seq<Pos>)
    requires cur < |arena| && IndicesIn(open, |arena|)
    ensures var r := Expand(grid, target, arena, open, cur, ms);
            && |open| <= |r.1| && r.1[..|open|] == open
            && |r.1| - |open| == |r.0| - |arena|
            && forall k :: |open| <= k < |r.1| ==> r.1[k] == |arena| + (k - |open|)
    decreases |ms|
  {
    if ms != [] {
      ExpandOnlyAppends(grid, target, arena, open, cur, ms[..|ms| - 1]);
    }
  }

  /** Every node of `a` past the nodes of `arena` is a child of `arena[cur]` by one of `moves`. */
  predicate AddedChildren(grid: Grid, moves: seq<Pos>, target: Pos, arena: seq<Node>, cur: nat, a: seq<Node>)
    requires cur < |arena|
  {
    forall i :: |arena| <= i < |a| ==> IsChild(grid, moves, target, arena[cur], cur, a[i])
  }

  /** Every node that expansion adds is a child of `cur` by one of `ms`. */
  lemma {:induction false} ExpandChildren(grid: Grid, target: Pos, arena: seq<Node>, open: seq<nat>, cur: nat, ms: seq<Pos>)
    requires cur < |arena| && IndicesIn(open, |arena|)
    ensures AddedChildren(grid, ms, target, arena, cur, Expand(grid, target, arena, open, cur, ms).0)
    decreases |ms|
  {
    if ms != [] {
      var init := ms[..|ms| - 1];
      var m := ms[|ms| - 1];
      ExpandChildren(grid, target, arena, open, cur, init);
      var prev := Expand(grid, target, arena, open, cur, init);
      var r := Expand(grid, target, arena, open, cur, ms);
      assert r == TryMove(grid, target, prev.0, prev.1, cur, m);
      assert prev.0[cur] == arena[cur];
      forall i | |arena| <= i < |r.0| ensures IsChild(grid, ms, target, arena[cur], cur, r.0[i]) {
        if i < |prev.0| {
          assert r.0[i] == prev.0[i];
          assert AddedChildren(grid, init, target, arena, cur, prev.0);
          assert IsChild(grid, init, target, arena[cur], cur, prev.0[i]);
          var d := Diff(r.0[i].pos, arena[cur].pos);
          var k :| 0 <= k < |init| && init[k] == d;
          assert ms[k] == d;
        } else {
          var np := Add(arena[cur].pos, m);
          assert Passable(grid, np);
          assert r.0 == prev.0 + [Node(np, arena[cur].g + 1, Manhattan(np, target), Some(cur))];
          assert r.0[i].pos == np;
          assert Diff(np, arena[cur].pos) == m;
        }
      }
    }
  }

  /** Expanding a node of a well-formed arena by the run's moves keeps the arena well formed. */
  lemma ExpandPreservesWf(grid: Grid, moves: seq<Pos>, start: Pos, target: Pos, arena: seq<Node>, open: seq<nat>, cur: nat)
    requires WfArena(grid, moves, start, target, arena) && cur < |arena| && IndicesIn(open, |arena|)
    ensures WfArena(grid, moves, start, target, Expand(grid, target, arena, open, cur, moves).0)
  {
    var a := Expand(grid, target, arena, open, cur, moves).0;
    ExpandChildren(grid, target, arena, open, cur, moves);
    forall i | 0 <= i < |a| ensures NodeOk(grid, moves, start, target, a, i) && (a[i].parent.Some? ==> a[i].parent.value < i) {
      if i < |arena| {
        assert a[i] == arena[i];
        assert NodeOk(grid, moves, start, target, arena, i);
        if i > 0 {
          assert a[arena[i].parent.value] == arena[arena[i].parent.value];
        }
      } else {
        assert a[cur] == arena[cur];
        assert AddedChildren(grid, moves, target, arena, cur, a);
        assert IsChild(grid, moves, target, arena[cur], cur, a[i]);
      }
    }
  }

  /**
   * Entries are never replaced: when a move appends a node for a cell that
   * already has an open entry, the old entry stays where it was and the open
   * list then holds two entries for that cell.
   */
  lemma DuplicateEntriesCoexist(grid: Grid, target: Pos, arena: seq<Node>, open: seq<nat>, cur: nat, m: Pos, k: nat)
    requires cur < |arena| && IndicesIn(open, |arena|)
    requires k < |open| && arena[open[k]].pos == Add(arena[cur].pos, m)
    ensures var r := TryMove(grid, target, arena, open, cur, m);
            r.1 != open ==>
              && |r.1| == |open| + 1 && r.1[k] == open[k] && r.0[open[k]] == arena[open[k]]
              && r.0[r.1[|open|]].pos == arena[open[k]].pos
  {
  }

  /**
   * The selected node need not be the entry that is removed: whenever an
   * older entry at the same cell lies ahead of the selected one, `remove`
   * takes that older entry and the selected node stays on the open list,
   * one place further forward.
   */
  lemma RemovalMayKeepSelected(arena: seq<Node>, open: seq<nat>)
    requires IndicesIn(open, |arena|) && |open| > 0
    requires var k := FirstMin(arena, open);
             exists j :: 0 <= j < k && arena[open[j]].pos == arena[open[k]].pos
    ensures var k := FirstMin(arena, open);
            var r := RemoveFirstMatch(arena, open, arena[open[k]].pos);
            k > 0 && r[k - 1] == open[k] && |r| == |open| - 1
  {
    var k := FirstMin(arena, open);
    var p := arena[open[k]].pos;
    var r := RemoveFirstMatch(arena, open, p);
    var j :| && 0 <= j < |open| && arena[open[j]].pos == p
             && (forall i :: 0 <= i < j ==> arena[open[i]].pos != p)
             && r == open[..j] + open[j + 1..];
    var older :| 0 <= older < k && arena[open[older]].pos == p;
    assert j <= older;
    assert r[k - 1] == open[j + 1..][k - 1 - j];
  }
}
