/**
 * The `AStar` object of alg.py: a grid, two endpoints, the move table and
 * the open list, closed list and path that its methods update in place.
 * Node objects live in `arena`; lists hold arena indices.
 */
module AStarSearch {
  import opened Wrappers
  import opened Nodes
  import opened Arena
  import opened Frontier

  /**
   * What `find_path` returns: the path, or `None` once the open list is
   * empty; `OutOfFuel` is the model's own case for a run cut off by its
   * step bound.
   */
  datatype Outcome = Found(path: seq<Pos>) | NoPath | OutOfFuel

  class AStar {
    const grid: Grid
    const startPos: Pos
    const targetPos: Pos
    const moves: seq<Pos>
    var arena: seq<Node>
    var openList: seq<nat>
    var closedList: seq<nat>
    var path: seq<Pos>

    ghost predicate Valid()
      reads this
    {
      && WfArena(grid, moves, startPos, targetPos, arena)
      && IndicesIn(openList, |arena|)
      && IndicesIn(closedList, |arena|)
    }

    constructor (grid: Grid, startPos: Pos, targetPos: Pos, diagonal: bool)
      ensures this.grid == grid && this.startPos == startPos && this.targetPos == targetPos
      ensures moves == MoveSet(diagonal)
      ensures arena == [] && openList == [] && closedList == [] && path == []
      ensures Valid()
    {
      this.grid := grid;
      this.startPos := startPos;
      this.targetPos := targetPos;
      openList := [];
      closedList := [];
      path := [];
      moves := if diagonal then MOVES else MOVES[..4];
      arena := [];
    }

    /**
     * For each move in order: a walkable in-bounds neighbour of node `cur`
     * becomes a child that is appended to the open list unless an entry at
     * its position already exists with an `f` no larger.
     */
    method AddNeighbors(cur: nat)
      requires Valid() && cur < |arena|
      modifies this`arena, this`openList
      ensures Valid()
      ensures (arena, openList) == Expand(grid, targetPos, old(arena), old(openList), cur, moves)
    {
      for i := 0 to |moves|
        invariant (arena, openList) == Expand(grid, targetPos, old(arena), old(openList), cur, moves[..i])
      {
        assert moves[..i + 1][..i] == moves[..i];
        ghost var before := (arena, openList);
        var move := moves[i];
        var newPos := Add(arena[cur].pos, move);
        if 0 <= newPos.row < |grid| && 0 <= newPos.col < |grid[0]| {
          if grid[newPos.row][newPos.col] == 0 {
            var gCost := arena[cur].g + 1;
            var hCost := Manhattan(newPos, targetPos);
            var newNode := Node(newPos, gCost, hCost, Some(cur));
            var first := FirstMatch(arena, openList, newPos);
            if first.None? || newNode.F() < arena[openList[first.value]].F() {
              openList := openList + [|arena|];
              arena := arena + [newNode];
            }
          }
        }
        assert (arena, openList) == TryMove(grid, targetPos, before.0, before.1, cur, move);
      }
      assert moves[..|moves|] == moves;
      ExpandPreservesWf(grid, moves, startPos, targetPos, old(arena), old(openList), cur);
    }

    /**
     * One selection step of the search loop: take the first open entry of
     * least `f`, remove the first open entry that has its position (which
     * may be an older entry at the same cell), and append it to the closed list.
     */
    method SettleNext() returns (currNode: nat)
      requires Valid() && openList != []
      modifies this`openList, this`closedList
      ensures Valid() && arena == old(arena)
      ensures currNode == old(openList)[FirstMin(arena, old(openList))]
      ensures openList == RemoveFirstMatch(arena, old(openList), arena[currNode].pos)
      ensures closedList == old(closedList) + [currNode]
    {
      var k := FirstMin(arena, openList);
      currNode := openList[k];
      assert arena[openList[k]].pos == arena[currNode].pos;
      openList := RemoveFirstMatch(arena, openList, arena[currNode].pos);
      closedList := closedList + [currNode];
    }

    /**
     * Walks parent links from node `goal`, appending each position, then
     * appends the start position and reverses the list in place.
     */
    method ReconstructPath(goal: nat)
      requires Valid() && goal < |arena|
      modifies this`path
      ensures path == Reverse(old(path) + Chain(arena, goal) + [startPos])
      ensures old(path) == [] && arena[goal].pos == targetPos ==>
                ReachedBy(grid, moves, startPos, targetPos, arena, goal, path)
      ensures old(path) == [] && goal == 0 ==> path == [startPos]
    {
      var curr: nat := goal;
      while arena[curr].parent.Some?
        invariant curr < |arena| && ParentsEarlier(arena)
        invariant path + Chain(arena, curr) == old(path) + Chain(arena, goal)
        decreases curr
      {
        path := path + [arena[curr].pos];
        curr := arena[curr].parent.value;
      }
      path := path + [startPos];
      path := Reverse(path);
      if old(path) == [] && arena[goal].pos == targetPos {
        ReconstructedRoute(grid, moves, startPos, targetPos, arena, goal);
      }
      if old(path) == [] && goal == 0 {
        assert NodeOk(grid, moves, startPos, targetPos, arena, 0);
        assert path == Reverse([startPos]);
      }
    }

    /**
     * The search loop, run for at most `fuel` iterations on a fresh object.
     * Each iteration takes the first open entry of least `f`, removes the
     * first open entry at its position, records it as closed, and either
     * returns the path to it (when it is at the target) or expands it.
     */
    method FindPath(fuel: nat) returns (r: Outcome)
      requires Valid()
      requires arena == [] && openList == [] && closedList == [] && path == []
      modifies this
      ensures Valid()
      ensures r.Found? ==>
                && r.path == path && |closedList| > 0
                && ReachedBy(grid, moves, startPos, targetPos, arena, closedList[|closedList| - 1], path)
      ensures r.Found? ==> forall k :: 0 <= k < |closedList| - 1 ==> arena[closedList[k]].pos != targetPos
      ensures !r.Found? ==> forall k :: 0 <= k < |closedList| ==> arena[closedList[k]].pos != targetPos
      ensures r.NoPath? ==> openList == []
      ensures r.OutOfFuel? ==> openList != []
      ensures startPos == targetPos && fuel > 0 ==> r == Found([startPos])
    {
      var startNode := StartNode(startPos, targetPos);
      openList := openList + [|arena|];
      arena := arena + [startNode];
      assert NodeOk(grid, moves, startPos, targetPos, arena, 0);
      var fuelLeft := fuel;
      while openList != [] && fuelLeft > 0
        invariant Valid() && path == []
        invariant |closedList| + fuelLeft == fuel
        invariant startPos == targetPos ==> openList == [0] && closedList == []
        invariant forall k :: 0 <= k < |closedList| ==> arena[closedList[k]].pos != targetPos
        decreases fuelLeft
      {
        var currNode := SettleNext();
        if startPos == targetPos {
          assert currNode == 0 && NodeOk(grid, moves, startPos, targetPos, arena, 0);
        }

        if arena[currNode].pos == targetPos {
          ReconstructPath(currNode);
          return Found(path);
        }

        ghost var before := arena;
        AddNeighbors(currNode);
        ExtensionKeepsNodes(before, arena, closedList);
        fuelLeft := fuelLeft - 1;
      }
      if openList == [] {
        return NoPath;
      }
      return OutOfFuel;
    }
  }
}
