/**
 * The nodes created by one search, kept in an arena addressed by index, and
 * the parent chains through it. A node's parent always sits at a smaller
 * index, so every chain is finite.
 */
module Arena {
  import opened Wrappers
  import opened Nodes

  /** Every entry of `idx` addresses a node of an arena of size `n`. */
  predicate IndicesIn(idx: seq<nat>, n: nat) {
    forall k :: 0 <= k < |idx| ==> idx[k] < n
  }

  predicate ParentsEarlier(arena: seq<Node>) {
    forall i :: 0 <= i < |arena| && arena[i].parent.Some? ==> arena[i].parent.value < i
  }

  /** The node a run starts from: at `start`, no cost so far, no parent. */
  /** Extending the arena leaves the nodes that indices into the old arena address unchanged. */
  lemma ExtensionKeepsNodes(old0: seq<Node>, arena: seq<Node>, idx: seq<nat>)
    requires |old0| <= |arena| && arena[..|old0|] == old0 && IndicesIn(idx, |old0|)
    ensures IndicesIn(idx, |arena|)
    ensures forall k :: 0 <= k < |idx| ==> arena[idx[k]] == old0[idx[k]]
  {
    forall k | 0 <= k < |idx|
      ensures arena[idx[k]] == old0[idx[k]]
    {
      assert arena[..|old0|][idx[k]] == arena[idx[k]];
    }
  }

  function StartNode(start: Pos, target: Pos): Node {
    Node(start, 0, Manhattan(start, target), None)
  }

  /**
   * `n` is a child built from the node `par` at index `parIdx`: a walkable
   * cell one move away, one step dearer, with the heuristic to `target`.
   */
  predicate IsChild(grid: Grid, moves: seq<Pos>, target: Pos, par: Node, parIdx: nat, n: Node) {
    && Passable(grid, n.pos)
    && Diff(n.pos, par.pos) in moves
    && n.g == par.g + 1
    && n.h == Manhattan(n.pos, target)
    && n.parent == Some(parIdx)
  }

  predicate NodeOk(grid: Grid, moves: seq<Pos>, start: Pos, target: Pos, arena: seq<Node>, i: nat)
    requires i < |arena|
  {
    if i == 0 then arena[0] == StartNode(start, target)
    else
      match arena[i].parent
      case None => false
      case Some(p) => p < i && IsChild(grid, moves, target, arena[p], p, arena[i])
  }

  /** The arena invariant of a run: the start node first, then only children of earlier nodes. */
  predicate WfArena(grid: Grid, moves: seq<Pos>, start: Pos, target: Pos, arena: seq<Node>) {
    && ParentsEarlier(arena)
    && forall i :: 0 <= i < |arena| ==> NodeOk(grid, moves, start, target, arena, i)
  }

  /** The positions met while walking parent links from node `i`, leaving out the parentless node. */
  function Chain(arena: seq<Node>, i: nat): seq<Pos>
    requires ParentsEarlier(arena) && i < |arena|
    decreases i
  {
    match arena[i].parent
    case None => []
    case Some(p) => [arena[i].pos] + Chain(arena, p)
  }

  /** The parentless node at which the walk from `i` stops. */
  function Root(arena: seq<Node>, i: nat): (r: nat)
    requires ParentsEarlier(arena) && i < |arena|
    ensures r <= i && arena[r].parent.None?
    decreases i
  {
    match arena[i].parent
    case None => i
    case Some(p) => Root(arena, p)
  }

  /** The route from `start` to node `i`, in walking order. */
  function PathTo(arena: seq<Node>, start: Pos, i: nat): seq<Pos>
    requires ParentsEarlier(arena) && i < |arena|
    decreases i
  {
    match arena[i].parent
    case None => [start]
    case Some(p) => PathTo(arena, start, p) + [arena[i].pos]
  }

  function Reverse<T>(s: seq<T>): (r: seq<T>)
    ensures |r| == |s|
    ensures forall k :: 0 <= k < |s| ==> r[k] == s[|s| - 1 - k]
  {
    if s == [] then [] else Reverse(s[1..]) + [s[0]]
  }

  /**
   * A route from `start` to `target`: consecutive cells differ by one of
   * `moves`, and every cell after the first is walkable.
   */
  predicate IsRoute(grid: Grid, moves: seq<Pos>, start: Pos, target: Pos, path: seq<Pos>) {
    && |path| > 0
    && path[0] == start
    && path[|path| - 1] == target
    && (forall k :: 0 <= k < |path| - 1 ==> Diff(path[k + 1], path[k]) in moves)
    && (forall k :: 0 < k < |path| ==> Passable(grid, path[k]))
  }

  /**
   * In a well-formed arena, walking parent links from any node ends at the
   * start node, and the node's `g` is the number of links walked.
   */
  lemma {:induction false} ChainReachesStart(grid: Grid, moves: seq<Pos>, start: Pos, target: Pos, arena: seq<Node>, i: nat)
    requires WfArena(grid, moves, start, target, arena) && i < |arena|
    ensures Root(arena, i) == 0 && arena[0] == StartNode(start, target)
    ensures |Chain(arena, i)| == arena[i].g
  {
    assert NodeOk(grid, moves, start, target, arena, i);
    if i > 0 {
      var p := arena[i].parent.value;
      ChainReachesStart(grid, moves, start, target, arena, p);
    }
  }

  /** Collecting the chain, adding `start` and reversing gives the route to node `i`. */
  lemma {:induction false} ReverseChain(arena: seq<Node>, start: Pos, i: nat)
    requires ParentsEarlier(arena) && i < |arena|
    ensures Reverse(Chain(arena, i) + [start]) == PathTo(arena, start, i)
    decreases i
  {
    match arena[i].parent
    case None =>
      assert Chain(arena, i) + [start] == [start];
    case Some(p) =>
      var s := Chain(arena, i) + [start];
      assert s[1..] == Chain(arena, p) + [start];
      ReverseChain(arena, start, p);
  }

  /**
   * The route to any node of a well-formed arena starts at `start`, ends at
   * the node, steps only by `moves` over walkable cells, and has `g + 1` cells.
   */
  lemma {:induction false} PathToIsRoute(grid: Grid, moves: seq<Pos>, start: Pos, target: Pos, arena: seq<Node>, i: nat)
    requires WfArena(grid, moves, start, target, arena) && i < |arena|
    ensures IsRoute(grid, moves, start, arena[i].pos, PathTo(arena, start, i))
    ensures |PathTo(arena, start, i)| == arena[i].g + 1
    decreases i
  {
    assert NodeOk(grid, moves, start, target, arena, i);
    if i > 0 {
      var p := arena[i].parent.value;
      PathToIsRoute(grid, moves, start, target, arena, p);
      var prev := PathTo(arena, start, p);
      var path := prev + [arena[i].pos];
      assert PathTo(arena, start, i) == path;
      forall k | 0 <= k < |path| - 1 ensures Diff(path[k + 1], path[k]) in moves {
        if k < |prev| - 1 {
          assert path[k] == prev[k] && path[k + 1] == prev[k + 1];
        } else {
          assert path[k] == arena[p].pos && path[k + 1] == arena[i].pos;
        }
      }
      forall k | 0 < k < |path| ensures Passable(grid, path[k]) {
        if k < |prev| {
          assert path[k] == prev[k];
        }
      }
    }
  }

  /**
   * `path` is the route that reaches the target through node `goal`: it
   * starts at `start`, ends at `target`, steps by `moves` over walkable
   * cells, and has one cell more than the goal's `g`.
   */
  predicate ReachedBy(grid: Grid, moves: seq<Pos>, start: Pos, target: Pos, arena: seq<Node>, goal: nat, path: seq<Pos>)
    requires ParentsEarlier(arena)
  {
    && goal < |arena|
    && arena[goal].pos == target
    && path == PathTo(arena, start, goal)
    && |path| == arena[goal].g + 1
    && IsRoute(grid, moves, start, target, path)
  }

  /**
   * What `find_path` builds for a goal node of a well-formed arena, from an
   * empty path list, is the route through that node.
   */
  lemma ReconstructedRoute(grid: Grid, moves: seq<Pos>, start: Pos, target: Pos, arena: seq<Node>, goal: nat)
    requires WfArena(grid, moves, start, target, arena) && goal < |arena| && arena[goal].pos == target
    ensures ReachedBy(grid, moves, start, target, arena, goal, Reverse([] + Chain(arena, goal) + [start]))
  {
    assert [] + Chain(arena, goal) + [start] == Chain(arena, goal) + [start];
    ReverseChain(arena, start, goal);
    PathToIsRoute(grid, moves, start, target, arena, goal);
  }
}
