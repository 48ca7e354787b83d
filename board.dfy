/** The search's view of the rules engine: the tree of positions reachable by
    legal moves, and one mutable board that walks it with push and pop. */
module GameBoard {
  import opened Evaluation

  /** A move, identified by its UCI text; the search never looks inside it. */
  datatype Move = Move(uci: string)

  /** A position and its legal moves in the engine's enumeration order, each
      with the position it leads to. */
  datatype GameTree = Node(pos: Position, edges: seq<Edge>)
  datatype Edge = Edge(move: Move, child: GameTree)

  /** `path` is a sequence of edge indices that can be followed from `t`. */
  ghost predicate ValidPath(t: GameTree, path: seq<nat>)
    decreases |path|, 0
  {
    path == [] || (ValidPath(t, path[..|path| - 1]) && path[|path| - 1] < |At(t, path[..|path| - 1]).edges|)
  }

  /** The node reached from `t` by following `path`. */
  function At(t: GameTree, path: seq<nat>): GameTree
    requires ValidPath(t, path)
    decreases |path|, 1
  {
    if path == [] then t else At(t, path[..|path| - 1]).edges[path[|path| - 1]].child
  }

  /** A board shared by the whole search: the root position and the stack of
      moves pushed since, each recorded as the index of the move in the
      legal-move list of the position where it was pushed. */
  class Board {
    const root: GameTree
    var stack: seq<nat>

    ghost predicate Valid()
      reads this
    {
      ValidPath(root, stack)
    }

    /** The position the board currently shows. */
    function Current(): GameTree
      reads this
      requires Valid()
    {
      At(root, stack)
    }

    constructor (t: GameTree)
      ensures Valid() && root == t && stack == [] && Current() == t
    {
      root := t;
      stack := [];
    }

    /** `board.push(move)` for the `k`-th legal move. */
    method Push(k: nat)
      requires Valid() && k < |Current().edges|
      modifies this
      ensures Valid()
      ensures stack == old(stack) + [k]
      ensures Current() == old(Current()).edges[k].child
    {
      stack := stack + [k];
      assert stack[..|stack| - 1] == old(stack);
    }

    /** `board.pop()`: takes back the last move pushed. */
    method Pop()
      requires Valid() && stack != []
      modifies this
      ensures Valid()
      ensures stack == old(stack)[..|old(stack)| - 1]
    {
      stack := stack[..|stack| - 1];
    }
  }
}
