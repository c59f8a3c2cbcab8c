/** The board object the search mutates in place: a stack of positions
    descending from the position it was set up with.  `Push` plays a legal
    move (descends to a child), `Pop` takes back the most recent one. */
module Chessboard {
  import opened GameTree

  class Board {
    /** stack[0] is the position the board was set up with; every later entry
        is reached from the one before it by the move recorded in moveStack. */
    var stack: seq<Position>
    var moveStack: seq<nat>
    /** Every move stack that a Push has produced, in order: the nodes the
        search has visited. */
    ghost var visited: seq<seq<nat>>

    ghost predicate Valid()
      reads this
    {
      |stack| == |moveStack| + 1 &&
      forall k :: 0 <= k < |moveStack| ==>
        moveStack[k] < |stack[k].children| && stack[k + 1] == stack[k].children[moveStack[k]]
    }

    /** The position currently on the board. */
    function Current(): Position
      reads this
      requires Valid()
    {
      stack[|stack| - 1]
    }

    constructor (root: Position)
      ensures Valid() && Current() == root
      ensures stack == [root] && moveStack == [] && visited == []
    {
      stack := [root];
      moveStack := [];
      visited := [];
    }

    /** Plays legal move number `move` of the current position. */
    method Push(move: nat)
      requires Valid() && move < |Current().children|
      modifies this
      ensures Valid()
      ensures stack == old(stack) + [old(Current()).children[move]]
      ensures moveStack == old(moveStack) + [move]
      ensures Current() == old(Current()).children[move]
      ensures visited == old(visited) + [moveStack]
    {
      stack := stack + [Current().children[move]];
      moveStack := moveStack + [move];
      visited := visited + [moveStack];
    }

    /** Takes back the most recent move and returns it. */
    method Pop() returns (move: nat)
      requires Valid() && moveStack != []
      modifies this
      ensures Valid()
      ensures move == old(moveStack)[|old(moveStack)| - 1]
      ensures stack == old(stack)[..|old(stack)| - 1]
      ensures moveStack == old(moveStack)[..|old(moveStack)| - 1]
      ensures visited == old(visited)
    {
      move := moveStack[|moveStack| - 1];
      stack := stack[..|stack| - 1];
      moveStack := moveStack[..|moveStack| - 1];
    }
  }
}
