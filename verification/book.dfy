/**
 * The opening book: an immutable forest of recorded move sequences. The
 * controller's cursor is the list of nodes it may currently play or match,
 * always the root list or the children of some node below it.
 */
module Book {
  import opened Wrappers
  import opened Chess

  /** `bookMove`: a recorded move, the side that made it, and its continuations. */
  datatype BookNode = BookNode(start: int, target: int, color: Color, children: seq<BookNode>)

  /** `bookMove` equality: the key (start, target, color); children are not compared. */
  predicate Matches(n: BookNode, start: int, target: int, color: Color) {
    n.start == start && n.target == target && n.color == color
  }

  /** `std::find` over a node list: the first index whose key matches, if any. */
  function FindMatch(nodes: seq<BookNode>, start: int, target: int, color: Color): (r: Option<nat>)
    ensures r.None? <==> forall i :: 0 <= i < |nodes| ==> !Matches(nodes[i], start, target, color)
    ensures r.Some? ==> r.value < |nodes| && Matches(nodes[r.value], start, target, color)
    ensures r.Some? ==> forall j :: 0 <= j < r.value ==> !Matches(nodes[j], start, target, color)
  {
    if nodes == [] then None
    else if Matches(nodes[0], start, target, color) then Some(0)
    else match FindMatch(nodes[1..], start, target, color)
      case None => None
      case Some(i) => Some(i + 1)
  }

  /** `cursor` is `forest` itself or the children list of a node somewhere below it. */
  ghost predicate Reachable(forest: seq<BookNode>, cursor: seq<BookNode>)
    decreases forest
  {
    cursor == forest || exists i :: 0 <= i < |forest| && Reachable(forest[i].children, cursor)
  }

  /** Stepping into a child's children keeps the cursor inside the book. */
  lemma {:induction false} ReachableStep(forest: seq<BookNode>, cursor: seq<BookNode>, i: nat)
    requires Reachable(forest, cursor)
    requires i < |cursor|
    ensures Reachable(forest, cursor[i].children)
    decreases forest
  {
    if cursor == forest {
      assert Reachable(forest[i].children, cursor[i].children);
    } else {
      var j :| 0 <= j < |forest| && Reachable(forest[j].children, cursor);
      ReachableStep(forest[j].children, cursor, i);
    }
  }
}
