/** The snake: its body, tail first and head last, and its heading. */
module Snakes {
  import opened Grid

  /** No cell occurs twice. */
  predicate NoDuplicates(s: seq<Coord>)
  {
    forall i, j :: 0 <= i < j < |s| ==> s[i] != s[j]
  }

  /** Consecutive body cells are the same cell or share a side. */
  predicate Chained(s: seq<Coord>)
  {
    forall i :: 0 <= i < |s| - 1 ==> s[i] == s[i + 1] || Adjacent(s[i], s[i + 1])
  }

  /** The body after one `move` to `newHead`: every cell takes the place of the one
      ahead of it (the tail cell is dropped), then the last cell is overwritten with
      the new head, or, when growing, the new head is appended after the old head. */
  function Moved(body: seq<Coord>, newHead: Coord, grow: bool): (r: seq<Coord>)
    requires |body| > 0
    ensures |r| == |body| + (if grow then 1 else 0)
    ensures r[|r| - 1] == newHead
  {
    body[1..] + (if grow then [body[|body| - 1], newHead] else [newHead])
  }

  /** A snake of one cell becomes the new head alone, or the old and the new head. */
  lemma MovedSingle(body: seq<Coord>, newHead: Coord, grow: bool)
    requires |body| == 1
    ensures Moved(body, newHead, grow) == if grow then [body[0], newHead] else [newHead]
  {
  }

  /** The cells of the moved body: the new head, every old cell but the tail
      position, and on growth the old head once more; the tail cell is not kept. */
  lemma MovedCells(body: seq<Coord>, newHead: Coord, grow: bool, c: Coord)
    requires |body| > 0
    ensures c in Moved(body, newHead, grow) <==>
              c == newHead || c in body[1..] || (grow && c == body[|body| - 1])
  {
  }

  /** On growth with at least two cells, the old head is stored twice: at the
      position the shift loop left it in and again before the new head. */
  lemma GrowthRepeatsOldHead(body: seq<Coord>, newHead: Coord)
    requires |body| >= 2
    ensures var r := Moved(body, newHead, true);
      r[|body| - 2] == r[|body| - 1] == body[|body| - 1]
    ensures !NoDuplicates(Moved(body, newHead, true))
  {
  }

  /** A move to a cell beside the head keeps the body chained. */
  lemma MovedChained(body: seq<Coord>, newHead: Coord, grow: bool)
    requires |body| > 0 && Chained(body)
    requires Adjacent(body[|body| - 1], newHead)
    ensures Chained(Moved(body, newHead, grow))
  {
  }

  /** `Snake` of the source: the head, the body (tail first, head last) and the heading. */
  class Snake {
    var head: Coord
    var body: seq<Coord>
    var direction: Direction

    ghost predicate Valid()
      reads this
    {
      |body| > 0 && head == body[|body| - 1]
    }

    /** The source never initialises the heading, so the new snake's is arbitrary. */
    constructor (headCoords: Coord)
      ensures Valid()
      ensures head == headCoords && body == [headCoords]
    {
      head := headCoords;
      body := [headCoords];
      direction := *;
    }

    /** The cell the head would enter next; it reads the snake and changes nothing. */
    function NextHeadLocation(): (r: Coord)
      reads this
      ensures NextCell(r, Opposite(direction)) == head
    {
      StepBack(head, direction);
      NextCell(head, direction)
    }

    method SetDirection(dir: Direction)
      modifies this`direction
      ensures direction == dir
    {
      direction := dir;
    }

    /** One step towards the heading, with no collision or food check. */
    method Move(hasEatenFood: bool)
      requires Valid()
      modifies this
      ensures Valid()
      ensures head == NextCell(old(head), old(direction))
      ensures body == Moved(old(body), head, hasEatenFood)
      ensures direction == old(direction)
    {
      head := NextHeadLocation();
      var i := 1;
      while i < |body|
        invariant 1 <= i <= |body| == |old(body)|
        invariant head == NextCell(old(head), old(direction)) && direction == old(direction)
        invariant forall k :: 0 <= k < i - 1 ==> body[k] == old(body)[k + 1]
        invariant forall k :: i - 1 <= k < |body| ==> body[k] == old(body)[k]
      {
        body := body[i - 1 := body[i]];
        i := i + 1;
      }
      assert body == old(body)[1..] + [old(body)[|old(body)| - 1]];
      if hasEatenFood {
        body := body + [head];
      } else {
        body := body[|body| - 1 := head];
      }
    }

    /** Linear search of the body for `here`, stopping at the first match. */
    method HasSnake(here: Coord) returns (found: bool)
      ensures found <==> here in body
    {
      found := false;
      var i := 0;
      while i < |body|
        invariant 0 <= i <= |body|
        invariant here !in body[..i]
      {
        if here == body[i] {
          found := true;
          break;
        }
        i := i + 1;
      }
      assert !found ==> body[..i] == body;
    }
  }
}
