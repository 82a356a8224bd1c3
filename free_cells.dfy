/** When the rejection sampling of `spawn_new_food` can stop: a snake shorter than
    the number of playable cells always leaves one of them free. */
module FreeCells {
  import opened Grid
  import opened Snakes
  import opened Boards

  /** The cells of `s` that satisfy `keep`, in order. */
  function Filter(s: seq<Coord>, keep: Coord -> bool): (r: seq<Coord>)
    ensures |r| <= |s|
    ensures forall c :: c in r <==> c in s && keep(c)
    ensures (exists c :: c in s && !keep(c)) ==> |r| < |s|
  {
    if s == [] then []
    else (if keep(s[0]) then [s[0]] else []) + Filter(s[1..], keep)
  }

  /** The cells of `s` that do not satisfy `keep`, in order. */
  function Reject(s: seq<Coord>, keep: Coord -> bool): seq<Coord>
  {
    Filter(s, c => !keep(c))
  }

  /** Splitting a sequence by a predicate loses and adds no element. */
  lemma {:induction false} FilterSplit(s: seq<Coord>, keep: Coord -> bool)
    ensures |Filter(s, keep)| + |Reject(s, keep)| == |s|
  {
    if s != [] {
      FilterSplit(s[1..], keep);
    }
  }

  /** Fewer than `n` cells cannot cover the cells 1..n of row `y`. */
  lemma {:induction false} RowHasFreeCell(body: seq<Coord>, y: u32, n: nat)
    requires n < U32_LIMIT && |body| < n
    ensures exists x: u32 :: 1 <= x <= n && Coord(x, y) !in body
    decreases n
  {
    var last := Coord(n, y);
    if last in body {
      var rest := Filter(body, c => c != last);
      RowHasFreeCell(rest, y, n - 1);
      var x: u32 :| 1 <= x <= n - 1 && Coord(x, y) !in rest;
      assert Coord(x, y) !in body;
    } else {
      assert 1 <= n && Coord(n, y) !in body;
    }
  }

  /** Fewer than `m * (g - 1)` cells cannot cover the playable cells of rows 1..m. */
  lemma {:induction false} RowsHaveFreeCell(g: u32, body: seq<Coord>, m: nat)
    requires 2 <= g && m < g && |body| < m * (g - 1)
    ensures exists c: Coord :: 1 <= c.x < g && 1 <= c.y <= m && c !in body
    decreases m
  {
    var onRow := (c: Coord) => c.y == m;
    var inRow := Filter(body, onRow);
    var others := Reject(body, onRow);
    FilterSplit(body, onRow);
    if |inRow| < g - 1 {
      RowHasFreeCell(inRow, m, g - 1);
      var x: u32 :| 1 <= x <= g - 1 && Coord(x, m) !in inRow;
      assert Coord(x, m) !in body;
    } else {
      assert |others| < (m - 1) * (g - 1) by {
        assert m * (g - 1) == (m - 1) * (g - 1) + (g - 1);
      }
      RowsHaveFreeCell(g, others, m - 1);
      var c: Coord :| 1 <= c.x < g && 1 <= c.y <= m - 1 && c !in others;
      assert c !in body;
    }
  }

  /** A body shorter than the number of playable cells leaves a cell that does
      not collide, so the respawn loop has a cell it can stop on. */
  lemma FreeCellExists(g: u32, body: seq<Coord>)
    requires 2 <= g && |body| < (g - 1) * (g - 1)
    ensures exists c :: !Collides(g, body, c)
  {
    RowsHaveFreeCell(g, body, g - 1);
    var c: Coord :| 1 <= c.x < g && 1 <= c.y <= g - 1 && c !in body;
    assert !Collides(g, body, c);
  }

  /** A snake at least two cells shorter than the number of playable cells can
      always respawn its food after the move, whatever the tick does. */
  lemma RespawnAfterMoveCanStop(g: u32, body: seq<Coord>, dir: Direction, food: Coord)
    requires 2 <= g && 0 < |body| && |body| + 1 < (g - 1) * (g - 1)
    ensures RespawnPossible(g, body, dir, food)
  {
    var next := NextCell(body[|body| - 1], dir);
    FreeCellExists(g, Moved(body, next, true));
  }
}
