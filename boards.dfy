/** The board: grid size, food, the starting cell and the snake; one game tick. */
module Boards {
  import opened Grid
  import opened Snakes

  /** The playable cells: column and row 1 up to and including `g - 1`. */
  predicate Interior(g: u32, c: Coord)
  {
    1 <= c.x < g && 1 <= c.y < g
  }

  /** Every body cell is playable. */
  predicate InPlay(g: u32, body: seq<Coord>)
  {
    forall c :: c in body ==> Interior(g, c)
  }

  /** The test of `is_collision`: the walls (row or column 0, anything at or past
      `g`) and every body cell, tail and neck included. */
  predicate Collides(g: u32, body: seq<Coord>, c: Coord)
  {
    c.x <= 0 || c.x >= g || c.y <= 0 || c.y >= g || c in body
  }

  /** What one tick of `update` does to the body and the food. */
  datatype Tick = Blocked | Advanced(body: seq<Coord>, food: Coord)

  /** One call of `update` on a body (head last) heading `dir` with food at `food`;
      `respawn` stands for the cell `spawn_new_food` settles on when the food is eaten. */
  function Step(g: u32, body: seq<Coord>, dir: Direction, food: Coord, respawn: Coord): (t: Tick)
    requires |body| > 0
    ensures var next := NextCell(body[|body| - 1], dir);
      t.Blocked? <==> Collides(g, body, next)
    ensures var next := NextCell(body[|body| - 1], dir);
      t.Advanced? ==>
        && Interior(g, next) && next !in body
        && |t.body| == |body| + (if next == food then 1 else 0)
        && t.body[|t.body| - 1] == next
        && t.food == (if next == food then respawn else food)
  {
    var next := NextCell(body[|body| - 1], dir);
    if Collides(g, body, next) then Blocked
    else if next == food then Advanced(Moved(body, next, true), respawn)
    else Advanced(Moved(body, next, false), food)
  }

  /** A snake of at least two cells that turns back on itself runs into its neck,
      whether or not the last step grew it. */
  lemma ReverseIsBlocked(g: u32, prev: seq<Coord>, d: Direction, grow: bool,
                         food: Coord, respawn: Coord)
    requires |prev| > 0 && (|prev| >= 2 || grow)
    ensures var body := Moved(prev, NextCell(prev[|prev| - 1], d), grow);
      Step(g, body, Opposite(d), food, respawn) == Blocked
  {
  }

  /** A successful tick keeps every body cell playable and the body chained, and
      leaves the food on a playable cell when the respawned cell is one. */
  lemma StepKeepsPlay(g: u32, body: seq<Coord>, dir: Direction, food: Coord, respawn: Coord)
    requires |body| > 0 && InPlay(g, body) && Chained(body) && Interior(g, food)
    requires NextCell(body[|body| - 1], dir) == food ==> Interior(g, respawn)
    ensures var t := Step(g, body, dir, food, respawn);
      t.Advanced? ==> InPlay(g, t.body) && Chained(t.body) && Interior(g, t.food)
  {
  }

  /** Case in which the code places food under the head: on a grid of size 3, a
      one-cell snake at (1, 1) heading east eats the food at (2, 1); the cell (2, 1)
      does not collide with the body before the move, so the respawn may draw it,
      and after the tick the food lies on the new head. */
  lemma FoodCanRespawnOnHead()
    ensures var g, body, food := 3, [Coord(1, 1)], Coord(2, 1);
      && !Collides(g, body, food)
      && Step(g, body, East, food, food) == Advanced([Coord(1, 1), Coord(2, 1)], Coord(2, 1))
      && food in Step(g, body, East, food, food).body
  {
  }

  /** When a tick eats the food, some cell is left free against the body after the
      move, so a respawn drawn after the move can stop. */
  ghost predicate RespawnPossible(g: u32, body: seq<Coord>, dir: Direction, food: Coord)
    requires |body| > 0
  {
    var next := NextCell(body[|body| - 1], dir);
    !Collides(g, body, next) && next == food ==>
      exists c :: !Collides(g, Moved(body, next, true), c)
  }

  /** With food off the body, drawing the respawned cell against the body after the
      move keeps the food off the body. */
  lemma SpawnAfterMoveKeepsFoodOff(g: u32, body: seq<Coord>, dir: Direction,
                                   food: Coord, respawn: Coord)
    requires |body| > 0 && food !in body
    requires var next := NextCell(body[|body| - 1], dir);
      next == food ==> !Collides(g, Moved(body, next, true), respawn)
    ensures var t := Step(g, body, dir, food, respawn);
      t.Advanced? ==> t.food !in t.body
  {
  }

  /** A board whose snake starts on a playable cell can place food exactly when
      the grid has size 3 or more. */
  lemma FreshBoardHasFreeCell(g: u32, init: Coord)
    requires Interior(g, init)
    ensures (exists c :: !Collides(g, [init], c)) <==> 3 <= g
  {
    if 3 <= g {
      var c := if init == Coord(1, 1) then Coord(2, 1) else Coord(1, 1);
      assert !Collides(g, [init], c);
    } else {
      forall c
        ensures Collides(g, [init], c)
      {
      }
    }
  }

  /** A grid of size 11 and a head at (1, 1) heading west
      hits the wall at column 0. */
  lemma WallAhead(food: Coord, respawn: Coord)
    ensures Step(11, [Coord(1, 1)], West, food, respawn) == Blocked
  {
  }

  /** A grid of size 5, a head at (2, 2) heading east and
      food at (3, 2); the tick eats the food and the snake grows to two cells. */
  lemma EatAhead(respawn: Coord)
    ensures Step(5, [Coord(2, 2)], East, Coord(3, 2), respawn)
              == Advanced([Coord(2, 2), Coord(3, 2)], respawn)
  {
  }

  /** `Board` of the source. */
  class Board {
    const gridSize: u32
    const initCoords: Coord
    var food: Coord
    var snake: Snake

    /** The state every public operation keeps: the snake well formed, chained and on
        playable cells, and the food on a playable cell. */
    ghost predicate Valid()
      reads this, snake
    {
      && snake.Valid()
      && 3 <= gridSize
      && Interior(gridSize, initCoords)
      && InPlay(gridSize, snake.body)
      && Chained(snake.body)
      && Interior(gridSize, food)
    }

    /** The source does not check that the starting cell is playable. */
    constructor (g: u32, init: Coord)
      requires Interior(g, init)
      requires exists c :: !Collides(g, [init], c)
      ensures Valid() && fresh(snake)
      ensures gridSize == g && initCoords == init
      ensures snake.body == [init] && snake.head == init
      ensures !Collides(g, snake.body, food)
    {
      gridSize := g;
      initCoords := init;
      snake := new Snake(init);
      new;
      FreshBoardHasFreeCell(g, init);
      ghost var free :| !Collides(g, [init], free);
      assert !Collides(gridSize, snake.body, free);
      SpawnNewFood();
    }

    /** Rejection sampling of `spawn_new_food`: the loop can only stop on a drawn
        cell (both coordinates below the grid size) that does not collide. */
    method SpawnNewFood()
      requires exists c :: !Collides(gridSize, snake.body, c)
      modifies this`food
      ensures !Collides(gridSize, snake.body, food)
    {
      var c: Coord :| c.x < gridSize && c.y < gridSize && !Collides(gridSize, snake.body, c);
      food := c;
    }

    method UpdateSnakeDir(dir: Direction)
      requires Valid()
      modifies snake`direction
      ensures Valid() && snake.direction == dir
    {
      snake.SetDirection(dir);
    }

    function IsCollision(c: Coord): (r: bool)
      reads this, snake
      ensures !r <==> Interior(gridSize, c) && c !in snake.body
    {
      Collides(gridSize, snake.body, c)
    }

    /** One tick: stop on a collision, respawn the food (against the body before the
        move) when it is eaten, then move. */
    method Update() returns (ok: bool)
      requires Valid()
      modifies this, snake
      ensures Valid() && snake == old(snake)
      ensures snake.direction == old(snake.direction)
      ensures Step(gridSize, old(snake.body), old(snake.direction), old(food), food)
                == if ok then Advanced(snake.body, food) else Blocked
      ensures !ok ==> snake.body == old(snake.body) && snake.head == old(snake.head) && food == old(food)
      ensures var next := NextCell(old(snake.head), old(snake.direction));
        ok && next == old(food) ==> !Collides(gridSize, old(snake.body), food)
    {
      var next := snake.NextHeadLocation();
      if IsCollision(next) {
        return false;
      }
      ghost var body, dir, oldFood := snake.body, snake.direction, food;
      var hasEatenFood := false;
      if next == food {
        SpawnNewFood();
        hasEatenFood := true;
      }
      snake.Move(hasEatenFood);
      ok := true;
      StepKeepsPlay(gridSize, body, dir, oldFood, food);
    }

    /** The tick with the respawn moved after the move, so that the new food is
        drawn against the body the snake has after the tick. */
    method UpdateCorrected() returns (ok: bool)
      requires Valid() && food !in snake.body
      requires RespawnPossible(gridSize, snake.body, snake.direction, food)
      modifies this, snake
      ensures Valid() && snake == old(snake) && food !in snake.body
      ensures snake.direction == old(snake.direction)
      ensures Step(gridSize, old(snake.body), old(snake.direction), old(food), food)
                == if ok then Advanced(snake.body, food) else Blocked
      ensures !ok ==> snake.body == old(snake.body) && snake.head == old(snake.head) && food == old(food)
      ensures var next := NextCell(old(snake.head), old(snake.direction));
        ok && next == old(food) ==> !Collides(gridSize, snake.body, food)
    {
      var next := snake.NextHeadLocation();
      if IsCollision(next) {
        return false;
      }
      ghost var body, dir, oldFood := snake.body, snake.direction, food;
      var hasEatenFood := next == food;
      snake.Move(hasEatenFood);
      if hasEatenFood {
        SpawnNewFood();
      }
      ok := true;
      StepKeepsPlay(gridSize, body, dir, oldFood, food);
      SpawnAfterMoveKeepsFoodOff(gridSize, body, dir, oldFood, food);
    }

    /** A fresh snake at the starting cell and new food; always reports success. */
    method Reset() returns (done: bool)
      requires Valid()
      modifies this
      ensures Valid() && fresh(snake)
      ensures snake.body == [initCoords] && snake.head == initCoords
      ensures !Collides(gridSize, snake.body, food)
      ensures done
    {
      snake := new Snake(initCoords);
      FreshBoardHasFreeCell(gridSize, initCoords);
      SpawnNewFood();
      done := true;
    }
  }
}
