/** The game's objects as the program keeps them: the shared pickup, the
    snake with its body, direction and flags, and processInput.  Each
    mutating method is proved against the value-level rules of module Rules. */
module SnakeGame {
  import opened Grid
  import opened Rules

  /** The food.  Its coordinates are class-level (static) in the program, so
      every copy of a Pickup reads and writes the same cell; one shared object
      passed by reference models that. */
  class Pickup {
    var x: int
    var y: int

    /** Construction relocates the pickup once. */
    constructor (d: Draw)
      ensures (x, y) == Relocate(d)
    {
      x, y := 0, 0;
      new;
      Move(d);
    }

    /** Pickup::move: a fresh cell drawn from the two rand() results, on the
        board, with no regard for where the snake is. */
    method Move(d: Draw)
      modifies this
      ensures (x, y) == Relocate(d) && OnBoard((x, y))
    {
      x := d.rx % BSize;
      y := d.ry % BSize;
    }
  }

  /** The snake.  `body` holds the segments' cells from the head (index 0)
      to the tail (the last index); the head-ward neighbour of segment i is
      segment i-1 and its tail-ward neighbour is segment i+1. */
  class Snake {
    var body: seq<Pos>
    var direction: Pos
    var justAte: bool
    var dead: bool

    /** There is always a head (which is the tail of a one-segment snake). */
    ghost predicate Valid()
      reads this
    {
      |body| >= 1
    }

    /** The snake together with the shared pickup, as a value. */
    ghost function State(p: Pickup): World
      reads this, p
    {
      World(body, direction, justAte, dead, (p.x, p.y))
    }

    /** A single segment at (x, y), heading right, neither fed nor dead. */
    constructor (x: int, y: int)
      ensures Valid() && body == [(x, y)]
      ensures direction == Directions[2] && !justAte && !dead
    {
      body := [(x, y)];
      direction := Directions[2];
      justAte, dead := false, false;
    }

    /** Snake::checkForFood: when the tail is on the pickup, append a new
        segment on that cell behind the tail, flag the growth and relocate
        the pickup; otherwise change nothing. */
    method CheckForFood(p: Pickup, d: Draw)
      requires Valid()
      modifies this, p
      ensures Valid()
      ensures State(p) == Feed(old(State(p)), d)
    {
      var tail := body[|body| - 1];
      if tail.0 == p.x && tail.1 == p.y {
        var newTail := (p.x, p.y);
        body := body + [newTail];
        justAte := true;
        p.Move(d);
      }
    }

    /** Snake::move: walk from the tail to the head moving each segment onto
        its head-ward neighbour's cell (a freshly grown tail is skipped once),
        put the head on its wrapped next cell, then report a collision, or
        else run the food check. */
    method Move(p: Pickup, d: Draw) returns (died: bool)
      requires Valid()
      modifies this, p
      ensures Valid()
      ensures (died, State(p)) == Tick(old(State(p)), d)
    {
      ghost var w := State(p);
      var newX := WrapCoord(body[0].0 + direction.0, BSize);
      var newY := WrapCoord(body[0].1 + direction.1, BSize);
      ghost var moved := Moved(w).body;
      assert (newX, newY) == NextHead(w.body[0], w.direction);
      var i := |body| - 1;
      while i != 0
        modifies this`body, this`justAte
        invariant 0 <= i < |body| == |old(body)|
        invariant justAte == (old(justAte) && i == |body| - 1)
        invariant forall j :: 0 <= j < |body| ==> body[j] == if j <= i then old(body)[j] else moved[j]
        decreases i
      {
        if justAte && i == |body| - 1 {
          justAte := false;
          i := i - 1;
          continue;
        }
        body := body[i := body[i - 1]];
        i := i - 1;
      }
      body := body[0 := (newX, newY)];
      assert State(p) == Moved(w) by {
        assert body == moved;
      }
      died := CheckDeath();
      if died {
        return;
      }
      CheckForFood(p, d);
    }

    /** Snake::checkDeath: walk the segments behind the head looking for one
        on the head's cell. */
    method CheckDeath() returns (hit: bool)
      requires Valid()
      ensures hit == HeadCollides(body)
    {
      var i := 1;
      while i < |body|
        invariant 1 <= i <= |body|
        invariant forall j :: 1 <= j < i ==> body[j] != body[0]
      {
        if body[0].0 == body[i].0 && body[0].1 == body[i].1 {
          return true;
        }
        i := i + 1;
      }
      return false;
    }

    /** Snake::countSnake: the number of segments met walking from the head
        through the tail-ward links until there is none.  With the chain held
        as a sequence, step k of the walk stands for visiting segment k, so the
        loop only counts positions and inspects no segment. */
    method CountSnake() returns (count: int)
      requires Valid()
      ensures count == |body|
    {
      count := 0;
      while count < |body|
        invariant 0 <= count <= |body|
      {
        count := count + 1;
      }
    }
  }

  /** processInput with the key already read: ERR, or any key once the quit
      flag is set, changes nothing; the arrow keys select their direction;
      any other key sets the quit flag and keeps the direction. */
  method ProcessInput(snake: Snake, key: Key)
    modifies snake
    ensures (snake.direction, snake.dead) == Steer(old(snake.direction), old(snake.dead), key)
    ensures snake.body == old(snake.body) && snake.justAte == old(snake.justAte)
  {
    if key.NoInput? {
    } else {
      if snake.dead {
        return;
      }
      match key
      case ArrowUp => snake.direction := Directions[0];
      case ArrowDown => snake.direction := Directions[1];
      case ArrowRight => snake.direction := Directions[2];
      case ArrowLeft => snake.direction := Directions[3];
      case Other(_) => snake.dead := true;
    }
  }

  /** gameStep without the drawing: processInput, then move; the result says
      whether the game is over. */
  method GameStep(snake: Snake, p: Pickup, key: Key, d: Draw) returns (over: bool)
    requires snake.Valid()
    modifies snake, p
    ensures snake.Valid()
    ensures var (dir, dead) := Steer(old(snake.direction), old(snake.dead), key);
      (over, snake.State(p)) == Tick(old(snake.State(p)).(direction := dir, dead := dead), d)
  {
    ProcessInput(snake, key);
    over := snake.Move(p, d);
  }
}
