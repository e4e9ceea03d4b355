/** The rules of the game as values: one tick of Snake::move (shift, new head,
    collision, food), the key handling of processInput, and the properties
    these have.  The imperative model in module SnakeGame is proved against
    the functions here. */
module Rules {
  import opened Grid

  /** What getch returned: nothing (ERR), one of the four arrow keys, or any other key. */
  datatype Key = NoInput | ArrowUp | ArrowDown | ArrowRight | ArrowLeft | Other(code: int)

  /** The two rand() results one relocation of the pickup consumes. */
  datatype Draw = Draw(rx: nat, ry: nat)

  /** The simulation state: the body's cells head first, the direction offset,
      the growth flag, the quit flag, and the single shared pickup cell. */
  datatype World = World(body: seq<Pos>, direction: Pos, justAte: bool, dead: bool, pickup: Pos)

  function Last(s: seq<Pos>): Pos
    requires |s| >= 1
  {
    s[|s| - 1]
  }

  /** A pending growth sits on a doubled tail: the segment the food check
      appends takes the cell of the tail it is appended to. */
  predicate DoubledTail(body: seq<Pos>, justAte: bool) {
    justAte ==> |body| >= 2 && body[|body| - 1] == body[|body| - 2]
  }

  /** The states the game can reach: a non-empty body whose growth flag is
      only ever set on a doubled tail. */
  predicate WellFormed(w: World) {
    |w.body| >= 1 && DoubledTail(w.body, w.justAte)
  }

  predicate AllOnBoard(w: World) {
    OnBoard(w.pickup) && forall i :: 0 <= i < |w.body| ==> OnBoard(w.body[i])
  }

  // ---------------------------------------------------------------------------
  // Pickup

  /** Pickup::move: each coordinate is a rand() result reduced modulo BSize. */
  function Relocate(d: Draw): (p: Pos)
    ensures OnBoard(p)
  {
    (d.rx % BSize, d.ry % BSize)
  }

  /** Every cell of the board is a possible landing place of the pickup. */
  lemma RelocateReachesEveryCell(p: Pos)
    requires OnBoard(p)
    ensures exists d :: Relocate(d) == p
  {
    assert Relocate(Draw(p.0, p.1)) == p;
  }

  // ---------------------------------------------------------------------------
  // One tick

  /** The head's next cell: the offset added on each axis, wrapped around the board. */
  function NextHead(head: Pos, d: Pos): (h: Pos)
    ensures OnBoard(h)
    ensures h.0 == (head.0 + d.0) % BSize && h.1 == (head.1 + d.1) % BSize
  {
    WrapCoordIsMod(head.0 + d.0, BSize);
    WrapCoordIsMod(head.1 + d.1, BSize);
    (WrapCoord(head.0 + d.0, BSize), WrapCoord(head.1 + d.1, BSize))
  }

  /** The cells after the tail-to-head walk and the head assignment of one
      move: each non-head segment takes its head-ward neighbour's old cell,
      except that keepTail leaves the last one where it is. */
  function Shift(body: seq<Pos>, newHead: Pos, keepTail: bool): (r: seq<Pos>)
    requires |body| >= 1
    ensures |r| == |body| && r[0] == newHead
  {
    seq(|body|, i requires 0 <= i < |body| =>
      if i == 0 then newHead
      else if keepTail && i == |body| - 1 then body[i]
      else body[i - 1])
  }

  /** Snake::checkDeath: some segment behind the head shares the head's cell. */
  predicate HeadCollides(body: seq<Pos>): (b: bool)
    requires |body| >= 1
    ensures b <==> body[0] in body[1..]
    ensures |body| == 1 ==> !b
  {
    exists i :: 1 <= i < |body| && body[i] == body[0]
  }

  /** The state after the walk and the new head of Snake::move, before either
      check; the walk clears the growth flag when it visits the tail, which it
      does only when the tail is not the head. */
  function Moved(w: World): (m: World)
    requires |w.body| >= 1
    ensures m.direction == w.direction && m.dead == w.dead && m.pickup == w.pickup
  {
    w.(body := Shift(w.body, NextHead(w.body[0], w.direction), w.justAte && |w.body| >= 2),
       justAte := w.justAte && |w.body| == 1)
  }

  /** The food check's condition: the TAIL, not the head, is on the pickup. */
  predicate Eats(w: World)
    requires |w.body| >= 1
  {
    Last(w.body) == w.pickup
  }

  /** Snake::checkForFood: on a match, a segment at the pickup's cell is
      appended behind the tail, growth is flagged and the pickup relocates. */
  function Feed(w: World, d: Draw): (f: World)
    requires |w.body| >= 1
    ensures |f.body| == |w.body| + (if Eats(w) then 1 else 0)
    ensures f.body[..|w.body|] == w.body
    ensures f.direction == w.direction && f.dead == w.dead
    ensures Eats(w) ==> f.body[|w.body|] == w.pickup && f.justAte && f.pickup == Relocate(d)
    ensures !Eats(w) ==> f == w
  {
    if Eats(w) then w.(body := w.body + [w.pickup], justAte := true, pickup := Relocate(d))
    else w
  }

  /** Snake::move: the walk and the new head, then the collision check, and
      the food check only when there was no collision.  The boolean is the
      value move returns. */
  function Tick(w: World, d: Draw): (r: (bool, World))
    requires |w.body| >= 1
    ensures |r.1.body| >= |w.body|
  {
    var m := Moved(w);
    if HeadCollides(m.body) then (true, m) else (false, Feed(m, d))
  }

  /** Under a doubled tail, the walk is the classic queue step: push the new
      head and drop the last cell. */
  lemma ShiftIsPushPop(body: seq<Pos>, newHead: Pos, keepTail: bool)
    requires |body| >= 1
    requires keepTail ==> |body| >= 2 && body[|body| - 1] == body[|body| - 2]
    ensures Shift(body, newHead, keepTail) == [newHead] + body[..|body| - 1]
  {
    var r, q := Shift(body, newHead, keepTail), [newHead] + body[..|body| - 1];
    assert |r| == |q|;
    forall i | 0 <= i < |r| ensures r[i] == q[i] {
      if i > 0 {
        assert q[i] == body[i - 1];
      }
    }
  }

  /** Where every segment ends up: the head on the wrapped next cell, segment
      i >= 1 on the old cell of segment i-1, except the tail, which stays put
      when growth was pending; a pending growth is cleared unless the snake is
      a single segment; collision and food checks leave these cells alone. */
  lemma TickMovesSegments(w: World, d: Draw)
    requires |w.body| >= 1
    ensures var r := Tick(w, d).1;
      |r.body| >= |w.body| &&
      r.body[0] == NextHead(w.body[0], w.direction) &&
      (forall i :: 1 <= i < |w.body| ==>
        r.body[i] == if w.justAte && i == |w.body| - 1 then w.body[i] else w.body[i - 1]) &&
      r.direction == w.direction && r.dead == w.dead &&
      (Tick(w, d).0 || !Eats(Moved(w)) ==> r.justAte == (w.justAte && |w.body| == 1))
  {
    var m := Moved(w);
    var r := Tick(w, d).1;
    assert r.body[..|w.body|] == m.body;
    forall i | 1 <= i < |w.body|
      ensures r.body[i] == if w.justAte && i == |w.body| - 1 then w.body[i] else w.body[i - 1]
    {
      assert r.body[i] == r.body[..|w.body|][i];
    }
  }

  /** On a well-formed state the move collides exactly when the new head lands
      on a cell the body held other than the last one (the last cell is
      vacated, unless it was doubled, in which case the cell before it holds
      the same position). */
  lemma TickCollision(w: World, d: Draw)
    requires WellFormed(w)
    ensures Tick(w, d).0 <==> NextHead(w.body[0], w.direction) in w.body[..|w.body| - 1]
  {
    var h := NextHead(w.body[0], w.direction);
    var b := Moved(w).body;
    ShiftIsPushPop(w.body, h, w.justAte && |w.body| >= 2);
    assert b == [h] + w.body[..|w.body| - 1];
    if HeadCollides(b) {
      var i :| 1 <= i < |b| && b[i] == b[0];
      assert w.body[..|w.body| - 1][i - 1] == h;
    }
    if h in w.body[..|w.body| - 1] {
      var j :| 0 <= j < |w.body| - 1 && w.body[..|w.body| - 1][j] == h;
      assert b[j + 1] == b[0];
    }
  }

  /** The food logic of one move on a well-formed state.  A collision skips it:
      count and pickup unchanged, growth flag clear.  Otherwise, when the new
      last cell (the old second-to-last cell, or the new head of a single
      segment) is the pickup's cell, the body grows by exactly one segment at
      that cell, growth is flagged and the pickup relocates on the board;
      when it is not, count and pickup are unchanged and the flag is clear. */
  lemma TickGrowth(w: World, d: Draw)
    requires WellFormed(w)
    ensures var (died, r) := Tick(w, d);
      var n := |w.body|;
      var newTail := if n == 1 then NextHead(w.body[0], w.direction) else w.body[n - 2];
      (died ==> |r.body| == n && r.pickup == w.pickup && !r.justAte) &&
      (!died && newTail == w.pickup ==>
        |r.body| == n + 1 && r.body[n] == w.pickup && r.body[n - 1] == w.pickup &&
        r.justAte && r.pickup == Relocate(d) && OnBoard(r.pickup)) &&
      (!died && newTail != w.pickup ==>
        |r.body| == n && r.pickup == w.pickup && !r.justAte)
  {
    var m := Moved(w);
    var n := |w.body|;
    assert |m.body| == n && !m.justAte;
    assert m.body[n - 1] == if n == 1 then NextHead(w.body[0], w.direction) else w.body[n - 2];
  }

  /** One move keeps a state well-formed. */
  lemma TickPreservesWellFormed(w: World, d: Draw)
    requires WellFormed(w)
    ensures WellFormed(Tick(w, d).1)
  {
    var m := Moved(w);
    assert !m.justAte;
    assert |m.body| == |w.body|;
  }

  /** One move keeps the snake and the pickup on the board. */
  lemma TickKeepsOnBoard(w: World, d: Draw)
    requires |w.body| >= 1 && AllOnBoard(w)
    ensures AllOnBoard(Tick(w, d).1)
  {
    var m := Moved(w);
    var r := Tick(w, d).1;
    forall i | 0 <= i < |m.body| ensures OnBoard(m.body[i]) {
      if i > 0 {
        assert m.body[i] == w.body[i] || m.body[i] == w.body[i - 1];
      }
    }
    forall i | 0 <= i < |r.body| ensures OnBoard(r.body[i]) {
      if i < |m.body| {
        assert r.body[i] == m.body[i];
      }
    }
  }

  /** move never reads the quit flag. */
  lemma TickIgnoresDead(w: World, d: Draw, dead: bool)
    requires |w.body| >= 1
    ensures Tick(w.(dead := dead), d) == (Tick(w, d).0, Tick(w, d).1.(dead := dead))
  {
  }

  /** Turning back onto the neck kills a snake of three or more segments;
      the food check is skipped, so the count and the pickup stay. */
  lemma ReversalIntoNeckDies(w: World, d: Draw)
    requires WellFormed(w) && |w.body| >= 3
    requires NextHead(w.body[0], w.direction) == w.body[1]
    ensures Tick(w, d).0
    ensures |Tick(w, d).1.body| == |w.body| && Tick(w, d).1.pickup == w.pickup
  {
    TickCollision(w, d);
    assert w.body[..|w.body| - 1][1] == w.body[1];
    TickGrowth(w, d);
  }

  /** A two-segment snake with no growth pending survives turning back onto
      its neck: the neck is the tail, which moves off that cell in the same step. */
  lemma TwoSegmentReversalSurvives(w: World, d: Draw)
    requires WellFormed(w) && |w.body| == 2 && !w.justAte
    requires w.body[0] != w.body[1]
    requires NextHead(w.body[0], w.direction) == w.body[1]
    ensures !Tick(w, d).0
  {
    TickCollision(w, d);
    assert w.body[..1] == [w.body[0]];
  }

  /** Stepping off an edge of the board re-enters at the opposite edge in the
      same row or column: right from the last column to column 0, left from
      column 0 to the last column, and likewise up and down. */
  lemma EdgeWraps(p: Pos)
    requires OnBoard(p)
    ensures p.0 == BSize - 1 ==> NextHead(p, Directions[2]) == (0, p.1)
    ensures p.0 == 0 ==> NextHead(p, Directions[3]) == (BSize - 1, p.1)
    ensures p.1 == 0 ==> NextHead(p, Directions[0]) == (p.0, BSize - 1)
    ensures p.1 == BSize - 1 ==> NextHead(p, Directions[1]) == (p.0, 0)
  {
    ModUnique(p.0, BSize, 0, p.0);
    ModUnique(p.1, BSize, 0, p.1);
    ModUnique(BSize, BSize, 1, 0);
    ModUnique(-1, BSize, -1, BSize - 1);
  }

  /** The food check looks at the tail: a one-segment snake whose head steps
      onto the pickup eats in that very step (its tail is its head), growing
      to two segments on the pickup's cell; the next step moves the head on
      and leaves the new tail behind on that cell. */
  lemma FirstStepOntoPickup(d1: Draw, d2: Draw)
    ensures var w := World([(5, 5)], Directions[2], false, false, (6, 5));
      var (died1, w1) := Tick(w, d1);
      !died1 && w1.body == [(6, 5), (6, 5)] && w1.justAte && w1.pickup == Relocate(d1) &&
      var (died2, w2) := Tick(w1, d2);
      !died2 && |w2.body| >= 2 && w2.body[0] == (7, 5) && w2.body[1] == (6, 5)
  {
    var w := World([(5, 5)], Directions[2], false, false, (6, 5));
    assert NextHead((5, 5), Directions[2]) == (6, 5);
    assert Moved(w).body == [(6, 5)];
    var w1 := Tick(w, d1).1;
    assert w1.body == [(6, 5), (6, 5)];
    assert NextHead((6, 5), Directions[2]) == (7, 5);
    assert Moved(w1).body == [(7, 5), (6, 5)];
  }

  // ---------------------------------------------------------------------------
  // Input

  /** processInput on the (direction, dead) pair: ERR, or any key once the
      quit flag is set, changes nothing; an arrow key selects its entry of the
      direction table; any other key sets the quit flag. */
  function Steer(direction: Pos, dead: bool, key: Key): (r: (Pos, bool))
    ensures r.1 <==> dead || key.Other?
    ensures dead || key.NoInput? || key.Other? ==> r.0 == direction
    ensures !dead && key.ArrowUp? ==> r.0 == Directions[0]
    ensures !dead && key.ArrowDown? ==> r.0 == Directions[1]
    ensures !dead && key.ArrowRight? ==> r.0 == Directions[2]
    ensures !dead && key.ArrowLeft? ==> r.0 == Directions[3]
  {
    if key.NoInput? || dead then (direction, dead)
    else match key
      case ArrowUp => (Directions[0], dead)
      case ArrowDown => (Directions[1], dead)
      case ArrowRight => (Directions[2], dead)
      case ArrowLeft => (Directions[3], dead)
      case _ => (direction, true)
  }

  /** Every direction the snake can be steered to is a unit step on one axis. */
  lemma SteerKeepsUnitDirection(direction: Pos, dead: bool, key: Key)
    requires direction in Directions
    ensures Steer(direction, dead, key).0 in Directions
    ensures var r := Steer(direction, dead, key).0; (r.0 == 0) != (r.1 == 0) && -1 <= r.0 <= 1 && -1 <= r.1 <= 1
  {
    var r := Steer(direction, dead, key).0;
    assert r == Directions[0] || r == Directions[1] || r == Directions[2] || r == Directions[3];
  }

  // ---------------------------------------------------------------------------
  // A game: processInput then move, once per turn, until move reports a collision

  /** One turn's inputs: the key read, and the draws a relocation would consume. */
  datatype Turn = Turn(key: Key, draw: Draw)

  /** The state a game ends in, the number of pickups eaten, and whether it ended by collision. */
  datatype Outcome = Outcome(world: World, eaten: nat, died: bool)

  /** A game from state w over the given turns: each turn steers, then moves;
      a collision ends the game and the remaining turns are never played. */
  function Play(w: World, turns: seq<Turn>): (o: Outcome)
    requires |w.body| >= 1
    ensures |o.world.body| >= |w.body|
    ensures o.eaten <= |turns|
    ensures o.died ==> |turns| >= 1
    decreases |turns|
  {
    if |turns| == 0 then Outcome(w, 0, false)
    else
      var (dir, dead) := Steer(w.direction, w.dead, turns[0].key);
      var s := w.(direction := dir, dead := dead);
      var (died, next) := Tick(s, turns[0].draw);
      if died then Outcome(next, 0, true)
      else
        var rest := Play(next, turns[1..]);
        Outcome(rest.world, rest.eaten + (if Eats(Moved(s)) then 1 else 0), rest.died)
  }

  /** Length invariant: however the player steers, the body has grown by
      exactly the number of pickups eaten (and never shrinks). */
  lemma {:induction false} PlayLength(w: World, turns: seq<Turn>)
    requires |w.body| >= 1
    ensures |Play(w, turns).world.body| == |w.body| + Play(w, turns).eaten
    decreases |turns|
  {
    if |turns| > 0 {
      var (dir, dead) := Steer(w.direction, w.dead, turns[0].key);
      var s := w.(direction := dir, dead := dead);
      var (died, next) := Tick(s, turns[0].draw);
      if !died {
        PlayLength(next, turns[1..]);
      }
    }
  }

  /** Once the quit flag is set it stays set and the direction is frozen for
      the rest of the game; the game itself goes on until a collision. */
  lemma {:induction false} PlayAfterQuit(w: World, turns: seq<Turn>)
    requires |w.body| >= 1 && w.dead
    ensures Play(w, turns).world.dead && Play(w, turns).world.direction == w.direction
    decreases |turns|
  {
    if |turns| > 0 {
      var (died, next) := Tick(w, turns[0].draw);
      TickMovesSegments(w, turns[0].draw);
      if !died {
        PlayAfterQuit(next, turns[1..]);
      }
    }
  }

  /** The quit key does not end the game: a fresh snake that receives it on
      the first turn is flagged dead, yet move reports no collision and the
      game goes on, heading the same way. */
  lemma QuitKeyDoesNotEndGame(d: Draw, code: int)
    ensures var o := Play(World([(5, 5)], Directions[2], false, false, (0, 0)), [Turn(Other(code), d)]);
      !o.died && o.world.dead && o.world.body == [(6, 5)] && o.world.direction == Directions[2]
  {
    var s := World([(5, 5)], Directions[2], false, true, (0, 0));
    assert NextHead((5, 5), Directions[2]) == (6, 5);
    assert Moved(s).body == [(6, 5)];
    assert !HeadCollides(Moved(s).body);
  }
}
