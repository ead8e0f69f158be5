// The game of thams/snake/snake.c, without its drawing.
module Snake {
  const COLS: nat := 30
  const ROWS: nat := 20
  const MAX_LEN: nat := COLS * ROWS

  datatype Key = Space | Pause | Left | Right | Up | Down | Other
  datatype Cell = Cell(x: int, y: int)

  predicate OnBoard(c: Cell) {
    0 <= c.x < COLS && 0 <= c.y < ROWS
  }

  predicate Neighbours(a: Cell, b: Cell) {
    (a.x == b.x && (a.y == b.y + 1 || b.y == a.y + 1)) || (a.y == b.y && (a.x == b.x + 1 || b.x == a.x + 1))
  }

  // A heading: one step along one axis.
  predicate Unit(d: Cell) {
    d in {Cell(1, 0), Cell(-1, 0), Cell(0, 1), Cell(0, -1)}
  }

  function Plus(a: Cell, d: Cell): Cell { Cell(a.x + d.x, a.y + d.y) }

  function Minus(d: Cell): Cell { Cell(-d.x, -d.y) }

  // On the board, no cell twice, each segment beside the one before.
  ghost predicate BodyOk(b: seq<Cell>) {
    && 3 <= |b| <= MAX_LEN
    && (forall i :: 0 <= i < |b| ==> OnBoard(b[i]))
    && (forall i, j :: 0 <= i < j < |b| ==> b[i] != b[j])
    && Joined(b)
  }

  ghost predicate Joined(b: seq<Cell>) {
    forall i :: 0 < i < |b| ==> Neighbours(b[i - 1], b[i])
  }

  // --- the board has room exactly when the snake is not everywhere ---

  function Number(c: Cell): (n: nat)
    requires OnBoard(c)
    ensures n < MAX_LEN
  {
    c.y * COLS + c.x
  }

  lemma NumberInjective(a: Cell, b: Cell)
    requires OnBoard(a) && OnBoard(b) && Number(a) == Number(b)
    ensures a == b
  {}

  ghost function Numbers(b: seq<Cell>): (s: set<nat>)
    requires forall i :: 0 <= i < |b| ==> OnBoard(b[i])
    ensures forall n :: n in s ==> n < MAX_LEN
  {
    if b == [] then {} else Numbers(b[..|b| - 1]) + {Number(b[|b| - 1])}
  }

  lemma {:induction false} InNumbers(b: seq<Cell>, c: Cell)
    requires (forall i :: 0 <= i < |b| ==> OnBoard(b[i])) && OnBoard(c)
    ensures Number(c) in Numbers(b) <==> c in b
  {
    if b != [] {
      var n := |b| - 1;
      InNumbers(b[..n], c);
      if Number(c) == Number(b[n]) { NumberInjective(c, b[n]); }
      assert b == b[..n] + [b[n]];
    }
  }

  lemma {:induction false} NumbersSize(b: seq<Cell>)
    requires (forall i :: 0 <= i < |b| ==> OnBoard(b[i])) && forall i, j :: 0 <= i < j < |b| ==> b[i] != b[j]
    ensures |Numbers(b)| == |b|
  {
    if b != [] {
      var n := |b| - 1;
      NumbersSize(b[..n]);
      InNumbers(b[..n], b[n]);
      assert b[n] !in b[..n];
    }
  }

  ghost function Below(n: nat): (s: set<nat>)
    ensures forall k: nat :: k in s <==> k < n
  {
    if n == 0 then {} else Below(n - 1) + {n - 1}
  }

  lemma {:induction false} BelowSize(n: nat)
    ensures |Below(n)| == n
  {
    if n > 0 { BelowSize(n - 1); }
  }

  // Pigeonhole: every cell is taken exactly when the length is the board's.
  lemma FullBoard(b: seq<Cell>, n: nat)
    requires BodyOk(b) && n == MAX_LEN
    ensures |b| == n <==> forall c :: OnBoard(c) ==> c in b
  {
    var s, all := Numbers(b), Below(n);
    NumbersSize(b);
    BelowSize(n);
    hide Numbers, Below;
    assert s <= all;
    assert all == s + (all - s);
    assert |all| == |s| + |all - s|;
    if |b| == n {
      forall c | OnBoard(c)
        ensures c in b
      {
        InNumbers(b, c);
        assert Number(c) in all;
      }
    } else if forall c :: OnBoard(c) ==> c in b {
      forall k | k in all
        ensures k in s
      {
        var c := Cell(k % COLS, k / COLS);
        assert OnBoard(c) && Number(c) == k;
        InNumbers(b, c);
      }
    }
  }

  // --- the moves ---

  // The snake after a step onto n.
  ghost function Moved(b: seq<Cell>, n: Cell, ate: bool): seq<Cell>
    requires b != []
  {
    [n] + if ate then b else b[..|b| - 1]
  }

  lemma MovedOk(b: seq<Cell>, n: Cell, ate: bool)
    requires BodyOk(b) && OnBoard(n) && Neighbours(n, b[0]) && (ate ==> |b| < MAX_LEN)
    requires if ate then n !in b else n !in b[..|b| - 1]
    ensures BodyOk(Moved(b, n, ate))
  {
    var m := Moved(b, n, ate);
    assert forall i :: 0 < i < |m| ==> m[i] == b[i - 1];
    forall i | 0 < i < |m|
      ensures Neighbours(m[i - 1], m[i])
    {
      if i > 1 { assert Neighbours(b[i - 2], b[i - 1]); }
    }
    forall i, j | 0 <= i < j < |m|
      ensures m[i] != m[j]
    {
      if i == 0 {
        assert m[j] == b[j - 1];
        if !ate { assert b[..|b| - 1][j - 1] == b[j - 1]; }
      }
    }
  }

  // The reverse of the heading is the only way into the neck.
  lemma NeverTheNeck(b: seq<Cell>, dir: Cell, turn: Cell)
    requires |b| >= 2 && b[0] == Plus(b[1], dir) && turn != Minus(dir)
    ensures Plus(b[0], turn) != b[1]
  {}

  // The snake of a new game.
  lemma FirstSnake()
    ensures var b := [Cell(15, 10), Cell(14, 10), Cell(13, 10)];
            BodyOk(b) && b[0] == Plus(b[1], Cell(1, 0)) && Unit(Cell(1, 0)) && Cell(1, 0) != Minus(Cell(1, 0))
  {}

  // Where each arrow points.
  function Heading(k: Key): Cell {
    match k
    case Left => Cell(-1, 0)
    case Right => Cell(1, 0)
    case Up => Cell(0, -1)
    case Down => Cell(0, 1)
    case _ => Cell(0, 0)
  }

  lemma Headings()
    ensures Unit(Cell(1, 0)) && Unit(Cell(-1, 0)) && Unit(Cell(0, 1)) && Unit(Cell(0, -1))
  {}

  // A step that ends the game: off the board, or into the body short of the tail.
  ghost predicate Fatal(b: seq<Cell>, n: Cell)
    requires b != []
  {
    !OnBoard(n) || n in b[..|b| - 1]
  }

  lemma BodySize(b: seq<Cell>)
    requires BodyOk(b)
    ensures 3 <= |b| <= MAX_LEN
  {}

  lemma StepOk(b: seq<Cell>, n: Cell, turn: Cell, ate: bool)
    requires BodyOk(b) && Unit(turn) && n == Plus(b[0], turn) && !Fatal(b, n) && (ate ==> n !in b && |b| < MAX_LEN)
    ensures BodyOk(Moved(b, n, ate))
  {
    hide BodyOk;
    BodySize(b);
    MovedOk(b, n, ate);
  }

  lemma MovedHead(b: seq<Cell>, n: Cell, ate: bool)
    requires |b| >= 2
    ensures Moved(b, n, ate)[0] == n && Moved(b, n, ate)[1] == b[0]
    ensures forall c :: c != n && c !in b ==> c !in Moved(b, n, ate)
  {}

  // A heading is not its own reverse.
  lemma TurnKept(turn: Cell)
    requires Unit(turn)
    ensures turn != Minus(turn)
  {}

  function Zip(xs: seq<int>, ys: seq<int>, n: nat): (b: seq<Cell>)
    requires n <= |xs| && n <= |ys|
    ensures |b| == n
  {
    seq(n, i requires 0 <= i < n => Cell(xs[i], ys[i]))
  }

  class Game {
    const segX: array<int>
    const segY: array<int>
    var len: nat
    var dir: Cell
    var turn: Cell
    var food: Cell
    var score: int
    var best: int
    var alive: bool
    var paused: bool
    var stepMs: int
    var rngState: nat

    ghost function Body(): (b: seq<Cell>)
      requires len <= segX.Length && len <= segY.Length
      reads `len, segX, segY
      ensures |b| == len
    {
      Zip(segX[..], segY[..], len)
    }

    ghost predicate Arrays()
      reads `len, `rngState
    {
      segX.Length == MAX_LEN && segY.Length == MAX_LEN && segX != segY && len <= MAX_LEN && rngState < 0x1_0000_0000
    }

    // The snake and the food.
    ghost predicate Valid()
      reads this, segX, segY
    {
      && Arrays() && BodyOk(Body()) && score == 10 * (len - 3)
      && (food.x < 0 <==> len == MAX_LEN)
      && (food.x >= 0 ==> OnBoard(food) && food !in Body())
      && (alive ==> food.x >= 0 && Unit(dir) && Unit(turn) && turn != Minus(dir) && Body()[0] == Plus(Body()[1], dir))
    }

    method Rng() returns (v: nat)
      requires Arrays()
      modifies this`rngState
      ensures Arrays() && v <= 0x7FFF && v == rngState / 0x1_0000 % 0x8000
      ensures rngState == (old(rngState) * 1103515245 + 12345) % 0x1_0000_0000
    {
      rngState := (rngState * 1103515245 + 12345) % 0x1_0000_0000;
      v := rngState / 0x1_0000 % 0x8000;
    }

    method Occupied(x: int, y: int) returns (taken: bool)
      requires Arrays()
      ensures taken <==> Cell(x, y) in Body()
    {
      for i := 0 to len
        invariant forall k :: 0 <= k < i ==> Body()[k] != Cell(x, y)
      {
        if segX[i] == x && segY[i] == y {
          assert Body()[i] == Cell(x, y);
          return true;
        }
      }
      return false;
    }

    // place_food: a free cell, or none exactly when there is none.
    method PlaceFood()
      requires Arrays() && BodyOk(Body())
      modifies this`food, this`rngState
      ensures Arrays() && Body() == old(Body())
      ensures food.x < 0 <==> len == MAX_LEN
      ensures food.x >= 0 ==> OnBoard(food) && food !in Body()
    {
      FullBoard(Body(), MAX_LEN);
      for t := 0 to 200
        invariant Arrays() && Body() == old(Body())
      {
        var a := Rng();
        var b := Rng();
        var x, y := a % COLS, b % ROWS;
        var taken := Occupied(x, y);
        if !taken {
          food := Cell(x, y);
          return;
        }
      }
      for y := 0 to ROWS
        invariant Arrays() && Body() == old(Body())
        invariant forall c :: OnBoard(c) && c.y < y ==> c in Body()
      {
        for x := 0 to COLS
          invariant Arrays() && Body() == old(Body())
          invariant forall c :: OnBoard(c) && c.y < y ==> c in Body()
          invariant forall c :: OnBoard(c) && c.y == y && c.x < x ==> c in Body()
        {
          var taken := Occupied(x, y);
          if !taken {
            food := Cell(x, y);
            return;
          }
        }
      }
      food := Cell(-1, -1);
    }

    constructor (seed: nat)
      requires seed < 0x1_0000_0000
      ensures Valid() && alive && len == 3
    {
      segX, segY := new int[MAX_LEN], new int[MAX_LEN];
      rngState := if seed == 0 then 1 else seed;
      len, score, best, stepMs, paused, alive := 0, 0, 0, 140, false, false;
      new;
      Reset();
    }

    // Three segments in a row, the head at (cx, cy).
    method LayDown(cx: int, cy: int)
      requires Arrays()
      modifies `len, segX, segY
      ensures Arrays() && Body() == [Cell(cx, cy), Cell(cx - 1, cy), Cell(cx - 2, cy)]
    {
      len := 3;
      segX[0] := cx;
      segX[1] := cx - 1;
      segX[2] := cx - 2;
      segY[0], segY[1], segY[2] := cy, cy, cy;
      ghost var xs, ys := segX[..], segY[..];
      assert xs[0] == cx && xs[1] == cx - 1 && xs[2] == cx - 2 && ys[0] == ys[1] == ys[2] == cy;
    }

    method Reset()
      requires Arrays()
      modifies this, segX, segY
      ensures Valid() && alive && len == 3 && !paused && best == old(best)
      ensures Body() == [Cell(15, 10), Cell(14, 10), Cell(13, 10)] && dir == turn == Cell(1, 0)
    {
      hide BodyOk, Unit, Zip, Plus, Minus, OnBoard;
      LayDown(COLS / 2, ROWS / 2);
      ghost var b := Body();
      assert b == [Cell(15, 10), Cell(14, 10), Cell(13, 10)];
      dir, turn := Cell(1, 0), Cell(1, 0);
      score, alive, paused := 0, true, false;
      FirstSnake();
      PlaceFood();
    }

    // turn: any heading but the reverse of the one in effect.
    method Turn(d: Cell)
      requires Valid() && alive && Unit(d)
      modifies this`turn
      ensures Valid() && turn == if d == Minus(dir) then old(turn) else d
    {
      if d == Minus(dir) {
        return;
      }
      turn := d;
    }

    // The shift of step: everything one place down, the head at n.
    method Shift(n: Cell)
      requires Arrays() && len >= 1
      modifies segX, segY
      ensures Arrays() && Body() == [n] + old(Body())[..len - 1]
    {
      ghost var xs, ys := segX[..], segY[..];
      var i: int := len - 1;
      while i > 0
        invariant 0 <= i < len
        invariant forall k :: 0 <= k <= i ==> segX[k] == xs[k] && segY[k] == ys[k]
        invariant forall k :: i < k < len ==> segX[k] == xs[k - 1] && segY[k] == ys[k - 1]
      {
        segX[i] := segX[i - 1];
        segY[i] := segY[i - 1];
        i := i - 1;
      }
      segX[0] := n.x;
      segY[0] := n.y;
      assert Body() == [n] + old(Body())[..len - 1];
    }

    // The body check of step: all but the tail.
    method Bites(n: Cell) returns (bites: bool)
      requires Arrays() && len >= 1
      ensures bites <==> n in Body()[..len - 1]
    {
      ghost var front := Body()[..len - 1];
      for i := 0 to len - 1
        invariant forall k :: 0 <= k < i ==> front[k] != n
      {
        if segX[i] == n.x && segY[i] == n.y {
          assert front[i] == n;
          return true;
        }
      }
      return false;
    }

    // The growth and the shift of step.
    method Advance(n: Cell, ate: bool)
      requires Arrays() && BodyOk(Body()) && (ate ==> len < MAX_LEN)
      modifies `len, segX, segY
      ensures Arrays() && len == old(len) + (if ate then 1 else 0) && Body() == Moved(old(Body()), n, ate)
    {
      hide BodyOk;
      ghost var b := Body();
      BodySize(b);
      if ate && len < MAX_LEN {
        len := len + 1;
        assert Body()[..len - 1] == b;
      }
      Shift(n);
    }

    // What a meal does: points, pace and the next meal.
    method Meal()
      requires Arrays() && BodyOk(Body())
      modifies `score, `best, `stepMs, `food, `rngState, `alive
      ensures Arrays() && Body() == old(Body()) && score == old(score) + 10
      ensures food.x < 0 <==> len == MAX_LEN
      ensures food.x >= 0 ==> OnBoard(food) && food !in Body()
      ensures alive == (old(alive) && food.x >= 0)
      ensures best == (if score > old(best) then score else old(best))
      ensures stepMs == (if old(stepMs) > 60 then old(stepMs) - 4 else old(stepMs))
    {
      hide BodyOk;
      score := score + 10;
      if score > best {
        best := score;
      }
      if stepMs > 60 {
        stepMs := stepMs - 4;
      }
      PlaceFood();
      if food.x < 0 {
        alive := false;
      }
    }

    // step: one cell on, longer after a meal; a wall or the body is the end,
    // and so is a full board. The next head is never the neck.
    method Step()
      requires Valid() && alive
      modifies this, segX, segY
      ensures Valid() && dir == old(turn) && turn == old(turn) && paused == old(paused)
      ensures best == (if score > old(score) && score > old(best) then score else old(best))
      ensures stepMs == (if score > old(score) && old(stepMs) > 60 then old(stepMs) - 4 else old(stepMs))
      ensures Plus(old(Body())[0], old(turn)) != old(Body())[1]
      ensures Fatal(old(Body()), Plus(old(Body())[0], old(turn))) ==>
        !alive && Body() == old(Body()) && food == old(food) && score == old(score)
      ensures !Fatal(old(Body()), Plus(old(Body())[0], old(turn))) ==>
        var n := Plus(old(Body())[0], old(turn));
        var ate := n == old(food);
        && Body() == Moved(old(Body()), n, ate) && score == old(score) + (if ate then 10 else 0)
        && (alive <==> food.x >= 0) && (!ate ==> food == old(food))
    {
      hide BodyOk, Unit;
      ghost var b := Body();
      BodySize(b);
      NeverTheNeck(b, dir, turn);
      dir := turn;
      var n := Cell(segX[0] + dir.x, segY[0] + dir.y);
      assert n == Plus(b[0], turn);
      if n.x < 0 || n.x >= COLS || n.y < 0 || n.y >= ROWS {
        alive := false;
        return;
      }
      var bites := Bites(n);
      if bites {
        alive := false;
        return;
      }
      var ate := n == food;
      StepOk(b, n, turn, ate);
      Advance(n, ate);
      MovedHead(b, n, ate);
      TurnKept(turn);
      if ate {
        Meal();
      }
    }

    // on_key, by what the key means: steering, pausing and starting over.
    method OnKey(k: Key)
      requires Valid()
      modifies this, segX, segY
      ensures Valid() && best == old(best)
      ensures old(alive) || k != Space ==>
        alive == old(alive) && Body() == old(Body()) && food == old(food) && dir == old(dir) && score == old(score)
      ensures old(alive) ==> paused == (if k == Pause then !old(paused) else old(paused))
      ensures old(alive) ==>
        turn == (if k in {Left, Right, Up, Down} && Heading(k) != Minus(dir) then Heading(k) else old(turn))
      ensures !old(alive) && k == Space ==> alive && !paused && len == 3 && score == 0 && turn == dir == Cell(1, 0)
    {
      hide BodyOk, Unit, Minus;
      Headings();
      if !alive {
        if k == Space {
          Reset();
        }
        return;
      }
      match k
      case Pause => paused := !paused;
      case Left => Turn(Cell(-1, 0));
      case Right => Turn(Cell(1, 0));
      case Up => Turn(Cell(0, -1));
      case Down => Turn(Cell(0, 1));
      case _ =>
    }
  }
}
