/** The maze: which way a figure may turn at a cell, looked up in two flat wall maps. */
module Maze {

  const N: nat := 12

  datatype Direction = Left | Right | Up | Down

  /** The four turn signals. */
  datatype Turns = Turns(left: bool, right: bool, up: bool, down: bool)

  /** A cell; 1 to N inside the grid, with five bits for each coordinate. */
  datatype Cell = Cell(x: nat, y: nat)

  type Walls = w: seq<bool> | |w| == N * (N + 1) witness seq(N * (N + 1), _ => false)

  /** One row's lookup: `vert` are the N + 1 walls beside its cells, `above` and
      `below` the N walls over and under them. */
  function RowTurns(vert: seq<bool>, above: seq<bool>, below: seq<bool>, x: nat): Turns
    requires |vert| == N + 1 && |above| == N && |below| == N
  {
    if x == 0 then Turns(false, true, false, false)
    else if x <= N then Turns(!vert[x - 1], !vert[x], !above[x - 1], !below[x - 1])
    else Turns(true, false, false, false)
  }

  /** The whole lookup: the row is cut out of the flat maps. */
  function TurnsAt(horiz: Walls, vert: Walls, c: Cell): Turns {
    if c.y == 0 then Turns(false, false, false, true)
    else if c.y <= N then
      var row := c.y - 1;
      RowTurns(vert[row * (N + 1)..(row + 1) * (N + 1)],
               horiz[row * N..(row + 1) * N],
               horiz[(row + 1) * N..(row + 2) * N],
               c.x)
    else Turns(false, false, true, false)
  }

  predicate Allows(t: Turns, d: Direction) {
    match d
    case Left => t.left
    case Right => t.right
    case Up => t.up
    case Down => t.down
  }

  function Opposite(d: Direction): Direction {
    match d
    case Left => Right
    case Right => Left
    case Up => Down
    case Down => Up
  }

  predicate Inside(c: Cell) {
    1 <= c.x <= N && 1 <= c.y <= N
  }

  /** The neighbouring cell, if the coordinates reach that far. */
  function Move(c: Cell, d: Direction): Cell
    requires Inside(c) || ((d == Left ==> c.x > 0) && (d == Up ==> c.y > 0))
  {
    match d
    case Left => Cell(c.x - 1, c.y)
    case Right => Cell(c.x + 1, c.y)
    case Up => Cell(c.x, c.y - 1)
    case Down => Cell(c.x, c.y + 1)
  }

  /** Following `path` from `c` never leaves the grid nor crosses a wall. */
  predicate Legal(horiz: Walls, vert: Walls, c: Cell, path: seq<Direction>)
    decreases |path|
  {
    && Inside(c)
    && (path != [] ==>
          && Allows(TurnsAt(horiz, vert, c), path[0])
          && Legal(horiz, vert, Move(c, path[0]), path[1..]))
  }

  /** The last cell of a legal path. */
  function Destination(horiz: Walls, vert: Walls, c: Cell, path: seq<Direction>): (end: Cell)
    requires Legal(horiz, vert, c, path)
    ensures Inside(end)
    decreases |path|
  {
    if path == [] then c else Destination(horiz, vert, Move(c, path[0]), path[1..])
  }

  /** The way back. */
  function Back(path: seq<Direction>): seq<Direction> {
    if path == [] then [] else Back(path[1..]) + [Opposite(path[0])]
  }

  /** What the lookup reads: each wall of an inner cell is one bit of a flat map. */
  lemma TurnsInside(horiz: Walls, vert: Walls, c: Cell)
    requires Inside(c)
    ensures TurnsAt(horiz, vert, c)
         == Turns(!vert[(c.y - 1) * (N + 1) + c.x - 1], !vert[(c.y - 1) * (N + 1) + c.x],
                  !horiz[(c.y - 1) * N + c.x - 1], !horiz[c.y * N + c.x - 1])
  {
  }

  /** A wall is the same from both sides. */
  lemma TurnBack(horiz: Walls, vert: Walls, c: Cell, d: Direction)
    requires Inside(c) && Inside(Move(c, d))
    ensures Move(Move(c, d), Opposite(d)) == c
    ensures Allows(TurnsAt(horiz, vert, c), d) == Allows(TurnsAt(horiz, vert, Move(c, d)), Opposite(d))
  {
    TurnsInside(horiz, vert, c);
    TurnsInside(horiz, vert, Move(c, d));
  }

  /** How far a coordinate lies outside the grid. */
  function Beyond(z: nat): nat {
    if z == 0 then 1 else if z > N then z - N else 0
  }

  /** A figure outside the grid is led back: there is exactly one way to turn, and it
      comes nearer. */
  lemma OutsideLeadsBack(horiz: Walls, vert: Walls, c: Cell) returns (d: Direction)
    requires !Inside(c)
    ensures forall e :: Allows(TurnsAt(horiz, vert, c), e) <==> e == d
    ensures (d == Left ==> c.x > 0) && (d == Up ==> c.y > 0)
    ensures Beyond(Move(c, d).x) + Beyond(Move(c, d).y) < Beyond(c.x) + Beyond(c.y)
  {
    d := if c.y == 0 then Down else if c.y > N then Up else if c.x == 0 then Right else Left;
  }

  lemma {:induction false} LegalAppend(horiz: Walls, vert: Walls, c: Cell, path: seq<Direction>, d: Direction)
    requires Legal(horiz, vert, c, path)
    requires Allows(TurnsAt(horiz, vert, Destination(horiz, vert, c, path)), d)
    requires Inside(Move(Destination(horiz, vert, c, path), d))
    ensures Legal(horiz, vert, c, path + [d])
    ensures Destination(horiz, vert, c, path + [d]) == Move(Destination(horiz, vert, c, path), d)
    decreases |path|
  {
    var longer := path + [d];
    if path != [] {
      assert longer[0] == path[0] && longer[1..] == path[1..] + [d];
      LegalAppend(horiz, vert, Move(c, path[0]), path[1..], d);
    }
  }

  /** For every wall map the way back along a legal path is legal and ends where the
      path began. */
  lemma {:induction false} PathsReverse(horiz: Walls, vert: Walls, c: Cell, path: seq<Direction>)
    requires Legal(horiz, vert, c, path)
    ensures var end := Destination(horiz, vert, c, path);
      Legal(horiz, vert, end, Back(path)) && Destination(horiz, vert, end, Back(path)) == c
    decreases |path|
  {
    if path != [] {
      var next, end := Move(c, path[0]), Destination(horiz, vert, c, path);
      PathsReverse(horiz, vert, next, path[1..]);
      TurnBack(horiz, vert, c, path[0]);
      LegalAppend(horiz, vert, end, Back(path[1..]), Opposite(path[0]));
    }
  }
}
