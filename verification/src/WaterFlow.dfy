/**
 The water automaton (main.c, waterSim): an in-place sweep around the player in which every air or
 flowing cell takes the type its surroundings call for.
 */
module WaterFlow {
  import opened Bytes
  import opened Blocks

  // ------------------------------------------------------------- one cell

  /** Cells the automaton may change. */
  predicate Simulated(b: int) { b == 0 || Flowing(b) }

  /** What water in the neighbour n counts for: its type if it stands on something solid, else 10. */
  function Level(rom: seq<Byte>, m: seq<Byte>, n: Cell): (l: nat)
    requires |rom| >= 0x80 && |m| == MAP_SIZE
    ensures l == 10 || (l == Block(m, n) && Water(l) && Solid(rom, Block(m, n.Down())))
  {
    if Solid(rom, Block(m, n.Down())) && Water(Block(m, n)) then Block(m, n) else 10
  }

  predicate Beside(c: Cell, d: Cell) {
    d == Cell(c.x + 1, c.y, c.z) || d == Cell(c.x - 1, c.y, c.z) || d == Cell(c.x, c.y, c.z + 1) || d == Cell(c.x, c.y, c.z - 1)
  }

  /** The lowest level beside c. */
  function Nearest(rom: seq<Byte>, m: seq<Byte>, c: Cell): (l: int)
    requires |rom| >= 0x80 && |m| == MAP_SIZE
    ensures l == 10 || exists d :: Beside(c, d) && Level(rom, m, d) == l
    ensures forall d :: Beside(c, d) ==> l <= Level(rom, m, d)
  {
    var e, w, s, n := Cell(c.x + 1, c.y, c.z), Cell(c.x - 1, c.y, c.z), Cell(c.x, c.y, c.z + 1), Cell(c.x, c.y, c.z - 1);
    assert Beside(c, e) && Beside(c, w) && Beside(c, s) && Beside(c, n);
    Min(Min(Min(Level(rom, m, e), Level(rom, m, w)), Level(rom, m, s)), Level(rom, m, n))
  }

  function Ideal(rom: seq<Byte>, m: seq<Byte>, c: Cell): (b: Byte)
    requires |rom| >= 0x80 && |m| == MAP_SIZE
    ensures Simulated(b)
  {
    if Water(Block(m, c.Up())) then 7
    else if Nearest(rom, m, c) <= 8 then Nearest(rom, m, c) + 1
    else 0
  }

  /** How the four sides make up the type called for. */
  lemma IdealFrom(rom: seq<Byte>, m: seq<Byte>, c: Cell)
    requires |rom| >= 0x80 && |m| == MAP_SIZE
    ensures Water(Block(m, c.Up())) ==> Ideal(rom, m, c) == 7
    ensures !Water(Block(m, c.Up())) ==>
              var l := Min(Min(Min(Level(rom, m, Cell(c.x + 1, c.y, c.z)), Level(rom, m, Cell(c.x - 1, c.y, c.z))),
                               Level(rom, m, Cell(c.x, c.y, c.z + 1))), Level(rom, m, Cell(c.x, c.y, c.z - 1)));
              Ideal(rom, m, c) == if l <= 8 then l + 1 else 0
  {
  }

  function Stepped(rom: seq<Byte>, m: seq<Byte>, c: Cell): (m': seq<Byte>)
    requires |rom| >= 0x80 && |m| == MAP_SIZE
    ensures |m'| == MAP_SIZE
  {
    if Simulated(Block(m, c)) then With(m, c, Ideal(rom, m, c)) else m
  }

  // ------------------------------------------------------------- the sweep

  datatype Box = Box(minX: int, maxX: int, minY: int, maxY: int, minZ: int, maxZ: int) {
    predicate Has(c: Cell) {
      minX <= c.x <= maxX && minY <= c.y <= maxY && minZ <= c.z <= maxZ
    }

    predicate InWorld() {
      0 <= minX && maxX < SIDE && 0 <= minY && maxY < SIDE && 0 <= minZ && maxZ < SIDE
    }
  }

  function Around(v: int): (int, int) {
    (if v - 8 > 0 then v - 8 else 0, if SIDE - 1 < v + 8 then SIDE - 1 else v + 8)
  }

  /** The cells of the world at most eight blocks from the player's, along every axis. */
  function SimBox(p: Body): (b: Box)
    ensures b.InWorld()
    ensures forall c :: b.Has(c) <==>
              c.InWorld() && -8 <= c.x - p.x / S <= 8 && -8 <= c.y - p.y / S <= 8 && -8 <= c.z - p.z / S <= 8
  {
    var (x0, x1), (y0, y1), (z0, z1) := Around(p.x / S), Around(p.y / S), Around(p.z / S);
    Box(x0, x1, y0, y1, z0, z1)
  }

  /** Layer by layer, row by row, cell by cell. */
  predicate Before(c: Cell, d: Cell) {
    c.y < d.y || (c.y == d.y && (c.z < d.z || (c.z == d.z && c.x < d.x)))
  }

  /** The cells of the box, each once, in the order of the loops; there is only one such list. */
  ghost predicate InOrder(cells: seq<Cell>, box: Box) {
    && (forall i, j :: 0 <= i < j < |cells| ==> Before(cells[i], cells[j]))
    && (forall c :: box.Has(c) <==> c in cells)
  }

  ghost function Swept(rom: seq<Byte>, m: seq<Byte>, cells: seq<Cell>): (m': seq<Byte>)
    requires |rom| >= 0x80 && |m| == MAP_SIZE
    ensures |m'| == MAP_SIZE
  {
    if cells == [] then m else Stepped(rom, Swept(rom, m, cells[..|cells| - 1]), cells[|cells| - 1])
  }

  lemma StepLocal(rom: seq<Byte>, m: seq<Byte>, c: Cell, d: Cell)
    requires |rom| >= 0x80 && |m| == MAP_SIZE
    ensures d != c ==> Block(Stepped(rom, m, c), d) == Block(m, d)
    ensures Simulated(Block(m, d)) <==> Simulated(Block(Stepped(rom, m, c), d))
    ensures !Simulated(Block(m, d)) ==> Block(Stepped(rom, m, c), d) == Block(m, d)
    ensures c.InWorld() && Simulated(Block(m, c)) ==> Block(Stepped(rom, m, c), c) == Ideal(rom, m, c)
  {
    hide Block;
    BlockAfter(m, c, Ideal(rom, m, c), d);
    BlockAfter(m, c, Ideal(rom, m, c), c);
  }

  /** Sources, solids and everything but air and flowing water are conserved; nothing outside changes. */
  lemma {:induction false} SweepConserves(rom: seq<Byte>, m: seq<Byte>, cells: seq<Cell>, d: Cell)
    requires |rom| >= 0x80 && |m| == MAP_SIZE
    ensures Simulated(Block(m, d)) <==> Simulated(Block(Swept(rom, m, cells), d))
    ensures !Simulated(Block(m, d)) || d !in cells ==> Block(Swept(rom, m, cells), d) == Block(m, d)
    decreases |cells|
  {
    hide Block, Stepped;
    if cells != [] {
      SweepConserves(rom, m, cells[..|cells| - 1], d);
      StepLocal(rom, Swept(rom, m, cells[..|cells| - 1]), cells[|cells| - 1], d);
    }
  }

  /** Water never closes in on the player: air and water can be passed alike. */
  lemma SweepStaysFree(rom: seq<Byte>, m: seq<Byte>, cells: seq<Cell>, p: Body)
    requires GoodRom(rom) && |m| == MAP_SIZE && Free(rom, m, p)
    ensures Free(rom, Swept(rom, m, cells), p)
  {
    hide Block, Swept;
    forall c: Cell | Solid(rom, Block(Swept(rom, m, cells), c)) ensures Solid(rom, Block(m, c)) {
      SweepConserves(rom, m, cells, c);
    }
    StaysFree(rom, m, Swept(rom, m, cells), p);
  }

  // ------------------------------------------------------------- fixed points

  /** The cell is what its surroundings call for. */
  predicate Settled(rom: seq<Byte>, m: seq<Byte>, c: Cell)
    requires |rom| >= 0x80 && |m| == MAP_SIZE
  {
    Simulated(Block(m, c)) ==> Block(m, c) == Ideal(rom, m, c)
  }

  /** d stands on something solid, and its water is low enough to spread. */
  predicate Spreads(rom: seq<Byte>, m: seq<Byte>, d: Cell)
    requires |rom| >= 0x80 && |m| == MAP_SIZE
  {
    6 <= Block(m, d) <= 8 && Solid(rom, Block(m, d.Down()))
  }

  /**
   What the automaton is after: no air where water would come in from above or from beside; below water the
   type is 7, and elsewhere one more than the least that spreads here.
   */
  ghost predicate Balanced(rom: seq<Byte>, m: seq<Byte>, c: Cell)
    requires |rom| >= 0x80 && |m| == MAP_SIZE
  {
    && (Block(m, c) == 0 ==> !Water(Block(m, c.Up())) && forall d :: Beside(c, d) ==> !Spreads(rom, m, d))
    && (Flowing(Block(m, c)) && Water(Block(m, c.Up())) ==> Block(m, c) == 7)
    && (Flowing(Block(m, c)) && !Water(Block(m, c.Up())) ==>
          && (exists d :: Beside(c, d) && Spreads(rom, m, d) && Block(m, c) == Block(m, d) + 1)
          && (forall d :: Beside(c, d) && Spreads(rom, m, d) ==> Block(m, c) <= Block(m, d) + 1))
  }

  lemma SettledIff(rom: seq<Byte>, m: seq<Byte>, c: Cell)
    requires |rom| >= 0x80 && |m| == MAP_SIZE
    ensures Settled(rom, m, c) <==> Balanced(rom, m, c)
  {
    hide Block;
    forall d | Beside(c, d) ensures Spreads(rom, m, d) <==> Level(rom, m, d) <= 8 {
    }
    var l := Nearest(rom, m, c);
    if l <= 8 {
      var d :| Beside(c, d) && Level(rom, m, d) == l;
      assert Spreads(rom, m, d);
    }
  }

  /** A step leaves its own cell so, and no other cell changed. */
  lemma StepBalances(rom: seq<Byte>, m: seq<Byte>, c: Cell)
    requires |rom| >= 0x80 && |m| == MAP_SIZE
    ensures c.InWorld() ==> Balanced(rom, Stepped(rom, m, c), c)
    ensures forall d :: d != c ==> Block(Stepped(rom, m, c), d) == Block(m, d)
  {
    hide Block;
    forall d ensures d != c ==> Block(Stepped(rom, m, c), d) == Block(m, d) {
      StepLocal(rom, m, c, d);
    }
    StepLocal(rom, m, c, c);
    SettledIff(rom, Stepped(rom, m, c), c);
  }

  lemma StepChangesNothing(rom: seq<Byte>, m: seq<Byte>, c: Cell)
    requires |rom| >= 0x80 && |m| == MAP_SIZE && c.InWorld()
    ensures Stepped(rom, m, c) == m <==> Settled(rom, m, c)
  {
    hide Ideal;
    StepLocal(rom, m, c, c);
  }

  /** If the last step restores the map, there was nothing to restore. */
  lemma LastStepFirst(rom: seq<Byte>, m: seq<Byte>, cells: seq<Cell>, c: Cell)
    requires |rom| >= 0x80 && |m| == MAP_SIZE && c !in cells
    requires Stepped(rom, Swept(rom, m, cells), c) == m
    ensures Swept(rom, m, cells) == m
  {
    hide Block, Stepped, Swept;
    var n := Swept(rom, m, cells);
    forall d: Cell | d.InWorld() ensures Block(n, d) == Block(m, d) {
      StepLocal(rom, n, c, d);
      SweepConserves(rom, m, cells, d);
    }
    SameBlocks(m, n);
  }

  /** A sweep changes nothing exactly when every cell it visits is settled in the map it starts from. */
  lemma {:induction false} FixedPoint(rom: seq<Byte>, m: seq<Byte>, cells: seq<Cell>)
    requires |rom| >= 0x80 && |m| == MAP_SIZE
    requires forall i, j :: 0 <= i < j < |cells| ==> Before(cells[i], cells[j])
    requires forall c :: c in cells ==> c.InWorld()
    ensures Swept(rom, m, cells) == m <==> forall c :: c in cells ==> Settled(rom, m, c)
    decreases |cells|
  {
    hide Stepped, Settled;
    if cells != [] {
      var front, c := cells[..|cells| - 1], cells[|cells| - 1];
      assert cells == front + [c];
      FixedPoint(rom, m, front);
      StepChangesNothing(rom, m, c);
      if Swept(rom, m, cells) == m {
        assert c !in front;
        LastStepFirst(rom, m, front, c);
      }
    }
  }

  // ------------------------------------------------------------- where the water comes from

  /** d carries water to c: from above, or from beside it at one level less, on solid ground. */
  ghost predicate Supports(rom: seq<Byte>, m: seq<Byte>, c: Cell, d: Cell)
    requires |rom| >= 0x80 && |m| == MAP_SIZE
  {
    && Water(Block(m, d))
    && (d == c.Up() || (Beside(c, d) && Solid(rom, Block(m, d.Down())) && Block(m, c) == Block(m, d) + 1))
  }

  /** A path of supports through flowing cells of the box to a source, or to water outside. */
  ghost predicate Fed(rom: seq<Byte>, m: seq<Byte>, box: Box, path: seq<Cell>)
    requires |rom| >= 0x80 && |m| == MAP_SIZE
  {
    && |path| >= 2
    && (forall i :: 0 <= i < |path| - 1 ==> box.Has(path[i]) && Flowing(Block(m, path[i])) && Supports(rom, m, path[i], path[i + 1]))
    && Water(Block(m, path[|path| - 1]))
    && (Block(m, path[|path| - 1]) == 6 || !box.Has(path[|path| - 1]))
  }

  lemma SupportOf(rom: seq<Byte>, m: seq<Byte>, c: Cell) returns (d: Cell)
    requires |rom| >= 0x80 && |m| == MAP_SIZE && Flowing(Block(m, c)) && Settled(rom, m, c)
    ensures Supports(rom, m, c, d)
    ensures d.y > c.y || (d.y == c.y && Block(m, d) < Block(m, c))
  {
    hide Block;
    if Water(Block(m, c.Up())) {
      d := c.Up();
    } else {
      d :| Beside(c, d) && Level(rom, m, d) == Nearest(rom, m, c);
    }
  }

  /** Water that reaches a cell from a source, or from outside the box. */
  ghost predicate IsFed(rom: seq<Byte>, m: seq<Byte>, box: Box, c: Cell)
    requires |rom| >= 0x80 && |m| == MAP_SIZE
  {
    exists path :: Fed(rom, m, box, path) && path[0] == c
  }

  /** If a sweep leaves the map as it was, no water hangs in the air. */
  lemma StillWaterIsFed(rom: seq<Byte>, m: seq<Byte>, cells: seq<Cell>, box: Box)
    requires |rom| >= 0x80 && |m| == MAP_SIZE && box.InWorld() && InOrder(cells, box) && Swept(rom, m, cells) == m
    ensures forall c :: box.Has(c) && Flowing(Block(m, c)) ==> IsFed(rom, m, box, c)
  {
    hide Swept, Settled, Fed, Block;
    FixedPoint(rom, m, cells);
    forall c | box.Has(c) && Flowing(Block(m, c)) ensures IsFed(rom, m, box, c) {
      var path := FlowHasSource(rom, m, box, c);
    }
  }

  /** A sweep leaves the map as it was exactly when there is nothing left to flow anywhere in the box. */
  lemma StillIffBalanced(rom: seq<Byte>, m: seq<Byte>, cells: seq<Cell>, box: Box)
    requires |rom| >= 0x80 && |m| == MAP_SIZE && box.InWorld() && InOrder(cells, box)
    ensures Swept(rom, m, cells) == m <==> forall c :: box.Has(c) ==> Balanced(rom, m, c)
  {
    hide Swept, Settled, Balanced, Block;
    FixedPoint(rom, m, cells);
    forall c: Cell ensures Settled(rom, m, c) <==> Balanced(rom, m, c) {
      SettledIff(rom, m, c);
    }
  }

  /** In a fixed point no water hangs in the air: all of it flows from a source or from outside the box. */
  lemma {:induction false} FlowHasSource(rom: seq<Byte>, m: seq<Byte>, box: Box, c: Cell) returns (path: seq<Cell>)
    requires |rom| >= 0x80 && |m| == MAP_SIZE
    requires forall d :: box.Has(d) ==> Settled(rom, m, d)
    requires box.Has(c) && Flowing(Block(m, c))
    ensures Fed(rom, m, box, path) && path[0] == c
    decreases SIDE - c.y, Block(m, c)
  {
    var d := SupportOf(rom, m, c);
    assert c.y < SIDE;
    if Flowing(Block(m, d)) && box.Has(d) {
      var rest := FlowHasSource(rom, m, box, d);
      path := [c] + rest;
      hide Block, Supports;
      forall i | 0 <= i < |path| - 1
        ensures box.Has(path[i]) && Flowing(Block(m, path[i])) && Supports(rom, m, path[i], path[i + 1])
      {
        if i > 0 { assert path[i] == rest[i - 1] && path[i + 1] == rest[i]; }
      }
    } else {
      path := [c, d];
    }
  }
}
