/**
 The running game (main.c): one map, one player, one ray hit, changed in place by the tick's
 functions. Whatever the keys, the ray and the ROM's other records, the player is never in a wall.
 */
module Game {
  import opened Bytes
  import opened Blocks
  import opened Movement
  import opened Rays
  import opened WaterFlow

  // ------------------------------------------------------------- breaking and placing, on map values

  /** The block is gone; dirt below turns to grass. */
  ghost function Broken(rom: seq<Byte>, m: seq<Byte>, ray: RayResult, beyond: Byte): (m': seq<Byte>)
    requires |rom| >= 0x80 && |m| == MAP_SIZE
    ensures |m'| == MAP_SIZE
  {
    if !Destructible(rom, ray.hit, beyond) then m
    else
      var a := With(m, ray.cell, 0);
      if Block(a, ray.cell.Down()) == 3 then With(a, ray.cell.Down(), 2) else a
  }

  /** The block is placed unless that hits the player; grass below turns to dirt. */
  ghost function PlacedBlock(rom: seq<Byte>, m: seq<Byte>, p: Body, ray: RayResult, b: Byte): (m': seq<Byte>)
    requires |rom| >= 0x80 && |m| == MAP_SIZE
    ensures |m'| == MAP_SIZE
  {
    var t := Target(rom, ray);
    if Solid(rom, Block(m, t)) then m
    else
      var a := With(m, t, b);
      if !Free(rom, a, p) then With(a, t, 0)
      else if Block(a, t.Down()) == 2 then With(a, t.Down(), 3)
      else a
  }

  /** Setting a block that is no more solid than what was there. */
  lemma SofterStaysFree(rom: seq<Byte>, m: seq<Byte>, c: Cell, b: Byte, p: Body)
    requires |rom| >= 0x80 && |m| == MAP_SIZE && Free(rom, m, p)
    requires Solid(rom, b) ==> Solid(rom, Block(m, c))
    ensures Free(rom, With(m, c, b), p)
  {
    hide Block, With;
    forall d: Cell | Solid(rom, Block(With(m, c, b), d)) ensures Solid(rom, Block(m, d)) {
      BlockAfter(m, c, b, d);
    }
    StaysFree(rom, m, With(m, c, b), p);
  }

  lemma BrokenStaysFree(rom: seq<Byte>, m: seq<Byte>, ray: RayResult, beyond: Byte, p: Body)
    requires GoodRom(rom) && |m| == MAP_SIZE && Free(rom, m, p)
    ensures Free(rom, Broken(rom, m, ray, beyond), p)
  {
    hide Free, Block, With;
    SofterStaysFree(rom, m, ray.cell, 0, p);
    var a := With(m, ray.cell, 0);
    if Block(a, ray.cell.Down()) == 3 {
      SofterStaysFree(rom, a, ray.cell.Down(), 2, p);
    }
  }

  lemma PlacedStaysFree(rom: seq<Byte>, m: seq<Byte>, p: Body, ray: RayResult, b: Byte)
    requires GoodRom(rom) && |m| == MAP_SIZE && Free(rom, m, p)
    ensures Free(rom, PlacedBlock(rom, m, p, ray, b), p)
  {
    hide Free, Block, With;
    var t := Target(rom, ray);
    var a := With(m, t, b);
    if Solid(rom, Block(m, t)) {
    } else if !Free(rom, a, p) {
      SofterStaysFree(rom, m, t, 0, p);
      Overwritten(m, t, b, 0);
    } else if Block(a, t.Down()) == 2 {
      SofterStaysFree(rom, a, t.Down(), 3, p);
    }
  }

  /** Block by block: the broken one is air, dirt below it is grass, and no other changes. */
  lemma BrokenBlocks(rom: seq<Byte>, m: seq<Byte>, ray: RayResult, beyond: Byte, d: Cell)
    requires |rom| >= 0x80 && |m| == MAP_SIZE
    ensures Block(Broken(rom, m, ray, beyond), d) ==
            if !d.InWorld() || !Destructible(rom, ray.hit, beyond) then Block(m, d)
            else if d == ray.cell then 0
            else if d == ray.cell.Down() && Block(m, d) == 3 then 2
            else Block(m, d)
  {
    hide Block, With;
    var a := With(m, ray.cell, 0);
    BlockAfter(m, ray.cell, 0, d);
    BlockAfter(m, ray.cell, 0, ray.cell.Down());
    BlockAfter(a, ray.cell.Down(), 2, d);
  }

  /**
   The same for placing: into solid ground nothing, into the player air, else the new block, with grass below it
   turned to dirt; and no other changes.
   */
  lemma PlacedBlocks(rom: seq<Byte>, m: seq<Byte>, p: Body, ray: RayResult, b: Byte, d: Cell)
    requires |rom| >= 0x80 && |m| == MAP_SIZE
    ensures var t := Target(rom, ray);
            Block(PlacedBlock(rom, m, p, ray, b), d) ==
            if !d.InWorld() || Solid(rom, Block(m, t)) then Block(m, d)
            else if d == t then (if Free(rom, With(m, t, b), p) then b else 0)
            else if d == t.Down() && Free(rom, With(m, t, b), p) && Block(m, d) == 2 then 3
            else Block(m, d)
  {
    hide Block, With, Free;
    var t := Target(rom, ray);
    var a := With(m, t, b);
    BlockAfter(m, t, b, d);
    BlockAfter(m, t, b, t.Down());
    BlockAfter(a, t, 0, d);
    BlockAfter(a, t.Down(), 3, d);
  }

  lemma Overwritten(m: seq<Byte>, c: Cell, b: Byte, b': Byte)
    requires |m| == MAP_SIZE
    ensures With(With(m, c, b), c, b') == With(m, c, b')
  {
  }

  /** A refused placement restores the map exactly when the target was air: it wipes water out. */
  lemma RefusedPlacement(rom: seq<Byte>, m: seq<Byte>, p: Body, ray: RayResult, b: Byte)
    requires GoodRom(rom) && |m| == MAP_SIZE && Free(rom, m, p)
    requires !Solid(rom, Block(m, Target(rom, ray))) && !Free(rom, With(m, Target(rom, ray), b), p)
    ensures PlacedBlock(rom, m, p, ray, b) == m <==> Block(m, Target(rom, ray)) == 0
  {
    hide Free, Block;
    var t := Target(rom, ray);
    Overwritten(m, t, b, 0);
    OutsideIgnored(m, t, b);
    BlockAfter(m, t, 0, t);
    PutBack(m, t, 0);
    PutBackSame(m, t);
  }

  lemma OutsideIgnored(m: seq<Byte>, c: Cell, b: Byte)
    requires |m| == MAP_SIZE
    ensures c.InWorld() || With(m, c, b) == m
  {
  }

  lemma PutBackSame(m: seq<Byte>, c: Cell)
    requires |m| == MAP_SIZE
    ensures With(m, c, Block(m, c)) == m
  {
  }

  // ------------------------------------------------------------- the state

  class World {
    const rom: seq<Byte>           // block_info
    const sram: array<Byte>        // the map
    var x: int
    var y: int
    var z: int
    var h: int
    var w: int
    var vy: int
    var isUnderwater: bool
    var viewUnderwater: bool
    var onGround: bool
    var faceBlock: bool
    var selectBlockType: Byte
    var lastHit: RayResult

    constructor (rom: seq<Byte>, sram: array<Byte>, p: Player)
      requires GoodRom(rom) && sram.Length == MAP_SIZE
      ensures this.rom == rom && this.sram == sram && Valid() && Now() == p
      ensures !isUnderwater && !viewUnderwater && !faceBlock && selectBlockType == 1 && lastHit.hit == 0
    {
      this.rom, this.sram := rom, sram;
      x, y, z, w, h := p.body.x, p.body.y, p.body.z, p.body.w, p.body.h;
      vy, onGround := p.vy, p.onGround;
      isUnderwater, viewUnderwater, faceBlock, selectBlockType := false, false, false, 1;
      lastHit := RayResult(0, 0, Cell(0, 0, 0), Cell(0, 0, 0));
    }

    ghost predicate Valid()
      reads this
    {
      GoodRom(rom) && sram.Length == MAP_SIZE
    }

    ghost function Now(): Player
      reads this
    {
      Player(Body(x, y, z, w, h), vy, onGround)
    }

    /** The safety property: the player's box overlaps no solid block, and it is not too high. */
    ghost predicate Safe()
      reads this, sram
    {
      Valid() && Fits(Now().body) && Free(rom, sram[..], Now().body) && Bounded(Now())
    }

    /** What the player faces is the block that is there. */
    ghost predicate Aimed()
      reads this, sram
    {
      Valid() && (faceBlock ==> lastHit.cell.InWorld() && lastHit.hit == Block(sram[..], lastHit.cell))
    }

    method GetBlock(c: Cell) returns (b: Byte)
      requires Valid()
      ensures b == Block(sram[..], c)
    {
      if c.x < 0 || c.x >= SIDE || c.y < 0 || c.z < 0 || c.z >= SIDE { return 15; }
      if c.y >= SIDE { return 0; }
      return sram[c.Index()];
    }

    method SetBlock(c: Cell, b: Byte)
      requires Valid()
      modifies sram
      ensures sram[..] == With(old(sram[..]), c, b)
    {
      if c.x < 0 || c.x >= SIDE || c.y < 0 || c.y >= SIDE || c.z < 0 || c.z >= SIDE { return; }
      sram[c.Index()] := b;
    }

    method CheckHitAABB(px: int, py: int, pz: int, w: int, h: int) returns (hit: bool)
      requires Valid()
      ensures hit <==> !Free(rom, sram[..], Body(px, py, pz, w, h))
    {
      ghost var m, p := sram[..], Body(px, py, pz, w, h);
      var minX, maxX := (px - w) / S, (px + w) / S;
      var minY, maxY := py / S, (py + h) / S;
      var minZ, maxZ := (pz - w) / S, (pz + w) / S;
      var cx := minX;
      while cx <= maxX
        invariant minX <= cx
        invariant forall c :: Touches(p, c) && c.x < cx ==> !Solid(rom, Block(m, c))
        decreases maxX - cx
      {
        var cy := minY;
        while cy <= maxY
          invariant minY <= cy
          invariant forall c :: Touches(p, c) && (c.x < cx || (c.x == cx && c.y < cy)) ==> !Solid(rom, Block(m, c))
          decreases maxY - cy
        {
          var cz := minZ;
          while cz <= maxZ
            invariant minZ <= cz
            invariant forall c :: Touches(p, c) && (c.x < cx || (c.x == cx && (c.y < cy || (c.y == cy && c.z < cz)))) ==>
                        !Solid(rom, Block(m, c))
            decreases maxZ - cz
          {
            var b := GetBlock(Cell(cx, cy, cz));
            if Solid(rom, b) {
              assert Touches(p, Cell(cx, cy, cz));
              return true;
            }
            cz := cz + 1;
          }
          cy := cy + 1;
        }
        cx := cx + 1;
      }
      return false;
    }

    method MoveAlongX(dx: int)
      requires Valid()
      modifies this`x
      ensures Now() == MovedX(rom, sram[..], old(Now()), dx)
    {
      hide Free;
      var hit := CheckHitAABB(x + dx, y, z, w, h);
      if !hit {
        x := x + dx;
      } else {
        if dx > 0 { x := (x / S + 1) * S - w - 1; } else { x := x / S * S + w + 1; }
      }
    }

    method MoveAlongY(dy: int)
      requires Valid()
      modifies this`y, this`vy, this`onGround
      ensures Now() == MovedY(rom, sram[..], old(Now()), dy)
    {
      hide Free;
      var hit := CheckHitAABB(x, y + dy, z, w, h);
      if !hit {
        y := y + dy;
        onGround := false;
      } else {
        if dy > 0 {
          y := ((y + h) / S + 1) * S - h - 1;
          onGround := false;
        } else {
          y := y / S * S + 1;
          onGround := true;
        }
        vy := 0;
      }
    }

    method MoveAlongZ(dz: int)
      requires Valid()
      modifies this`z
      ensures Now() == MovedZ(rom, sram[..], old(Now()), dz)
    {
      hide Free;
      var hit := CheckHitAABB(x, y, z + dz, w, h);
      if !hit {
        z := z + dz;
      } else {
        if dz > 0 { z := (z / S + 1) * S - w - 1; } else { z := z / S * S + w + 1; }
      }
    }

    method MovePlayer(dx: int, dy: int, dz: int)
      requires Valid()
      modifies this`x, this`y, this`z, this`vy, this`onGround
      ensures Now() == Moved(rom, sram[..], old(Now()), dx, dy, dz)
      ensures Fits(old(Now().body)) && old(Free(rom, sram[..], Now().body)) ==> Free(rom, sram[..], Now().body)
    {
      hide Free, Fits, MovedX, MovedY, MovedZ;
      if Fits(Now().body) && Free(rom, sram[..], Now().body) {
        MovedStaysFree(rom, sram[..], Now(), dx, dy, dz);
      }
      MoveAlongX(dx);
      MoveAlongY(dy);
      MoveAlongZ(dz);
    }

    /** The jump and the pull of gravity. */
    method Accelerate(jump: bool)
      modifies this`vy
      ensures vy == Fall(Jumped(old(vy), jump, isUnderwater, onGround), isUnderwater)
    {
      if jump {
        if isUnderwater { vy := JUMP_WATER; } else if onGround { vy := JUMP; }
      }
      if isUnderwater {
        vy := vy - GRAVITY;
        if vy < -TERMINAL_WATER { vy := -TERMINAL_WATER; }
      } else {
        vy := vy - GRAVITY;
        if vy < -TERMINAL { vy := -TERMINAL; }
      }
    }

    /** The part of updatePlayerLogic after the keys and the tables gave a displacement. */
    method UpdatePlayerLogic(jump: bool, dx: int, dz: int)
      requires Valid()
      modifies this`x, this`y, this`z, this`vy, this`onGround, this`isUnderwater, this`viewUnderwater
      ensures Now() == Updated(rom, sram[..], old(Now()), jump, dx, dz)
      ensures isUnderwater == old(Submerged(sram[..], Now().body))
      ensures viewUnderwater == old(Water(Block(sram[..], Cell(x / S, (y + h) / S, z / S))))
      ensures old(Safe()) ==> Safe()
    {
      hide Free, Moved, Bounded, Fits;
      ghost var p := Now();
      if Safe() {
        UpdatedStaysFree(rom, sram[..], p, jump, dx, dz);
        SameSizeFits(p.body, Updated(rom, sram[..], p, jump, dx, dz).body);
      }
      var cBlock := GetBlock(Cell(x / S, y / S, z / S));
      var hBlock := GetBlock(Cell(x / S, (y + h) / S, z / S));
      isUnderwater := cBlock >= 6 && cBlock <= 9;
      viewUnderwater := hBlock >= 6 && hBlock <= 9;
      Accelerate(jump);
      MovePlayer(dx, vy, dz);
    }

    /** beyond is what the bus answers where the ROM has ended. */
    method BreakBlockAction(beyond: Byte)
      requires Valid()
      modifies sram
      ensures sram[..] == if faceBlock then Broken(rom, old(sram[..]), lastHit, beyond) else old(sram[..])
      ensures old(Safe()) ==> Safe()
    {
      hide Free, Bounded, Fits;
      if Safe() { BrokenStaysFree(rom, sram[..], lastHit, beyond, Now().body); }
      if faceBlock {
        var destructible := beyond;
        if lastHit.hit <= 15 { destructible := rom[8 * lastHit.hit + 4]; }
        if destructible != 0 {
          SetBlock(lastHit.cell, 0);
          var below := GetBlock(lastHit.cell.Down());
          if below == 3 {
            SetBlock(lastHit.cell.Down(), 2);
          }
        }
      }
    }

    method PlaceBlockAction()
      requires Valid()
      modifies sram
      ensures sram[..] == if faceBlock then PlacedBlock(rom, old(sram[..]), Now().body, lastHit, selectBlockType) else old(sram[..])
      ensures old(Safe()) ==> Safe()
    {
      hide Free, Bounded, Fits;
      if Safe() { PlacedStaysFree(rom, sram[..], Now().body, lastHit, selectBlockType); }
      if faceBlock {
        var t := Target(rom, lastHit);
        var b := GetBlock(t);
        if !Solid(rom, b) {
          SetBlock(t, selectBlockType);
          var hit := CheckHitAABB(x, y, z, w, h);
          if hit {
            SetBlock(t, 0);
          } else {
            b := GetBlock(t.Down());
            if b == 2 {
              SetBlock(t.Down(), 3);
            }
          }
        }
      }
    }

    // ----------------------------------------------------------- the ray

    /** castRay, from the eyes. */
    method CastRay(s: Sight) returns (r: RayResult, ghost path: seq<Cell>)
      requires Valid()
      ensures Found(rom, sram[..], path, r, s.beyond) && r.step == Step(s)
      ensures path[0] == Cell(x / S, (y + h) / S, z / S) && exists sd :: Walked(s, path, sd, r.side)
    {
      hide Block, Walked, Step;
      ghost var m := sram[..];
      var step := Step(s);
      var cell, sd := Cell(x / S, (y + h) / S, z / S), s.first;
      var hit: Byte, side, steps := 0, 0, RAY_STEPS;
      path := [cell];
      WalkStarts(s, cell);
      AirSeenThrough(rom, s.beyond);
      while hit == 0 && steps > 0
        invariant 0 <= steps <= RAY_STEPS && |path| == RAY_STEPS - steps + 1 && path[0] == Cell(x / S, (y + h) / S, z / S)
        invariant Walked(s, path, sd, side) && path[|path| - 1] == cell
        invariant |path| > 1 ==> cell == Along(path[|path| - 2], step, side) && 0 <= side < 3 && cell.InWorld()
        invariant Clear(rom, m, path, if hit == 0 then |path| else |path| - 1, s.beyond)
        invariant hit != 0 ==> |path| > 1 && hit == Block(m, cell) && !SeenThrough(rom, hit, s.beyond)
        decreases steps
      {
        WalkOnward(s, path, sd, side);
        if sd.x < sd.y {
          if sd.x < sd.z {
            sd, cell, side := sd.(x := Add32(sd.x, s.delta.x)), cell.(x := cell.x + step.x), 0;
          } else {
            sd, cell, side := sd.(z := Add32(sd.z, s.delta.z)), cell.(z := cell.z + step.z), 2;
          }
        } else {
          if sd.y < sd.z {
            sd, cell, side := sd.(y := Add32(sd.y, s.delta.y)), cell.(y := cell.y + step.y), 1;
          } else {
            sd, cell, side := sd.(z := Add32(sd.z, s.delta.z)), cell.(z := cell.z + step.z), 2;
          }
        }
        path := path + [cell];
        if !cell.InWorld() { break; }
        var b := GetBlock(cell);
        hit := if SeenThrough(rom, b, s.beyond) then 0 else b;
        steps := steps - 1;
      }
      r := RayResult(hit, side, cell, step);
    }

    // ----------------------------------------------------------- water

    method SideLevel(c: Cell) returns (n: nat)
      requires Valid()
      ensures Water(n) ==> n == Level(rom, sram[..], c)
      ensures !Water(n) ==> Level(rom, sram[..], c) == 10
    {
      var ground := GetBlock(c.Down());
      n := 10;
      if Solid(rom, ground) { n := GetBlock(c); }
    }

    method IdealType(c: Cell) returns (ideal: Byte)
      requires Valid()
      ensures ideal == Ideal(rom, sram[..], c)
    {
      hide Level, Block, Beside, Solid, Ideal;
      IdealFrom(rom, sram[..], c);
      ideal := 0;
      var above := GetBlock(c.Up());
      if above >= 6 && above <= 9 {
        ideal := 7;
      } else {
        var minW := 10;
        var n1 := SideLevel(Cell(c.x + 1, c.y, c.z));
        var n2 := SideLevel(Cell(c.x - 1, c.y, c.z));
        var n3 := SideLevel(Cell(c.x, c.y, c.z + 1));
        var n4 := SideLevel(Cell(c.x, c.y, c.z - 1));
        ghost var m := sram[..];
        if n1 >= 6 && n1 <= 9 { minW := Min(minW, n1); }
        assert minW == Level(rom, m, Cell(c.x + 1, c.y, c.z));
        ghost var w1 := minW;
        if n2 >= 6 && n2 <= 9 { minW := Min(minW, n2); }
        assert minW == Min(w1, Level(rom, m, Cell(c.x - 1, c.y, c.z)));
        ghost var w2 := minW;
        if n3 >= 6 && n3 <= 9 { minW := Min(minW, n3); }
        assert minW == Min(w2, Level(rom, m, Cell(c.x, c.y, c.z + 1)));
        ghost var w3 := minW;
        if n4 >= 6 && n4 <= 9 { minW := Min(minW, n4); }
        assert minW == Min(w3, Level(rom, m, Cell(c.x, c.y, c.z - 1)));
        if minW <= 8 { ideal := minW + 1; }
      }
    }

    method SimulateCell(c: Cell)
      requires Valid()
      modifies sram
      ensures sram[..] == Stepped(rom, old(sram[..]), c)
      ensures c.InWorld() ==> Balanced(rom, sram[..], c)
      ensures forall d :: d != c ==> Block(sram[..], d) == Block(old(sram[..]), d)
    {
      hide Block, Ideal, Balanced;
      ghost var m := sram[..];
      StepBalances(rom, m, c);
      var type_ := GetBlock(c);
      if type_ == 0 || (type_ >= 7 && type_ <= 9) {
        var ideal := IdealType(c);
        if ideal != type_ {
          if ideal != 0 || type_ != 0 { SetBlock(c, ideal); }
        } else {
          PutBackSame(m, c);
        }
      }
    }

    lemma SweptFrom(m: seq<Byte>)
      requires |rom| >= 0x80 && |m| == MAP_SIZE
      ensures Swept(rom, m, []) == m
    {
    }

    lemma SweptMore(m: seq<Byte>, cells: seq<Cell>, c: Cell)
      requires |rom| >= 0x80 && |m| == MAP_SIZE
      ensures Swept(rom, m, cells + [c]) == Stepped(rom, Swept(rom, m, cells), c)
    {
      assert (cells + [c])[..|cells|] == cells;
    }

    /** The sweep in place, with the list of cells it went through. */
    method WaterSim() returns (ghost cells: seq<Cell>)
      requires Valid()
      modifies sram
      ensures InOrder(cells, SimBox(Now().body))
      ensures sram[..] == Swept(rom, old(sram[..]), cells)
      ensures old(Safe()) ==> Safe()
      // it is still exactly when there is nothing left to flow
      ensures sram[..] == old(sram[..]) <==> forall c :: SimBox(Now().body).Has(c) ==> Balanced(rom, old(sram[..]), c)
      // still water is fed
      ensures sram[..] == old(sram[..]) ==>
                forall c :: SimBox(Now().body).Has(c) && Flowing(Block(sram[..], c)) ==> IsFed(rom, sram[..], SimBox(Now().body), c)
    {
      hide Free, Bounded, Fits, Stepped, IsFed, Block, Balanced, Swept;
      ghost var m := sram[..];
      SweptFrom(m);
      var box := SimBox(Body(x, y, z, w, h));
      cells := [];
      var cy := box.minY;
      while cy <= box.maxY
        invariant box.minY <= cy && sram[..] == Swept(rom, m, cells)
        invariant SweptUpTo(cells, box, Cell(box.minX, cy, box.minZ))
        decreases box.maxY - cy
      {
        var cz := box.minZ;
        while cz <= box.maxZ
          invariant box.minZ <= cz && sram[..] == Swept(rom, m, cells)
          invariant SweptUpTo(cells, box, Cell(box.minX, cy, cz))
          decreases box.maxZ - cz
        {
          var cx := box.minX;
          while cx <= box.maxX
            invariant box.minX <= cx && sram[..] == Swept(rom, m, cells)
            invariant SweptUpTo(cells, box, Cell(cx, cy, cz))
            decreases box.maxX - cx
          {
            var c := Cell(cx, cy, cz);
            SimulateCell(c);
            NextCell(cells, box, c);
            SweptMore(m, cells, c);
            cells := cells + [c];
            cx := cx + 1;
          }
          NextRow(cells, box, Cell(cx, cy, cz));
          cz := cz + 1;
        }
        NextLayer(cells, box, Cell(box.minX, cy, cz));
        cy := cy + 1;
      }
      AllSwept(cells, box, Cell(box.minX, cy, box.minZ));
      if old(Safe()) { SweepStaysFree(rom, m, cells, Now().body); }
      StillIffBalanced(rom, m, cells, box);
      if sram[..] == m { StillWaterIsFed(rom, m, cells, box); }
    }

    // ----------------------------------------------------------- the game loop

    /** handleActionKeys, then the water when its turn comes. */
    method Reshape(e: Event) returns (ghost cells: seq<Cell>)
      requires Valid()
      modifies sram, this`selectBlockType
      ensures sram[..] == Reshaped(rom, old(sram[..]), Now().body, if faceBlock then e else Idle(e), lastHit, old(selectBlockType), cells)
      ensures e.water ==> InOrder(cells, SimBox(Now().body))
      ensures selectBlockType == e.select
      ensures old(Safe()) ==> Safe()
    {
      hide Free, Bounded, Fits, Broken, PlacedBlock, Swept, InOrder, Block, Balanced, IsFed;
      if e.break_ { BreakBlockAction(e.beyond); }
      if e.place { PlaceBlockAction(); }
      selectBlockType := e.select;
      cells := [];
      if e.water { cells := WaterSim(); }
    }

    /** calcPlayStatus: what the player faces now. */
    method CalcPlayStatus(s: Sight) returns (ghost path: seq<Cell>)
      requires Valid()
      modifies this`lastHit, this`faceBlock
      ensures faceBlock == (lastHit.hit != 0 && s.near) && Aimed()
      ensures Found(rom, sram[..], path, lastHit, s.beyond) && path[0] == Cell(x / S, (y + h) / S, z / S)
    {
      hide Block, Found;
      lastHit, path := CastRay(s);
      faceBlock := lastHit.hit != 0 && s.near;
      FoundIsThere(rom, sram[..], path, lastHit, s.beyond);
    }

    /** One pass of the loop: any keys, any ray, and the water when its turn comes. */
    method Tick(e: Event) returns (ghost cells: seq<Cell>, ghost path: seq<Cell>)
      requires Valid()
      modifies this, sram
      ensures Now() == Updated(rom, old(sram[..]), old(Now()), e.jump, e.dx, e.dz)
      ensures sram[..] == Reshaped(rom, old(sram[..]), Now().body, if old(faceBlock) then e else Idle(e),
                                   old(lastHit), old(selectBlockType), cells)
      ensures e.water ==> InOrder(cells, SimBox(Now().body))
      ensures selectBlockType == e.select && faceBlock == (lastHit.hit != 0 && e.sight.near) && Aimed()
      ensures Found(rom, sram[..], path, lastHit, e.sight.beyond) && path[0] == Cell(x / S, (y + h) / S, z / S)
      ensures old(Safe()) ==> Safe()
      // solid blocks that cannot be broken stay, but for grass and dirt
      ensures old(Aimed()) ==> FirmKept(rom, old(sram[..]), sram[..])
    {
      hide Free, Bounded, Fits, Reshaped, InOrder, Updated, Block, FirmKept, Found, GoodRom;
      ghost var m, aimed, hit, select := sram[..], Aimed(), lastHit, selectBlockType;
      ghost var act := if faceBlock then e else Idle(e);
      UpdatePlayerLogic(e.jump, e.dx, e.dz);
      cells := Reshape(e);
      if aimed { ReshapedFirm(rom, m, Now().body, act, hit, select, cells); }
      path := CalcPlayStatus(e.sight);
    }

    /** Any run of the game: the player is inside the world and in no solid block after every tick. */
    method Play(events: seq<Event>) returns (ghost trace: seq<Player>)
      requires Safe() && Aimed()
      modifies this, sram
      ensures Safe() && Aimed() && |trace| == |events| + 1 && trace[|events|] == Now()
      ensures FirmKept(rom, old(sram[..]), sram[..])
      ensures forall i :: 0 <= i < |trace| ==> Inside(trace[i].body)
    {
      trace := [Now()];
      FreeIsInside(rom, sram[..], Now().body);
      var i := 0;
      hide Free, Bounded, Block;
      while i < |events|
        invariant 0 <= i <= |events| && Safe() && Aimed() && |trace| == i + 1 && trace[i] == Now()
        invariant FirmKept(rom, old(sram[..]), sram[..])
        invariant forall j :: 0 <= j < |trace| ==> Inside(trace[j].body)
      {
        ghost var cells, path := Tick(events[i]);
        FreeIsInside(rom, sram[..], Now().body);
        trace := trace + [Now()];
        i := i + 1;
      }
    }
  }

  lemma SameSizeFits(p: Body, q: Body)
    requires Fits(p) && q.w == p.w && q.h == p.h
    ensures Fits(q)
  {
  }

  predicate Inside(p: Body) {
    p.w <= p.x && p.x + p.w < SIDE * S && 0 <= p.y && p.w <= p.z && p.z + p.w < SIDE * S
  }

  /** What one tick takes from outside: keys, displacement, action keys, and the ray cast at its end. */
  datatype Event = Event(jump: bool, dx: int, dz: int, break_: bool, place: bool, select: Byte, water: bool,
                         beyond: Byte, sight: Sight)

  /** Without a faced block the action keys do nothing. */
  function Idle(e: Event): Event {
    e.(break_ := false, place := false)
  }

  /** The map after a tick: broken, then placed, then, when its turn has come, swept. */
  ghost function Reshaped(rom: seq<Byte>, m: seq<Byte>, p: Body, e: Event, ray: RayResult, select: Byte, cells: seq<Cell>): seq<Byte>
    requires |rom| >= 0x80 && |m| == MAP_SIZE
  {
    var a := if e.break_ then Broken(rom, m, ray, e.beyond) else m;
    var b := if e.place then PlacedBlock(rom, a, p, ray, select) else a;
    if e.water then Swept(rom, b, cells) else b
  }

  // ------------------------------------------------------------- what stays

  /** A block that nothing in the game changes: solid, not to be broken, and neither grass nor dirt. Bedrock is one. */
  predicate Firm(rom: seq<Byte>, b: Byte)
    requires |rom| >= 0x80
  {
    b <= 15 && Solid(rom, b) && !Destructible(rom, b, 0) && b != 2 && b != 3
  }

  ghost predicate FirmKept(rom: seq<Byte>, m: seq<Byte>, m': seq<Byte>)
    requires |rom| >= 0x80 && |m| == |m'| == MAP_SIZE
  {
    forall c: Cell :: Firm(rom, Block(m, c)) ==> Block(m', c) == Block(m, c)
  }

  /** Breaking is decided by the block that is there, placing and water spare solid ones. */
  lemma ReshapedFirm(rom: seq<Byte>, m: seq<Byte>, p: Body, e: Event, ray: RayResult, select: Byte, cells: seq<Cell>)
    requires GoodRom(rom) && |m| == MAP_SIZE && (e.break_ ==> ray.hit == Block(m, ray.cell))
    ensures FirmKept(rom, m, Reshaped(rom, m, p, e, ray, select, cells))
  {
    hide Block, Free, Swept, Broken, PlacedBlock;
    var a := if e.break_ then Broken(rom, m, ray, e.beyond) else m;
    var b := if e.place then PlacedBlock(rom, a, p, ray, select) else a;
    forall c: Cell | Firm(rom, Block(m, c)) ensures Block(Reshaped(rom, m, p, e, ray, select, cells), c) == Block(m, c) {
      if e.break_ { BrokenBlocks(rom, m, ray, e.beyond, c); }
      if e.place { PlacedBlocks(rom, a, p, ray, select, c); }
      SweepConserves(rom, b, cells, c);
    }
  }

  /** With the shipped ROM it is bedrock and nothing else. */
  lemma BedrockIsFirm(rom: seq<Byte>)
    requires |rom| == 0x80 && forall b :: 0 <= b < 16 ==> rom[8 * b + 3] == PASSABLE[b] && rom[8 * b + 4] == BREAKABLE[b]
    ensures GoodRom(rom) && forall b: Byte :: Firm(rom, b) <==> b == 15
  {
    ShippedRomGood(rom);
    forall b: Byte ensures Firm(rom, b) <==> b == 15 {
      if b < 16 { assert rom[8 * b + 3] == PASSABLE[b] && rom[8 * b + 4] == BREAKABLE[b]; }
    }
  }

  lemma FoundIsThere(rom: seq<Byte>, m: seq<Byte>, path: seq<Cell>, r: RayResult, beyond: int -> Byte)
    requires |rom| >= 0x80 && |m| == MAP_SIZE && Found(rom, m, path, r, beyond)
    ensures r.hit != 0 ==> r.cell.InWorld() && r.hit == Block(m, r.cell)
  {
  }

  // ------------------------------------------------------------- the order of the sweep

  /** cells are the cells of the box before c, in order. */
  ghost predicate SweptUpTo(cells: seq<Cell>, box: Box, c: Cell) {
    && (forall i, j :: 0 <= i < j < |cells| ==> Before(cells[i], cells[j]))
    && (forall d :: d in cells <==> box.Has(d) && Before(d, c))
  }

  lemma NextCell(cells: seq<Cell>, box: Box, c: Cell)
    requires SweptUpTo(cells, box, c) && box.Has(c)
    ensures SweptUpTo(cells + [c], box, Cell(c.x + 1, c.y, c.z))
  {
  }

  lemma NextRow(cells: seq<Cell>, box: Box, c: Cell)
    requires SweptUpTo(cells, box, c) && c.x > box.maxX
    ensures SweptUpTo(cells, box, Cell(box.minX, c.y, c.z + 1))
  {
  }

  lemma NextLayer(cells: seq<Cell>, box: Box, c: Cell)
    requires SweptUpTo(cells, box, c) && c.z > box.maxZ
    ensures SweptUpTo(cells, box, Cell(box.minX, c.y + 1, box.minZ))
  {
  }

  lemma AllSwept(cells: seq<Cell>, box: Box, c: Cell)
    requires SweptUpTo(cells, box, c) && c.y > box.maxY
    ensures InOrder(cells, box)
  {
  }
}
