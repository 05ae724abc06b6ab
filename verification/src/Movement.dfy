/**
 Moving the player (main.c, movePlayer, updatePlayerLogic): one axis at a time, snapping to the
 block boundary on a hit. A box that is free stays free, and its height stays bounded.
 */
module Movement {
  import opened Bytes
  import opened Blocks

  const GRAVITY := 4915
  const TERMINAL := 196608
  const TERMINAL_WATER := 6553
  const JUMP := 31086
  const JUMP_WATER := 17947

  datatype Player = Player(body: Body, vy: int, onGround: bool) {
    function At(x: int, y: int, z: int): Player {
      this.(body := Body(x, y, z, body.w, body.h))
    }
  }

  /** The sizes of the box that make the snaps work; 0.3 and 1.8 blocks satisfy them. */
  predicate Fits(p: Body) {
    0 <= p.w && 2 * p.w + 1 < S && 0 <= p.h && p.h % S + 1 < S
  }

  // ------------------------------------------------------------- snapping

  /** x or z after a hit in a positive or another direction. */
  function Snap(v: int, w: int, d: int): int {
    if d > 0 then (v / S + 1) * S - w - 1 else v / S * S + w + 1
  }

  function SnapY(y: int, h: int, d: int): int {
    if d > 0 then ((y + h) / S + 1) * S - h - 1 else y / S * S + 1
  }

  /** The snapped box lies in the one column its centre was in. */
  lemma SnapInside(v: int, w: int, d: int)
    requires 0 <= w && 2 * w + 1 < S
    ensures (Snap(v, w, d) - w) / S == v / S == (Snap(v, w, d) + w) / S
    ensures (v - w) / S <= v / S <= (v + w) / S
  {
  }

  /** One unit off the upper side of it, two off the lower one. */
  lemma SnapEdge(v: int, w: int, d: int)
    requires 0 <= w && 2 * w + 1 < S
    ensures if d > 0 then (Snap(v, w, d) + 1 - w) / S <= v / S + 1 == (Snap(v, w, d) + 1 + w) / S
            else (Snap(v, w, d) - 2 - w) / S == v / S - 1 <= (Snap(v, w, d) - 2 + w) / S
  {
  }

  /** The snapped box stays within the layers it was in, one unit off the layer that was hit. */
  lemma SnapYInside(y: int, h: int, d: int)
    requires 0 <= h && h % S + 1 < S
    ensures y / S <= SnapY(y, h, d) / S && (SnapY(y, h, d) + h) / S <= (y + h) / S
    ensures d > 0 ==> y <= SnapY(y, h, d) && (SnapY(y, h, d) + h) / S == (y + h) / S && (SnapY(y, h, d) + h + 1) / S > (y + h) / S
    ensures d <= 0 ==> SnapY(y, h, d) / S == y / S && (SnapY(y, h, d) - 2) / S < y / S && SnapY(y, h, d) <= y + 1
  {
    var q, r := h / S, h % S;
    assert h == q * S + r;
    var k, e := y / S, y % S;
    assert y == k * S + e;
    if d <= 0 {
      assert SnapY(y, h, d) == k * S + 1 && SnapY(y, h, d) + h == (k + q) * S + (r + 1);
    }
  }

  /** A box within the cells of a free box is free. */
  lemma Within(rom: seq<Byte>, m: seq<Byte>, p: Body, p': Body)
    requires |rom| >= 0x80 && |m| == MAP_SIZE && Free(rom, m, p)
    requires (p.x - p.w) / S <= (p'.x - p'.w) / S && (p'.x + p'.w) / S <= (p.x + p.w) / S
    requires p.y / S <= p'.y / S && (p'.y + p'.h) / S <= (p.y + p.h) / S
    requires (p.z - p.w) / S <= (p'.z - p'.w) / S && (p'.z + p'.w) / S <= (p.z + p.w) / S
    ensures Free(rom, m, p')
  {
    forall c | Touches(p', c) ensures !Solid(rom, Block(m, c)) {
      assert Touches(p, c);
    }
  }

  // ------------------------------------------------------------- movePlayer, axis by axis

  ghost function MovedX(rom: seq<Byte>, m: seq<Byte>, p: Player, d: int): Player
    requires |rom| >= 0x80 && |m| == MAP_SIZE
  {
    var q := p.At(p.body.x + d, p.body.y, p.body.z);
    if Free(rom, m, q.body) then q else p.At(Snap(p.body.x, p.body.w, d), p.body.y, p.body.z)
  }

  ghost function MovedY(rom: seq<Byte>, m: seq<Byte>, p: Player, d: int): Player
    requires |rom| >= 0x80 && |m| == MAP_SIZE
  {
    var q := p.At(p.body.x, p.body.y + d, p.body.z);
    if Free(rom, m, q.body) then q.(onGround := false)
    else p.At(p.body.x, SnapY(p.body.y, p.body.h, d), p.body.z).(vy := 0, onGround := d <= 0)
  }

  ghost function MovedZ(rom: seq<Byte>, m: seq<Byte>, p: Player, d: int): Player
    requires |rom| >= 0x80 && |m| == MAP_SIZE
  {
    var q := p.At(p.body.x, p.body.y, p.body.z + d);
    if Free(rom, m, q.body) then q else p.At(p.body.x, p.body.y, Snap(p.body.z, p.body.w, d))
  }

  ghost function Moved(rom: seq<Byte>, m: seq<Byte>, p: Player, dx: int, dy: int, dz: int): Player
    requires |rom| >= 0x80 && |m| == MAP_SIZE
  {
    MovedZ(rom, m, MovedY(rom, m, MovedX(rom, m, p, dx), dy), dz)
  }

  lemma MovedXFree(rom: seq<Byte>, m: seq<Byte>, p: Player, d: int)
    requires |rom| >= 0x80 && |m| == MAP_SIZE && Fits(p.body) && Free(rom, m, p.body)
    ensures Free(rom, m, MovedX(rom, m, p, d).body)
  {
    SnapInside(p.body.x, p.body.w, d);
    var q := p.At(p.body.x + d, p.body.y, p.body.z);
    if !Free(rom, m, q.body) {
      Within(rom, m, p.body, MovedX(rom, m, p, d).body);
    }
  }

  /** Moved along x by e. */
  function Pushed(p: Body, e: int): Body {
    p.(x := p.x + e)
  }

  lemma NewHit(rom: seq<Byte>, m: seq<Byte>, b: Body, b': Body) returns (c: Cell)
    requires |rom| >= 0x80 && |m| == MAP_SIZE && Free(rom, m, b) && !Free(rom, m, b')
    ensures Touches(b', c) && !Touches(b, c) && Solid(rom, Block(m, c))
  {
    c :| Touches(b', c) && Solid(rom, Block(m, c));
  }

  lemma NotFree(rom: seq<Byte>, m: seq<Byte>, b: Body, c: Cell)
    requires |rom| >= 0x80 && |m| == MAP_SIZE && Touches(b, c) && Solid(rom, Block(m, c))
    ensures !Free(rom, m, b)
  {
  }

  /**
   A move that hits something and is short enough to reach the next column at most ends right in front of it: one
   unit further in that direction, or two towards the lower side, the box would hit.
   */
  lemma StopsInFront(rom: seq<Byte>, m: seq<Byte>, p: Player, d: int)
    requires |rom| >= 0x80 && |m| == MAP_SIZE && Fits(p.body) && Free(rom, m, p.body)
    requires 0 < d <= S - p.body.w || p.body.w - S <= d < 0
    requires !Free(rom, m, Pushed(p.body, d))
    ensures Free(rom, m, MovedX(rom, m, p, d).body)
    ensures !Free(rom, m, Pushed(MovedX(rom, m, p, d).body, if d > 0 then 1 else -2))
  {
    hide Free, Solid, Block, Snap;
    MovedXFree(rom, m, p, d);
    var c := NewHit(rom, m, p.body, Pushed(p.body, d));
    AdjacentColumn(p.body.x, p.body.w, d, c.x);
    NotFree(rom, m, Pushed(MovedX(rom, m, p, d).body, if d > 0 then 1 else -2), c);
  }

  /** The same along z. */
  lemma StopsInFrontZ(rom: seq<Byte>, m: seq<Byte>, p: Player, d: int)
    requires |rom| >= 0x80 && |m| == MAP_SIZE && Fits(p.body) && Free(rom, m, p.body)
    requires 0 < d <= S - p.body.w || p.body.w - S <= d < 0
    requires !Free(rom, m, p.body.(z := p.body.z + d))
    ensures var q := MovedZ(rom, m, p, d).body; Free(rom, m, q) && !Free(rom, m, q.(z := q.z + if d > 0 then 1 else -2))
  {
    hide Free, Solid, Block, Snap;
    MovedZFree(rom, m, p, d);
    var c := NewHit(rom, m, p.body, p.body.(z := p.body.z + d));
    AdjacentColumn(p.body.z, p.body.w, d, c.z);
    var q := MovedZ(rom, m, p, d).body;
    NotFree(rom, m, q.(z := q.z + if d > 0 then 1 else -2), c);
  }

  /** And upwards and downwards, for at most one block. */
  lemma StopsInFrontY(rom: seq<Byte>, m: seq<Byte>, p: Player, d: int)
    requires GoodRom(rom) && |m| == MAP_SIZE && Fits(p.body) && Free(rom, m, p.body) && -S <= d <= S
    requires !Free(rom, m, p.body.(y := p.body.y + d))
    ensures var q := MovedY(rom, m, p, d).body; Free(rom, m, q) && !Free(rom, m, q.(y := q.y + if d > 0 then 1 else -2))
  {
    MovedYFree(rom, m, p, d);
    var c := HitLayer(rom, m, p.body, d);
    AdjacentLayer(p.body.y, p.body.h, d, c.y);
    var q := MovedY(rom, m, p, d).body;
    assert Touches(q.(y := q.y + if d > 0 then 1 else -2), c);
  }

  lemma AdjacentLayer(y: int, h: int, d: int, c: int)
    requires 0 <= h && -S <= d <= S && (y + d) / S <= c <= (y + d + h) / S
    requires if d > 0 then c > (y + h) / S else c < y / S
    ensures var e := SnapY(y, h, d) + if d > 0 then 1 else -2; e / S <= c <= (e + h) / S
  {
  }

  /** In open space nothing is in the way of a move. */
  lemma OpenSpace(rom: seq<Byte>, m: seq<Byte>, p: Player, dx: int, dy: int, dz: int)
    requires |rom| >= 0x80 && |m| == MAP_SIZE
    requires Free(rom, m, p.body.(x := p.body.x + dx)) && Free(rom, m, p.body.(x := p.body.x + dx, y := p.body.y + dy))
    requires Free(rom, m, p.body.(x := p.body.x + dx, y := p.body.y + dy, z := p.body.z + dz))
    ensures Moved(rom, m, p, dx, dy, dz) == p.At(p.body.x + dx, p.body.y + dy, p.body.z + dz).(onGround := false)
  {
    hide Free;
  }

  lemma AdjacentColumn(v: int, w: int, d: int, c: int)
    requires 0 <= w && 2 * w + 1 < S && (0 < d <= S - w || w - S <= d < 0)
    requires (v + d - w) / S <= c <= (v + d + w) / S && !((v - w) / S <= c <= (v + w) / S)
    ensures var e := Snap(v, w, d) + if d > 0 then 1 else -2; (e - w) / S <= c <= (e + w) / S
  {
    assert c == if d > 0 then v / S + 1 else v / S - 1;
    SnapEdge(v, w, d);
  }

  lemma MovedYFree(rom: seq<Byte>, m: seq<Byte>, p: Player, d: int)
    requires |rom| >= 0x80 && |m| == MAP_SIZE && Fits(p.body) && Free(rom, m, p.body)
    ensures Free(rom, m, MovedY(rom, m, p, d).body)
  {
    SnapYInside(p.body.y, p.body.h, d);
    var q := p.At(p.body.x, p.body.y + d, p.body.z);
    if !Free(rom, m, q.body) {
      Within(rom, m, p.body, MovedY(rom, m, p, d).body);
    }
  }

  lemma MovedZFree(rom: seq<Byte>, m: seq<Byte>, p: Player, d: int)
    requires |rom| >= 0x80 && |m| == MAP_SIZE && Fits(p.body) && Free(rom, m, p.body)
    ensures Free(rom, m, MovedZ(rom, m, p, d).body)
  {
    SnapInside(p.body.z, p.body.w, d);
    var q := p.At(p.body.x, p.body.y, p.body.z + d);
    if !Free(rom, m, q.body) {
      Within(rom, m, p.body, MovedZ(rom, m, p, d).body);
    }
  }

  /** No displacement, however large, puts a free box into a solid block. */
  lemma MovedStaysFree(rom: seq<Byte>, m: seq<Byte>, p: Player, dx: int, dy: int, dz: int)
    requires |rom| >= 0x80 && |m| == MAP_SIZE && Fits(p.body) && Free(rom, m, p.body)
    ensures var q := Moved(rom, m, p, dx, dy, dz);
            Free(rom, m, q.body) && q.body.w == p.body.w && q.body.h == p.body.h
  {
    hide Free;
    MovedXFree(rom, m, p, dx);
    var a := MovedX(rom, m, p, dx);
    MovedYFree(rom, m, a, dy);
    MovedZFree(rom, m, MovedY(rom, m, a, dy), dz);
  }

  /** A hit upwards or downwards is on a block of another layer, above or below the box. */
  lemma HitLayer(rom: seq<Byte>, m: seq<Byte>, p: Body, d: int) returns (c: Cell)
    requires GoodRom(rom) && |m| == MAP_SIZE && 0 <= p.h && 0 <= p.w
    requires Free(rom, m, p) && !Free(rom, m, p.(y := p.y + d))
    ensures Solid(rom, Block(m, c)) && Touches(p.(y := p.y + d), c)
    ensures if d > 0 then c.y > (p.y + p.h) / S else d < 0 && c.y < p.y / S
    ensures c.y < SIDE
  {
    c :| Touches(p.(y := p.y + d), c) && Solid(rom, Block(m, c));
    assert !Touches(p, c);
    assert Touches(p, Cell(c.x, p.y / S, c.z));
  }

  /** A solid block is right below the box. */
  ghost predicate StandsOn(rom: seq<Byte>, m: seq<Byte>, p: Body)
    requires |rom| >= 0x80 && |m| == MAP_SIZE
  {
    exists c :: Solid(rom, Block(m, c)) && Below(p, c)
  }

  predicate Below(p: Body, c: Cell) {
    && c.y == p.y / S - 1
    && (p.x - p.w) / S <= c.x <= (p.x + p.w) / S && (p.z - p.w) / S <= c.z <= (p.z + p.w) / S
  }

  /** onGround means what it says, for this map and player and a vertical move of d. */
  ghost predicate Grounded(rom: seq<Byte>, m: seq<Byte>, p: Player, d: int) {
    GoodRom(rom) && |m| == MAP_SIZE && Fits(p.body) && Free(rom, m, p.body) && MovedY(rom, m, p, d).onGround ==>
      StandsOn(rom, m, MovedY(rom, m, p, d).body)
  }

  /** After a fall of at most one block onGround is set over a solid block. */
  lemma LandsAbove(rom: seq<Byte>, m: seq<Byte>, p: Player, d: int)
    requires -S <= d
    ensures Grounded(rom, m, p, d)
  {
    if GoodRom(rom) && |m| == MAP_SIZE && Fits(p.body) && Free(rom, m, p.body) && MovedY(rom, m, p, d).onGround {
      var c := HitLayer(rom, m, p.body, d);
      SnapYInside(p.body.y, p.body.h, d);
      assert Below(MovedY(rom, m, p, d).body, c);
    }
  }

  /** A map of nothing but air above one block in the middle of the world, or above its floor. */
  lemma AirAbove(k: int) returns (m: seq<Byte>)
    requires k <= 8
    ensures |m| == MAP_SIZE && Block(m, Cell(64, k, 64)) == 15 && forall y :: 9 <= y ==> Block(m, Cell(64, y, 64)) == 0
  {
    var air: seq<Byte> := seq(MAP_SIZE, i => 0);
    m := With(air, Cell(64, k, 64), 15);
    BlockAfter(air, Cell(64, k, 64), 15, Cell(64, k, 64));
    forall y | 9 <= y ensures Block(m, Cell(64, y, 64)) == 0 {
      BlockAfter(air, Cell(64, k, 64), 15, Cell(64, y, 64));
    }
  }

  /** For every longer fall there is a map over which it is set with nothing but air below. */
  lemma Hovers(d: int) returns (rom: seq<Byte>, m: seq<Byte>, p: Player)
    requires d < -S
    ensures !Grounded(rom, m, p, d)
  {
    hide Block;
    rom := seq(0x80, i requires 0 <= i < 0x80 => if i % 8 == 3 then PASSABLE[i / 8] else 0);
    ShippedRomGood(rom);
    var ground := Cell(64, (10 * S + d) / S, 64);
    m := AirAbove(ground.y);
    p := Player(Body(64 * S + S / 2, 10 * S, 64 * S + S / 2, 19660, 117964), 0, false);
    forall c | Touches(p.body, c) ensures !Solid(rom, Block(m, c)) {
      assert c == Cell(64, c.y, 64) && 9 <= c.y;
    }
    assert Touches(p.body.(y := 10 * S + d), ground) && Solid(rom, Block(m, ground));
    var q := MovedY(rom, m, p, d).body;
    assert q.y == 10 * S + 1;
    forall c | Below(q, c) ensures !Solid(rom, Block(m, c)) {
      assert c == Cell(64, 9, 64);
    }
  }

  /** So the flag can be relied on, for all maps and players, exactly up to a fall of one block. */
  lemma GroundedIff(d: int)
    ensures (forall rom, m, p :: Grounded(rom, m, p, d)) <==> -S <= d
  {
    if -S <= d {
      forall rom, m, p ensures Grounded(rom, m, p, d) {
        LandsAbove(rom, m, p, d);
      }
    } else {
      var rom, m, p := Hovers(d);
    }
  }

  // ------------------------------------------------------------- how high one gets

  /** The way up that is left at velocity vy. */
  ghost function Climb(vy: int): (c: nat)
    decreases if vy <= GRAVITY then 0 else vy
  {
    if vy <= GRAVITY then 0 else vy - GRAVITY + Climb(vy - GRAVITY)
  }

  lemma {:induction false} ClimbMonotone(v: int, u: int)
    requires v <= u
    ensures Climb(v) <= Climb(u)
    decreases if u <= GRAVITY then 0 else u
  {
    if v > GRAVITY {
      ClimbMonotone(v - GRAVITY, u - GRAVITY);
    }
  }

  /** Three layers over the world, one can still land: TERMINAL is three blocks a tick. */
  ghost function Ceiling(): int { (SIDE + 3) * S + Climb(JUMP) }

  ghost predicate Bounded(p: Player) {
    && -TERMINAL <= p.vy <= JUMP
    && p.body.y + Climb(p.vy) <= Ceiling()
    && (p.onGround ==> p.body.y <= (SIDE + 3) * S)
  }

  /** No jump gets more than two blocks higher. */
  lemma CeilingValue()
    ensures Climb(JUMP) < 2 * S
  {
    assert Climb(31086) == 26171 + Climb(26171);
    assert Climb(26171) == 21256 + Climb(21256);
    assert Climb(21256) == 16341 + Climb(16341);
    assert Climb(16341) == 11426 + Climb(11426);
    assert Climb(11426) == 6511 + Climb(6511);
    assert Climb(6511) == 1596 + Climb(1596);
  }

  lemma MovedYBounded(rom: seq<Byte>, m: seq<Byte>, p: Player)
    requires GoodRom(rom) && |m| == MAP_SIZE && Fits(p.body) && Free(rom, m, p.body)
    requires -TERMINAL <= p.vy <= JUMP && p.body.y <= Ceiling() && p.body.y + p.vy + Climb(p.vy) <= Ceiling()
    ensures Bounded(MovedY(rom, m, p, p.vy))
  {
    var q := p.body.(y := p.body.y + p.vy);
    if !Free(rom, m, q) {
      assert Climb(0) == 0;
      SnapYInside(p.body.y, p.body.h, p.vy);
      var c := HitLayer(rom, m, p.body, p.vy);
      if p.vy <= 0 {
        assert (p.body.y + p.vy) / S <= c.y;
      }
    }
  }

  // ------------------------------------------------------------- updatePlayerLogic

  ghost predicate Submerged(m: seq<Byte>, p: Body)
    requires |m| == MAP_SIZE
  {
    Water(Block(m, Cell(p.x / S, p.y / S, p.z / S)))
  }

  /** The velocity after a jump and one tick of gravity. */
  function Fall(vy: int, submerged: bool): int {
    var v := vy - GRAVITY;
    var t := if submerged then TERMINAL_WATER else TERMINAL;
    if v < -t then -t else v
  }

  function Jumped(vy: int, jump: bool, submerged: bool, onGround: bool): int {
    if jump && submerged then JUMP_WATER else if jump && onGround then JUMP else vy
  }

  ghost function Updated(rom: seq<Byte>, m: seq<Byte>, p: Player, jump: bool, dx: int, dz: int): Player
    requires |rom| >= 0x80 && |m| == MAP_SIZE
  {
    var s := Submerged(m, p.body);
    var vy := Fall(Jumped(p.vy, jump, s, p.onGround), s);
    Moved(rom, m, p.(vy := vy), dx, vy, dz)
  }

  /** One tick of player logic keeps the player free of blocks and below the ceiling. */
  lemma UpdatedStaysFree(rom: seq<Byte>, m: seq<Byte>, p: Player, jump: bool, dx: int, dz: int)
    requires GoodRom(rom) && |m| == MAP_SIZE && Fits(p.body) && Free(rom, m, p.body) && Bounded(p)
    ensures var q := Updated(rom, m, p, jump, dx, dz);
            Free(rom, m, q.body) && Bounded(q) && q.body.w == p.body.w && q.body.h == p.body.h
  {
    hide Free, Climb, Snap, SnapY, MovedY;
    var s := Submerged(m, p.body);
    var vy0 := Jumped(p.vy, jump, s, p.onGround);
    var vy := Fall(vy0, s);
    MovedStaysFree(rom, m, p.(vy := vy), dx, vy, dz);
    JumpBounded(m, p, jump);
    FallBounded(p.body.y, vy0, s);
    MovedXFree(rom, m, p.(vy := vy), dx);
    MovedYBounded(rom, m, MovedX(rom, m, p.(vy := vy), dx));
  }

  lemma JumpBounded(m: seq<Byte>, p: Player, jump: bool)
    requires |m| == MAP_SIZE && Bounded(p)
    ensures p.body.y + Climb(Jumped(p.vy, jump, Submerged(m, p.body), p.onGround)) <= Ceiling()
  {
    hide Climb;
    ClimbMonotone(JUMP_WATER, JUMP);
  }

  lemma FallBounded(y: int, vy: int, s: bool)
    requires -TERMINAL <= vy <= JUMP && y + Climb(vy) <= Ceiling()
    ensures -TERMINAL <= Fall(vy, s) <= JUMP && y + Fall(vy, s) + Climb(Fall(vy, s)) <= Ceiling() && y <= Ceiling()
  {
  }

  /**
   Where both map generators put the player: in the middle of the column in the centre of the world,
   a whole number of blocks up, over the last block of that column.
   */
  lemma SpawnIsSafe(rom: seq<Byte>, m: seq<Byte>, top: int, level: int, p: Player)
    requires GoodRom(rom) && |m| == MAP_SIZE && 0 <= top < level <= SIDE + 2 && -TERMINAL <= p.vy <= JUMP
    requires forall y :: top < y < SIDE ==> Block(m, Cell(SIDE / 2, y, SIDE / 2)) == 0
    requires p.body == Body(SIDE / 2 * S + S / 2, level * S, SIDE / 2 * S + S / 2, 19660, 117964)
    ensures Fits(p.body) && Free(rom, m, p.body) && Bounded(p)
  {
    forall c | Touches(p.body, c) ensures !Solid(rom, Block(m, c)) {
      assert c == Cell(SIDE / 2, c.y, SIDE / 2) && top < c.y;
    }
    ClimbMonotone(p.vy, JUMP);
  }

  /** Every intermediate of an axis move fits an int32: the sums, and the products of the snap after a hit. */
  lemma NoOverflow(rom: seq<Byte>, m: seq<Byte>, p: Player, dx: int, dy: int, dz: int)
    requires GoodRom(rom) && |m| == MAP_SIZE && Fits(p.body) && Free(rom, m, p.body) && Bounded(p)
    requires -TERMINAL <= dy <= JUMP && -0x4000_0000 <= dx <= 0x4000_0000 && -0x4000_0000 <= dz <= 0x4000_0000 && p.body.h <= SIDE * S
    ensures -0x4100_0000 < p.body.x + dx - p.body.w && p.body.x + dx + p.body.w < 0x4100_0000
    ensures -0x100_0000 < p.body.y + dy && p.body.y + dy + p.body.h < 0x200_0000
    ensures -0x4100_0000 < p.body.z + dz - p.body.w && p.body.z + dz + p.body.w < 0x4100_0000
    ensures 0 <= p.body.x / S * S && (p.body.x / S + 1) * S < 0x100_0000
    ensures 0 <= p.body.y / S * S && ((p.body.y + p.body.h) / S + 1) * S < 0x200_0000
    ensures 0 <= p.body.z / S * S && (p.body.z / S + 1) * S < 0x100_0000
  {
    FreeIsInside(rom, m, p.body);
    CeilingValue();
  }

  // ------------------------------------------------------------- flight

  /** n ticks without a key. */
  ghost function Drift(rom: seq<Byte>, m: seq<Byte>, p: Player, n: nat): Player
    requires |rom| >= 0x80 && |m| == MAP_SIZE
  {
    if n == 0 then p else Updated(rom, m, Drift(rom, m, p, n - 1), false, 0, 0)
  }

  /** Uniform acceleration: the way after n ticks from velocity vy on. */
  function Way(vy: int, n: nat): int {
    n * vy - GRAVITY * (n * (n + 1) / 2)
  }

  lemma NextWay(vy: int, n: nat)
    ensures Way(vy, n + 1) == Way(vy, n) + vy - (n + 1) * GRAVITY
  {
    assert (n + 1) * (n + 2) == n * (n + 1) + 2 * (n + 1);
    assert (n + 1) * vy == n * vy + vy;
    var t := n * (n + 1) / 2;
    assert (n + 1) * (n + 2) / 2 == t + (n + 1);
    assert GRAVITY * (t + (n + 1)) == GRAVITY * t + (n + 1) * GRAVITY;
  }

  /** The air is free all the way, and not water. */
  ghost predicate OpenAir(rom: seq<Byte>, m: seq<Byte>, p: Body, vy: int, n: nat)
    requires |rom| >= 0x80 && |m| == MAP_SIZE
  {
    forall i: nat :: i <= n ==> Free(rom, m, p.(y := p.y + Way(vy, i))) && !Submerged(m, p.(y := p.y + Way(vy, i)))
  }

  /** One tick of that. */
  lemma OneTick(rom: seq<Byte>, m: seq<Byte>, p: Player)
    requires |rom| >= 0x80 && |m| == MAP_SIZE && !Submerged(m, p.body) && p.vy - GRAVITY >= -TERMINAL
    requires Free(rom, m, p.body) && Free(rom, m, p.body.(y := p.body.y + (p.vy - GRAVITY)))
    ensures Updated(rom, m, p, false, 0, 0) ==
            p.(body := p.body.(y := p.body.y + (p.vy - GRAVITY)), vy := p.vy - GRAVITY, onGround := false)
  {
    hide Free, Submerged, Moved;
    var vy := p.vy - GRAVITY;
    assert p.body.(x := p.body.x + 0) == p.body && p.body.(x := p.body.x + 0, y := p.body.y + vy) == p.body.(y := p.body.y + vy);
    assert p.body.(x := p.body.x + 0, y := p.body.y + vy, z := p.body.z + 0) == p.body.(y := p.body.y + vy);
    OpenSpace(rom, m, p.(vy := vy), 0, vy, 0);
  }

  /** In open air the player flies like a thrown stone, until the fall is as fast as it gets. */
  lemma {:induction false} Ballistic(rom: seq<Byte>, m: seq<Byte>, p: Player, n: nat)
    requires |rom| >= 0x80 && |m| == MAP_SIZE && OpenAir(rom, m, p.body, p.vy, n) && p.vy - n * GRAVITY >= -TERMINAL
    ensures var q := Drift(rom, m, p, n);
            && q.body == p.body.(y := p.body.y + Way(p.vy, n)) && q.vy == p.vy - n * GRAVITY
            && (n > 0 ==> !q.onGround)
  {
    hide Free, Submerged, Way, Updated;
    if n > 0 {
      assert (n - 1) * GRAVITY == n * GRAVITY - GRAVITY;
      OpenBefore(rom, m, p.body, p.vy, n, n - 1);
      Ballistic(rom, m, p, n - 1);
      NextWay(p.vy, n - 1);
      OneTick(rom, m, Drift(rom, m, p, n - 1));
    } else {
      NoWay(p.vy);
    }
  }

  lemma NoWay(vy: int)
    ensures Way(vy, 0) == 0
  {
  }

  /** A jump from the ground carries the player onto a block, but not onto two: its top is reached after six ticks. */
  lemma JumpHeight(rom: seq<Byte>, m: seq<Byte>, p: Player)
    requires |rom| >= 0x80 && |m| == MAP_SIZE && p.onGround && OpenAir(rom, m, p.body, JUMP, 7)
    ensures var q := Updated(rom, m, p, true, 0, 0);
            && S < Drift(rom, m, q, 5).body.y - p.body.y == 83301 < 2 * S
            && Drift(rom, m, q, 5).vy > 0 > Drift(rom, m, q, 6).vy
  {
    hide OpenAir, Free, Submerged, Moved;
    var r := p.(vy := JUMP);
    OpenBefore(rom, m, p.body, JUMP, 7, 6);
    NotSubmerged(rom, m, p.body, JUMP, 7);
    Ballistic(rom, m, r, 6);
    Ballistic(rom, m, r, 7);
    assert Updated(rom, m, r, false, 0, 0) == Updated(rom, m, p, true, 0, 0);
    DriftLater(rom, m, r, 5);
    DriftLater(rom, m, r, 6);
  }

  lemma OpenBefore(rom: seq<Byte>, m: seq<Byte>, p: Body, vy: int, n: nat, k: nat)
    requires |rom| >= 0x80 && |m| == MAP_SIZE && OpenAir(rom, m, p, vy, n) && k <= n
    ensures OpenAir(rom, m, p, vy, k)
  {
  }

  lemma NotSubmerged(rom: seq<Byte>, m: seq<Byte>, p: Body, vy: int, n: nat)
    requires |rom| >= 0x80 && |m| == MAP_SIZE && OpenAir(rom, m, p, vy, n)
    ensures !Submerged(m, p)
  {
    assert Way(vy, 0) == 0;
    assert p.(y := p.y + Way(vy, 0)) == p;
  }

  /** One tick and then n are n + 1. */
  lemma {:induction false} DriftLater(rom: seq<Byte>, m: seq<Byte>, p: Player, n: nat)
    requires |rom| >= 0x80 && |m| == MAP_SIZE
    ensures Drift(rom, m, p, n + 1) == Drift(rom, m, Updated(rom, m, p, false, 0, 0), n)
  {
    hide Updated;
    if n > 0 {
      DriftLater(rom, m, p, n - 1);
    }
  }
}
