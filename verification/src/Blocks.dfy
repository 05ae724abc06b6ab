/**
 The voxel map (main.c, getBlock, setBlock, isSolid, checkHitAABB): 128 x 128 x 128 blocks in one
 array, the block_info ROM, and boxes against solid blocks, in 16.16 fixed point.
 */
module Blocks {
  import opened Bytes

  const S := 0x1_0000            // SCALE: one block
  const SIDE := 128              // WORLD_X, WORLD_Y, WORLD_Z
  const MAP_SIZE := 0x20_0000

  datatype Cell = Cell(x: int, y: int, z: int) {
    function Up(): Cell { Cell(x, y + 1, z) }

    function Down(): Cell { Cell(x, y - 1, z) }

    predicate InWorld() {
      0 <= x < SIDE && 0 <= y < SIDE && 0 <= z < SIDE
    }

    function Index(): (i: nat)
      requires InWorld()
      ensures i < MAP_SIZE
    {
      0x4000 * x + 0x80 * y + z
    }
  }

  lemma IndexInjective(c: Cell, d: Cell)
    requires c.InWorld() && d.InWorld() && c.Index() == d.Index()
    ensures c == d
  {
  }

  /** The map holds the cells by planes of equal x, each by rows from the floor up, and every byte is a cell. */
  lemma IndexInOrder(c: Cell, d: Cell, i: nat)
    requires c.InWorld() && d.InWorld() && i < MAP_SIZE
    ensures c.Index() < d.Index() <==> c.x < d.x || (c.x == d.x && (c.y < d.y || (c.y == d.y && c.z < d.z)))
    ensures exists e: Cell :: e.InWorld() && e.Index() == i
  {
    var e := Cell(i / 0x4000, i % 0x4000 / 0x80, i % 0x80);
    assert e.InWorld() && e.Index() == i;
  }

  /** getBlock: outside the sides and below there is bedrock, above there is air. */
  function Block(m: seq<Byte>, c: Cell): Byte
    requires |m| == MAP_SIZE
  {
    if c.x < 0 || c.x >= SIDE || c.y < 0 || c.z < 0 || c.z >= SIDE then 15
    else if c.y >= SIDE then 0
    else m[c.Index()]
  }

  /** The map after setBlock, which ignores cells outside. */
  function With(m: seq<Byte>, c: Cell, b: Byte): (m': seq<Byte>)
    requires |m| == MAP_SIZE
    ensures |m'| == MAP_SIZE
  {
    if c.InWorld() then m[c.Index() := b] else m
  }

  lemma BlockAfter(m: seq<Byte>, c: Cell, b: Byte, d: Cell)
    requires |m| == MAP_SIZE
    ensures Block(With(m, c, b), d) == if d == c && c.InWorld() then b else Block(m, d)
  {
    if d.InWorld() && c.InWorld() && d.Index() == c.Index() {
      IndexInjective(c, d);
    }
  }

  /** Two maps that agree on every cell are the same. */
  lemma SameBlocks(m: seq<Byte>, m': seq<Byte>)
    requires |m| == |m'| == MAP_SIZE && forall c: Cell :: c.InWorld() ==> Block(m', c) == Block(m, c)
    ensures m' == m
  {
    forall i | 0 <= i < MAP_SIZE ensures m'[i] == m[i] {
      var c := Cell(i / 0x4000, i / 0x80 % 0x80, i % 0x80);
      assert c.InWorld() && c.Index() == i;
      assert Block(m', c) == Block(m, c);
    }
  }

  /** The map with block b at c put back to what was there. */
  lemma PutBack(m: seq<Byte>, c: Cell, b: Byte)
    requires |m| == MAP_SIZE
    ensures With(With(m, c, b), c, Block(m, c)) == m
  {
  }

  // ------------------------------------------------------------- the block_info ROM

  /** isSolid: byte 3 of a block's record says whether one can pass through it. */
  predicate Solid(rom: seq<Byte>, b: Byte)
    requires |rom| >= 0x80
  {
    b > 15 || rom[8 * b + 3] == 0
  }

  /** Byte 4 of the record. An id above 15 has none: the read then goes past the ROM and yields whatever is there. */
  predicate Destructible(rom: seq<Byte>, b: Byte, beyond: Byte)
    requires |rom| >= 0x80
  {
    (if b <= 15 then rom[8 * b + 4] else beyond) != 0
  }

  predicate Water(b: int) { 6 <= b <= 9 }

  predicate Flowing(b: int) { 7 <= b <= 9 }

  /** What the game relies on: air and water can be passed, grass, dirt and bedrock cannot. */
  predicate GoodRom(rom: seq<Byte>) {
    && |rom| >= 0x80
    && !Solid(rom, 0) && (forall b: Byte :: Water(b) ==> !Solid(rom, b))
    && Solid(rom, 2) && Solid(rom, 3) && Solid(rom, 15)
  }

  /** The records of ROM/BLOCK_INFO.hex: bytes 3 of blocks 0 to 15. */
  const PASSABLE: seq<Byte> := [1, 0, 0, 0, 0, 0, 1, 1, 1, 1, 0, 0, 0, 0, 0, 0]

  /** And bytes 4. */
  const BREAKABLE: seq<Byte> := [0, 1, 1, 1, 1, 1, 0, 0, 0, 0, 1, 1, 1, 1, 1, 0]

  lemma ShippedRomGood(rom: seq<Byte>)
    requires |rom| == 0x80 && forall b :: 0 <= b < 16 ==> rom[8 * b + 3] == PASSABLE[b]
    ensures GoodRom(rom)
    ensures forall b: Byte :: !Solid(rom, b) <==> b == 0 || Water(b)
  {
    forall b: Byte ensures !Solid(rom, b) <==> b == 0 || Water(b) {
      if b < 16 { assert rom[8 * b + 3] == PASSABLE[b]; }
    }
  }

  // ------------------------------------------------------------- boxes

  /** A player's box: half width w around x and z, from y up to y + h. */
  datatype Body = Body(x: int, y: int, z: int, w: int, h: int)

  /** The box reaches into cell c; "/" is the arithmetic shift of TO_INT_CONST. */
  predicate Touches(p: Body, c: Cell) {
    && (p.x - p.w) / S <= c.x <= (p.x + p.w) / S
    && p.y / S <= c.y <= (p.y + p.h) / S
    && (p.z - p.w) / S <= c.z <= (p.z + p.w) / S
  }

  /** That is: the closed box and the half-open cube of the cell meet. */
  lemma TouchesIsOverlap(p: Body, c: Cell)
    ensures Touches(p, c) <==>
              && p.x - p.w < (c.x + 1) * S && c.x * S <= p.x + p.w
              && p.y < (c.y + 1) * S && c.y * S <= p.y + p.h
              && p.z - p.w < (c.z + 1) * S && c.z * S <= p.z + p.w
  {
  }

  ghost predicate Free(rom: seq<Byte>, m: seq<Byte>, p: Body)
    requires |rom| >= 0x80 && |m| == MAP_SIZE
  {
    forall c :: Touches(p, c) ==> !Solid(rom, Block(m, c))
  }

  /** A free box is inside the world's sides and above its floor. */
  lemma FreeIsInside(rom: seq<Byte>, m: seq<Byte>, p: Body)
    requires GoodRom(rom) && |m| == MAP_SIZE && Free(rom, m, p) && 0 <= p.w && 0 <= p.h
    ensures p.w <= p.x && p.x + p.w < SIDE * S && 0 <= p.y && p.w <= p.z && p.z + p.w < SIDE * S
  {
    var x0, x1, y0, z0, z1 := (p.x - p.w) / S, (p.x + p.w) / S, p.y / S, (p.z - p.w) / S, (p.z + p.w) / S;
    assert Touches(p, Cell(x0, y0, z0)) && Touches(p, Cell(x1, y0, z1));
  }

  /** Only solid blocks matter: no cell of the box turned solid. */
  lemma StaysFree(rom: seq<Byte>, m: seq<Byte>, m': seq<Byte>, p: Body)
    requires |rom| >= 0x80 && |m| == |m'| == MAP_SIZE && Free(rom, m, p)
    requires forall c: Cell :: Solid(rom, Block(m', c)) ==> Solid(rom, Block(m, c))
    ensures Free(rom, m', p)
  {
  }
}
