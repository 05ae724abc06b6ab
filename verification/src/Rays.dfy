/**
 Casting a ray through the voxels (main.c, castRay) up to the block it hits. Where the ray crosses into the next
 cell along each axis is worked out from tables that are not part of this model; the walk is not.
 */
module Rays {
  import opened Bytes
  import opened Blocks

  const RAY_STEPS := 24          // MAX_RAY_STEPS

  /** What the ray cast found: the block hit, 0 for none, and the axis and direction of the last step. */
  datatype RayResult = RayResult(hit: Byte, side: int, cell: Cell, step: Cell)

  /**
   A ray: its direction, the distances to the first crossing along each axis and between two of them, whether a
   hit is near, and what the bus answers at an address behind the ROM.
   */
  datatype Sight = Sight(dir: Cell, first: Cell, delta: Cell, near: bool, beyond: int -> Byte)

  /** 32-bit signed addition. */
  function Add32(x: int, y: int): int {
    (x + y + 0x8000_0000) % 0x1_0000_0000 - 0x8000_0000
  }

  /** The ray goes on through such a block. */
  predicate SeenThrough(rom: seq<Byte>, b: Byte, beyond: int -> Byte)
    requires |rom| >= 0x80
  {
    (if b <= 15 then rom[8 * b + 3] else beyond(8 * b + 3)) != 0
  }

  function Step(s: Sight): Cell {
    Cell(if s.dir.x < 0 then -1 else 1, if s.dir.y < 0 then -1 else 1, if s.dir.z < 0 then -1 else 1)
  }

  /** One cell further along the axis, 0, 1 or 2 for x, y or z. */
  function Along(c: Cell, step: Cell, axis: int): Cell {
    if axis == 0 then Cell(c.x + step.x, c.y, c.z)
    else if axis == 1 then Cell(c.x, c.y + step.y, c.z)
    else Cell(c.x, c.y, c.z + step.z)
  }

  /** How many crossings along each axis lie between two cells. */
  function Crossed(from: Cell, c: Cell, step: Cell): Cell {
    Cell((c.x - from.x) * step.x, (c.y - from.y) * step.y, (c.z - from.z) * step.z)
  }

  /** Of two axes with n and k crossings behind it, the ray has not passed one on the first that comes after the next on the second. */
  predicate InTurn(n: int, first: int, delta: int, k: int, first': int, delta': int) {
    n > 0 ==> first + (n - 1) * delta <= first' + k * delta'
  }

  /** The crossings so far are the nearest ones. */
  predicate Merged(s: Sight, n: Cell) {
    && InTurn(n.x, s.first.x, s.delta.x, n.y, s.first.y, s.delta.y) && InTurn(n.x, s.first.x, s.delta.x, n.z, s.first.z, s.delta.z)
    && InTurn(n.y, s.first.y, s.delta.y, n.x, s.first.x, s.delta.x) && InTurn(n.y, s.first.y, s.delta.y, n.z, s.first.z, s.delta.z)
    && InTurn(n.z, s.first.z, s.delta.z, n.x, s.first.x, s.delta.x) && InTurn(n.z, s.first.z, s.delta.z, n.y, s.first.y, s.delta.y)
  }

  /** The distances to the next crossing along each axis. */
  function Distances(s: Sight, n: Cell): Cell {
    Cell(s.first.x + n.x * s.delta.x, s.first.y + n.y * s.delta.y, s.first.z + n.z * s.delta.z)
  }

  /** The axis of the nearest one, as the code settles ties. */
  function NearestAxis(d: Cell): (axis: int)
    ensures 0 <= axis < 3
  {
    if d.x < d.y then (if d.x < d.z then 0 else 2) else if d.y < d.z then 1 else 2
  }

  /** The distances after a crossing along that axis. */
  function Further(d: Cell, delta: Cell, axis: int): Cell {
    if axis == 0 then Cell(Add32(d.x, delta.x), d.y, d.z)
    else if axis == 1 then Cell(d.x, Add32(d.y, delta.y), d.z)
    else Cell(d.x, d.y, Add32(d.z, delta.z))
  }

  /** Distances that stay below 2^31 over a whole ray. */
  predicate Fit(s: Sight) {
    && 0 <= s.delta.x && 0 <= s.delta.y && 0 <= s.delta.z && 0 <= s.first.x && 0 <= s.first.y && 0 <= s.first.z
    && s.first.x + 24 * s.delta.x < 0x8000_0000 && s.first.y + 24 * s.delta.y < 0x8000_0000 && s.first.z + 24 * s.delta.z < 0x8000_0000
  }

  lemma MergeStarts(s: Sight, c: Cell)
    ensures Crossed(c, c, Step(s)) == Cell(0, 0, 0)
    ensures Distances(s, Cell(0, 0, 0)) == s.first && Merged(s, Cell(0, 0, 0))
  {
  }

  lemma OneCrossed(from: Cell, c: Cell, s: Sight, axis: int)
    requires 0 <= axis < 3
    ensures Crossed(from, Along(c, Step(s), axis), Step(s)) == Along(Crossed(from, c, Step(s)), Cell(1, 1, 1), axis)
  {
  }

  /** Taking the nearest crossing keeps them in order, and the next ones known. */
  lemma MergeOnward(s: Sight, n: Cell, axis: int)
    requires Fit(s) && Merged(s, n) && axis == NearestAxis(Distances(s, n))
    requires 0 <= n.x < 24 && 0 <= n.y < 24 && 0 <= n.z < 24
    ensures var n' := Along(n, Cell(1, 1, 1), axis);
            Merged(s, n') && Distances(s, n') == Further(Distances(s, n), s.delta, axis)
  {
    NextDistance(s.first.x, n.x, s.delta.x);
    NextDistance(s.first.y, n.y, s.delta.y);
    NextDistance(s.first.z, n.z, s.delta.z);
  }

  lemma NextDistance(first: int, n: int, delta: int)
    requires 0 <= n < 24 && 0 <= delta && 0 <= first && first + 24 * delta < 0x8000_0000
    ensures first + (n + 1) * delta == Add32(first + n * delta, delta) == first + n * delta + delta
  {
    assert (n + 1) * delta == n * delta + delta;
    assert n * delta <= 23 * delta;
  }

  /** Along the path from one cell to the next through a face, the crossings taken in order of distance; side was the last axis. */
  ghost predicate Walked(s: Sight, path: seq<Cell>, sd: Cell, side: int) {
    && 1 <= |path| <= RAY_STEPS + 1 && 0 <= side < 3
    && (|path| > 1 ==> path[|path| - 1] == Along(path[|path| - 2], Step(s), side))
    && (forall i :: 0 <= i < |path| - 1 ==> Adjacent(path[i], path[i + 1], Step(s)))
    && (Fit(s) ==>
          && Within(Crossed(path[0], path[|path| - 1], Step(s)), |path| - 1)
          && sd == Distances(s, Crossed(path[0], path[|path| - 1], Step(s)))
          && forall i :: 0 <= i < |path| ==> Merged(s, Crossed(path[0], path[i], Step(s))))
  }

  predicate Adjacent(c: Cell, d: Cell, step: Cell) {
    exists axis :: 0 <= axis < 3 && d == Along(c, step, axis)
  }

  predicate Within(n: Cell, k: int) {
    0 <= n.x <= k && 0 <= n.y <= k && 0 <= n.z <= k
  }

  lemma WalkStarts(s: Sight, c: Cell)
    ensures Walked(s, [c], s.first, 0)
  {
    MergeStarts(s, c);
  }

  lemma WalkOnward(s: Sight, path: seq<Cell>, sd: Cell, side: int)
    requires Walked(s, path, sd, side) && |path| <= RAY_STEPS
    ensures var axis := NearestAxis(sd);
            Walked(s, path + [Along(path[|path| - 1], Step(s), axis)], Further(sd, s.delta, axis), axis)
  {
    hide Along, Merged, Crossed, Distances, Further, NearestAxis, Fit, Step;
    var axis := NearestAxis(sd);
    var c := path[|path| - 1];
    var path' := path + [Along(c, Step(s), axis)];
    assert Adjacent(c, path'[|path|], Step(s));
    forall i | 0 <= i < |path'| - 1 ensures Adjacent(path'[i], path'[i + 1], Step(s)) {
      if i < |path| - 1 { assert Adjacent(path[i], path[i + 1], Step(s)); }
    }
    if Fit(s) {
      OneCrossed(path[0], c, s, axis);
      WithinMore(Crossed(path[0], c, Step(s)), |path| - 1, axis);
      MergeOnward(s, Crossed(path[0], c, Step(s)), axis);
    }
  }

  lemma WithinMore(n: Cell, k: int, axis: int)
    requires Within(n, k)
    ensures Within(Along(n, Cell(1, 1, 1), axis), k + 1)
  {
  }

  /** The first k cells behind the start are in the world and transparent. */
  ghost predicate Clear(rom: seq<Byte>, m: seq<Byte>, path: seq<Cell>, k: int, beyond: int -> Byte)
    requires |rom| >= 0x80 && |m| == MAP_SIZE && k <= |path|
  {
    forall i :: 0 < i < k ==> path[i].InWorld() && SeenThrough(rom, Block(m, path[i]), beyond)
  }

  /** What a cast found at the end of the path: the first opaque block, or none in the world or in reach. */
  ghost predicate Found(rom: seq<Byte>, m: seq<Byte>, path: seq<Cell>, r: RayResult, beyond: int -> Byte)
    requires |rom| >= 0x80 && |m| == MAP_SIZE
  {
    && 2 <= |path| <= RAY_STEPS + 1 && Clear(rom, m, path, |path| - 1, beyond)
    && 0 <= r.side < 3 && r.cell == path[|path| - 1] == Along(path[|path| - 2], r.step, r.side)
    && (r.hit != 0 ==> r.cell.InWorld() && r.hit == Block(m, r.cell) && !SeenThrough(rom, r.hit, beyond))
    && (r.hit == 0 ==> !r.cell.InWorld() || (|path| == RAY_STEPS + 1 && SeenThrough(rom, Block(m, r.cell), beyond)))
  }

  /** The cell a block is placed in: before the solid face hit, else the cell itself. */
  function Target(rom: seq<Byte>, ray: RayResult): Cell
    requires |rom| >= 0x80
  {
    var c := ray.cell;
    if !Solid(rom, ray.hit) then c
    else if ray.side == 0 then Cell(c.x - ray.step.x, c.y, c.z)
    else if ray.side == 1 then Cell(c.x, c.y - ray.step.y, c.z)
    else Cell(c.x, c.y, c.z - ray.step.z)
  }

  /** It is the cell the ray came through just before the block it hit, on the other side of the face hit. */
  lemma TargetInFront(rom: seq<Byte>, m: seq<Byte>, path: seq<Cell>, r: RayResult, beyond: int -> Byte)
    requires |rom| >= 0x80 && |m| == MAP_SIZE && Found(rom, m, path, r, beyond) && r.hit != 0
    ensures Solid(rom, r.hit) && Target(rom, r) == path[|path| - 2]
    ensures |path| > 2 && Block(m, Target(rom, r)) <= 15 ==> !Solid(rom, Block(m, Target(rom, r)))
  {
    var c := path[|path| - 2];
    assert |path| > 2 ==> SeenThrough(rom, Block(m, c), beyond);
  }

  lemma AirSeenThrough(rom: seq<Byte>, beyond: int -> Byte)
    requires GoodRom(rom)
    ensures SeenThrough(rom, 0, beyond)
  {
  }
}
