/**
 Machine integers of the C sources: bytes, 32-bit words, little-endian loads and
 stores (ff.c, ld_16 .. st_32), and the bitwise "and" used with power-of-two masks.
 */
module Bytes {
  type Byte = x: int | 0 <= x < 256
  type Dword = x: int | 0 <= x < 0x1_0000_0000

  /** Sector size SS(fs): FF_MIN_SS == FF_MAX_SS == 512. */
  type Sector = s: seq<Byte> | |s| == 512 witness seq(512, _ => 0)

  const ZERO_SECTOR: Sector := seq(512, _ => 0)

  const DISK_ERROR: Dword := 0xFFFF_FFFF
  const EOC: Dword := 0xFFFF_FFFF

  function Min(a: int, b: int): int {
    if a <= b then a else b
  }

  function Max(a: int, b: int): int {
    if a >= b then a else b
  }

  /** Unsigned 32-bit subtraction. */
  function Sub32(x: int, y: int): Dword {
    (x - y) % 0x1_0000_0000
  }

  function Ld16(b0: Byte, b1: Byte): (w: int)
    ensures 0 <= w < 0x1_0000
  {
    b0 + 256 * b1
  }

  function Ld32(b0: Byte, b1: Byte, b2: Byte, b3: Byte): (w: Dword) {
    b0 + 256 * b1 + 0x1_0000 * b2 + 0x100_0000 * b3
  }

  /** The k-th byte of a 32-bit word, least significant first. */
  function ByteOf(w: Dword, k: nat): Byte
    requires k < 4
  {
    match k
    case 0 => w % 256
    case 1 => w / 256 % 256
    case 2 => w / 0x1_0000 % 256
    case 3 => w / 0x100_0000
  }

  lemma StoreLoad32(w: Dword)
    ensures Ld32(ByteOf(w, 0), ByteOf(w, 1), ByteOf(w, 2), ByteOf(w, 3)) == w
    ensures Ld16(ByteOf(w, 0), ByteOf(w, 1)) == w % 0x1_0000
  {
    var q1 := w / 256;
    var q2 := q1 / 256;
    ModUnique(w, 0x1_0000, q2, 256 * (q1 % 256) + w % 256);
    ModUnique(w, 0x100_0000, q2 / 256, 0x1_0000 * (q2 % 256) + 256 * (q1 % 256) + w % 256);
  }

  // ---------------------------------------------------------------- bit masks

  /** Bitwise "and" of two unsigned numbers. */
  function And(x: nat, y: nat): nat
    decreases x
  {
    if x == 0 || y == 0 then 0 else (x % 2) * (y % 2) + 2 * And(x / 2, y / 2)
  }

  predicate PowerOfTwo(p: nat) {
    p == 1 || (p > 1 && p % 2 == 0 && PowerOfTwo(p / 2))
  }

  /** Masking with p - 1 is the remainder modulo p, for every power of two p. */
  lemma {:induction false} MaskIsMod(x: nat, p: nat)
    requires PowerOfTwo(p)
    ensures And(x, p - 1) == x % p
    decreases p
  {
    if p == 1 || x == 0 {
    } else {
      var q := p / 2;
      MaskIsMod(x / 2, q);
      assert (p - 1) / 2 == q - 1 && (p - 1) % 2 == 1;
      DoubleMod(x, q);
    }
  }

  lemma DoubleMod(x: nat, q: nat)
    requires q > 0
    ensures x % (2 * q) == 2 * (x / 2 % q) + x % 2
  {
    var d, m := x / 2 / q, x / 2 % q;
    assert x / 2 == q * d + m;
    assert 2 * (q * d) == 2 * q * d;
    ModUnique(x, 2 * q, d, 2 * m + x % 2);
  }

  lemma MulAtLeast(p: int, k: int)
    requires p > 0 && k >= 1
    ensures p * k >= p
  {
  }

  lemma ModUnique(x: int, p: int, d: int, m: int)
    requires p > 0 && x == p * d + m && 0 <= m < p
    ensures x % p == m && x / p == d
  {
    var d', m' := x / p, x % p;
    assert x == p * d' + m';
    assert p * d - p * d' == p * (d - d');
    if d > d' {
      MulAtLeast(p, d - d');
    } else if d < d' {
      MulAtLeast(p, d' - d);
    }
  }

  /** The mount-time test of the cluster size accepts exactly the powers of two. */
  lemma {:induction false} PowerOfTwoTest(p: nat)
    requires p > 0
    ensures And(p, p - 1) == 0 <==> PowerOfTwo(p)
  {
    if p > 1 {
      if p % 2 == 0 {
        PowerOfTwoTest(p / 2);
        assert (p - 1) / 2 == p / 2 - 1;
      } else {
        assert (p - 1) / 2 == p / 2;
        AndSelf(p / 2);
      }
    }
  }

  lemma {:induction false} AndSelf(x: nat)
    ensures And(x, x) == x
  {
    if x > 0 {
      AndSelf(x / 2);
    }
  }
}
