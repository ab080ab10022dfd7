/** Fixed-width machine words of the Go source, made explicit over Dafny's
    unbounded integers, and the little-endian byte layout used by
    `encoding/binary.LittleEndian`. */
module Words {

  const WORD_MODULUS: int := 0x1_0000_0000_0000_0000

  /** Go's `uint8` / `byte`. */
  type byte = b: int | 0 <= b < 256

  /** Go's `uint64`. */
  type uint64 = x: int | 0 <= x < 0x1_0000_0000_0000_0000

  function Max(a: int, b: int): int { if a >= b then a else b }

  function Min(a: int, b: int): int { if a <= b then a else b }

  function Pow2(k: nat): (r: nat)
    ensures r >= 1
  {
    if k == 0 then 1 else 2 * Pow2(k - 1)
  }

  function Pow256(k: nat): (r: nat)
    ensures r >= 1
  {
    if k == 0 then 1 else 256 * Pow256(k - 1)
  }

  /** Subtraction on `uint64`, wrapping around modulo 2^64 as Go does. */
  function WrapSub(a: uint64, b: uint64): (r: uint64)
    ensures r == (a - b) % WORD_MODULUS
  {
    if a >= b then a - b else a + WORD_MODULUS - b
  }

  /** Addition on `uint64`, wrapping around modulo 2^64 as Go does. */
  function WrapAdd(a: uint64, b: uint64): (r: uint64)
    ensures r == (a + b) % WORD_MODULUS
  {
    if a + b < WORD_MODULUS then a + b else a + b - WORD_MODULUS
  }

  /** The `n` low-order bytes of `x`, least significant first. */
  function LittleEndian(x: nat, n: nat): (r: seq<byte>)
    ensures |r| == n
  {
    if n == 0 then [] else [x % 256] + LittleEndian(x / 256, n - 1)
  }

  /** The number whose little-endian bytes are `b`. */
  function FromLittleEndian(b: seq<byte>): (r: nat)
    ensures r < Pow256(|b|)
  {
    if |b| == 0 then 0 else b[0] + 256 * FromLittleEndian(b[1..])
  }

  lemma {:induction false} FromLittleEndianOfLittleEndian(x: nat, n: nat)
    requires x < Pow256(n)
    ensures FromLittleEndian(LittleEndian(x, n)) == x
  {
    if n > 0 {
      FromLittleEndianOfLittleEndian(x / 256, n - 1);
      assert LittleEndian(x, n)[1..] == LittleEndian(x / 256, n - 1);
    }
  }

  lemma {:induction false} LittleEndianOfFromLittleEndian(b: seq<byte>)
    ensures LittleEndian(FromLittleEndian(b), |b|) == b
  {
    if |b| > 0 {
      var v := FromLittleEndian(b[1..]);
      assert (b[0] + 256 * v) % 256 == b[0];
      assert (b[0] + 256 * v) / 256 == v;
      LittleEndianOfFromLittleEndian(b[1..]);
    }
  }

  lemma Pow256Of8()
    ensures Pow256(8) == WORD_MODULUS
  {
  }

  lemma {:induction false} Pow2Add(a: nat, b: nat)
    ensures Pow2(a + b) == Pow2(a) * Pow2(b)
    decreases a
  {
    if a > 0 {
      Pow2Add(a - 1, b);
    }
  }

  lemma Pow2Monotone(a: nat, b: nat)
    requires a <= b
    ensures Pow2(a) <= Pow2(b)
  {
    Pow2Add(a, b - a);
  }

  lemma Pow2Below64(k: nat)
    requires k < 64
    ensures Pow2(k) < WORD_MODULUS
  {
    Pow2Monotone(k, 63);
    Pow2Of64();
  }

  lemma Pow2Of64()
    ensures Pow2(64) == WORD_MODULUS
    ensures Pow2(60) == 0x1000_0000_0000_0000
  {
    assert Pow2(4) == 16;
    Pow2Add(4, 4);
    assert Pow2(8) == 256;
    Pow2Add(8, 8);
    assert Pow2(16) == 0x1_0000;
    Pow2Add(16, 16);
    assert Pow2(32) == 0x1_0000_0000;
    Pow2Add(32, 32);
    Pow2Add(32, 16);
    Pow2Add(48, 8);
    Pow2Add(56, 4);
  }

  /** Adding a multiple of `m` does not change the remainder modulo `m`. */
  lemma MultipleMod(x: int, k: int, m: int)
    requires m > 0
    ensures (x + k * m) % m == x % m
  {
    var q := x / m;
    var r := x % m;
    assert x == q * m + r;
    assert x + k * m == (q + k) * m + r by {
      assert (q + k) * m == q * m + k * m;
    }
    ModUnique(x + k * m, q + k, r, m);
  }

  /** Euclidean division has one quotient and one remainder. */
  lemma ModUnique(a: int, q: int, r: int, m: int)
    requires m > 0
    requires 0 <= r < m
    requires a == q * m + r
    ensures a % m == r
  {
    var q', r' := a / m, a % m;
    assert a == q' * m + r';
    assert (q - q') * m == r' - r by {
      assert (q - q') * m == q * m - q' * m;
    }
    if q - q' >= 1 {
      MulAtLeast(q - q', m);
    } else if q' - q >= 1 {
      MulAtLeast(q' - q, m);
    }
  }

  lemma MulMonotone(a: nat, b: nat, m: nat)
    requires a <= b
    ensures a * m <= b * m
  {
    assert b * m == a * m + (b - a) * m;
  }

  lemma MulAtLeast(a: int, m: int)
    requires a >= 1 && m > 0
    ensures a * m >= m
  {
    assert a * m == (a - 1) * m + m;
    assert (a - 1) * m >= 0;
  }
}
