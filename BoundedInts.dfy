/** The fixed-width integer conversions of C# that the model writes out
    explicitly: Dafny's int is unbounded, so every wrap-around is a call here. */
module BoundedInts {

  const UInt32Mod: int := 0x1_0000_0000
  const Int32Max: int := 0x7FFF_FFFF
  const Int32Min: int := -0x8000_0000
  const UInt32Max: int := 0xFFFF_FFFF

  predicate IsInt32(x: int) {
    Int32Min <= x <= Int32Max
  }

  /** unchecked((int)x): two's-complement wrap-around into the int range. */
  function WrapInt32(x: int): (r: int)
    ensures IsInt32(r)
    ensures (r - x) % UInt32Mod == 0
    ensures IsInt32(x) ==> r == x
  {
    (x - Int32Min) % UInt32Mod + Int32Min
  }

  /** unchecked((uint)x): reduction modulo 2^32. */
  function WrapUInt32(x: int): (r: nat)
    ensures r < UInt32Mod
    ensures (r - x) % UInt32Mod == 0
    ensures 0 <= x < UInt32Mod ==> r == x
  {
    x % UInt32Mod
  }

  /** Two integers that agree modulo 2^32 have the same 32-bit images. */
  lemma {:induction false} WrapCongruent(x: int, y: int)
    requires (x - y) % UInt32Mod == 0
    ensures WrapInt32(x) == WrapInt32(y)
    ensures WrapUInt32(x) == WrapUInt32(y)
  {
    var k := (x - y) / UInt32Mod;
    assert x == y + k * UInt32Mod;
    ModShift(y - Int32Min, k);
    ModShift(y, k);
  }

  lemma {:induction false} ModShift(a: int, k: int)
    ensures (a + k * UInt32Mod) % UInt32Mod == a % UInt32Mod
  {
    var q := a / UInt32Mod;
    var r := a % UInt32Mod;
    assert a + k * UInt32Mod == (q + k) * UInt32Mod + r;
  }

  /** 2^n. */
  function Pow2(n: nat): (r: nat)
    ensures r >= 1
  {
    if n == 0 then 1 else 2 * Pow2(n - 1)
  }

  lemma {:induction false} Pow2Add(a: nat, b: nat)
    ensures Pow2(a + b) == Pow2(a) * Pow2(b)
    decreases b
  {
    if b > 0 {
      Pow2Add(a, b - 1);
    }
  }

  lemma Pow2Is32()
    ensures Pow2(32) == UInt32Mod
  {
    assert Pow2(4) == 16;
    Pow2Add(4, 4);
    Pow2Add(8, 8);
    Pow2Add(16, 16);
  }

  /** Bitwise exclusive or of the low n bits of a and b. */
  function XorBits(a: nat, b: nat, n: nat): nat {
    if n == 0 then 0
    else (if a % 2 == b % 2 then 0 else 1) + 2 * XorBits(a / 2, b / 2, n - 1)
  }

  /** Bitwise or of the low n bits of a and b. */
  function OrBits(a: nat, b: nat, n: nat): nat {
    if n == 0 then 0
    else (if a % 2 == 1 || b % 2 == 1 then 1 else 0) + 2 * OrBits(a / 2, b / 2, n - 1)
  }

  /** Bitwise and of the low n bits of a and b. */
  function AndBits(a: nat, b: nat, n: nat): nat {
    if n == 0 then 0
    else (if a % 2 == 1 && b % 2 == 1 then 1 else 0) + 2 * AndBits(a / 2, b / 2, n - 1)
  }

  /** The bitwise functions of n bits stay below 2^n. */
  lemma {:induction false} BitsBound(a: nat, b: nat, n: nat)
    ensures XorBits(a, b, n) < Pow2(n)
    ensures OrBits(a, b, n) < Pow2(n)
    ensures AndBits(a, b, n) < Pow2(n)
  {
    if n > 0 {
      BitsBound(a / 2, b / 2, n - 1);
    }
  }

  /** The 32-bit instances, as the uint operators use them. */
  lemma Bits32Bound(a: nat, b: nat)
    ensures XorBits(a, b, 32) < UInt32Mod
    ensures OrBits(a, b, 32) < UInt32Mod
  {
    Pow2Is32();
    BitsBound(a, b, 32);
  }

  // ----- Facts about * , / and % that the solver does not find alone -----

  lemma MulMonotone(m: nat, a: int, b: int)
    requires a <= b
    ensures m * a <= m * b
  {
  }

  lemma MulStrict(m: nat, a: int, b: int)
    ensures a < b ==> a * m + m <= b * m
  {
    if a < b {
      MulMonotone(m, a + 1, b);
    }
  }

  /** Quotient and remainder are unique. */
  lemma DivModUnique(a: int, m: int, q: int, r: int)
    requires m > 0 && a == q * m + r && 0 <= r < m
    ensures a % m == r && a / m == q
  {
    var q', r' := a / m, a % m;
    assert q' * m + r' == q * m + r;
    MulStrict(m, q, q');
    MulStrict(m, q', q);
  }

  lemma ModMultiple(a: int, b: int)
    requires a > 0
    ensures (a * b) % a == 0 && (b * a) % a == 0
  {
    DivModUnique(a * b, a, b, 0);
  }

  /** Adding a multiple of m does not change the remainder. */
  lemma ModAddMultiple(x: int, q: int, m: int)
    requires m > 0
    ensures (x + q * m) % m == x % m
  {
    assert x + q * m == (x / m + q) * m + x % m;
    DivModUnique(x + q * m, m, x / m + q, x % m);
  }

  /** Reducing an addend first does not change the sum's remainder. */
  lemma ModAddMod(a: int, b: int, m: int)
    requires m > 0
    ensures (a % m + b) % m == (a + b) % m
  {
    assert a + b == (a % m + b) + (a / m) * m;
    ModAddMultiple(a % m + b, a / m, m);
  }

  /** Numbers with equal remainders differ by a multiple. */
  lemma ModSub(a: int, b: int, m: int)
    requires m > 0 && a % m == b % m
    ensures (a - b) % m == 0
  {
    assert a - b == (a / m - b / m) * m + 0;
    DivModUnique(a - b, m, a / m - b / m, 0);
  }
}
