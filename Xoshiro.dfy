/** Xoshiro128**: a 128-bit-state generator whose four 32-bit words are
    overwritten by every draw, and the bounded draws built on it (Lemire's
    multiply-shift method with rejection). Words are integers in [0, 2^32);
    every C# uint operation is written out with its reduction modulo 2^32. */
module Xoshiro {
  import opened Wrappers
  import opened BoundedInts

  /** A C# uint. */
  type Word = x: int | 0 <= x < 0x1_0000_0000 witness 0

  /** a ^ b on uint. */
  function Xor(a: Word, b: Word): Word {
    Bits32Bound(a, b);
    XorBits(a, b, 32)
  }

  /** a | b on uint. */
  function Or(a: Word, b: Word): Word {
    Bits32Bound(a, b);
    OrBits(a, b, 32)
  }

  /** a << k on uint: the bits shifted past bit 31 are lost. */
  function Shl(a: Word, k: nat): Word {
    (a * Pow2(k)) % UInt32Mod
  }

  /** a >> k on uint. */
  function Shr(a: Word, k: nat): Word {
    DivNoLarger(a, Pow2(k));
    a / Pow2(k)
  }

  lemma DivNoLarger(a: nat, d: nat)
    requires d >= 1
    ensures 0 <= a / d <= a
  {
    var q := a / d;
    assert a == q * d + a % d;
    if q > a {
      MulMonotone(q, 1, d);
    }
  }

  /** a * c on uint, which wraps around. */
  function Mul(a: Word, c: Word): Word {
    (a * c) % UInt32Mod
  }

  /** The four state words _s0.._s3. */
  datatype State = State(s0: Word, s1: Word, s2: Word, s3: Word)

  /** Most redraws a rejection loop makes before the model gives up; the
      source loops without bound. */
  const RedrawLimit: nat := 64

  /** Raised by the members that the generator does not implement. */
  datatype RandomError = NotImplemented

  /** The rotation as the source writes it, with two shifts and an or. */
  function RotateLeft(value: Word, offset: int): Word
    requires 0 < offset < 32
  {
    Or(Shl(value, offset), Shr(value, 32 - offset))
  }

  /** The value a draw returns from state s. */
  function Output(s: State): Word {
    Mul(RotateLeft(Mul(s.s1, 5), 7), 9)
  }

  /** The state after one draw. */
  function Advance(s: State): State {
    var t := Shl(s.s1, 9);
    var s2 := Xor(s.s2, s.s0);
    var s3 := Xor(s.s3, s.s1);
    var s1 := Xor(s.s1, s2);
    var s0 := Xor(s.s0, s3);
    State(s0, s1, Xor(s2, t), RotateLeft(s3, 11))
  }

  /** The state the constructor starts from: ((uint)seed, 1, 1, 1). */
  function Seeded(seed: int): State
    requires IsInt32(seed)
  {
    State(WrapUInt32(seed), 1, 1, 1)
  }

  /** The state after the constructor, which discards one output. */
  function Initial(seed: int): State
    requires IsInt32(seed)
  {
    Advance(Seeded(seed))
  }

  /** The state after k draws from s. */
  function AdvanceBy(s: State, k: nat): State
    decreases k
  {
    if k == 0 then s else AdvanceBy(Advance(s), k - 1)
  }

  /** The k-th value (from 0) a generator built with seed produces. */
  function NthOutput(seed: int, k: nat): Word
    requires IsInt32(seed)
  {
    Output(AdvanceBy(Initial(seed), k))
  }

  /** Draws compose: j draws followed by k draws are j + k draws. */
  lemma {:induction false} AdvanceByAdd(s: State, j: nat, k: nat)
    ensures AdvanceBy(AdvanceBy(s, j), k) == AdvanceBy(s, j + k)
    decreases j
  {
    if j > 0 {
      AdvanceByAdd(Advance(s), j - 1, k);
      assert AdvanceBy(s, j) == AdvanceBy(Advance(s), j - 1);
      assert AdvanceBy(s, j + k) == AdvanceBy(Advance(s), j - 1 + k);
    } else {
      assert AdvanceBy(s, j) == s;
    }
  }

  /** The stream is a function of the seed alone: one more draw from the state
      reached after k draws is the state after k + 1 draws, and yields the
      (k + 1)-th value of that seed's stream. */
  lemma {:induction false} StreamFromSeed(seed: int, k: nat)
    requires IsInt32(seed)
    ensures Advance(AdvanceBy(Initial(seed), k)) == AdvanceBy(Initial(seed), k + 1)
    ensures Output(Advance(AdvanceBy(Initial(seed), k))) == NthOutput(seed, k + 1)
  {
    AdvanceByAdd(Initial(seed), k, 1);
  }

  // ----- Lemire's bounded draw ---------------------------------------------

  /** (ulong)maxValue * x, split into its high and low 32-bit words. */
  function ProductHigh(maxValue: Word, x: Word): int {
    (maxValue * x) / UInt32Mod
  }

  function ProductLow(maxValue: Word, x: Word): int {
    (maxValue * x) % UInt32Mod
  }

  /** unchecked(0u - maxValue) % maxValue. */
  function Threshold(maxValue: Word): (r: int)
    requires maxValue > 0
    ensures 0 <= r < maxValue
  {
    WrapUInt32(0 - maxValue) % maxValue
  }

  /** The threshold is 2^32 mod maxValue: the number of low words that would
      make some high words more likely than others. */
  lemma ThresholdIsRemainder(maxValue: Word)
    requires maxValue > 0
    ensures Threshold(maxValue) == UInt32Mod % maxValue
  {
    var m: int := maxValue;
    assert WrapUInt32(0 - m) == UInt32Mod - m;
    var q := UInt32Mod / m;
    var r := UInt32Mod % m;
    assert UInt32Mod == q * m + r;
    assert UInt32Mod - m == (q - 1) * m + r;
    DivModUnique(UInt32Mod - m, m, q - 1, r);
  }

  /** The high word of the product is below the bound. */
  lemma {:induction false} ProductHighBelow(maxValue: Word, x: Word)
    ensures maxValue > 0 ==> 0 <= ProductHigh(maxValue, x) < maxValue
    ensures maxValue == 0 ==> ProductHigh(maxValue, x) == 0 && ProductLow(maxValue, x) == 0
  {
    var m: int, v: int := maxValue, x;
    if m > 0 {
      assert m * v <= m * (UInt32Mod - 1) by {
        MulMonotone(m, v, UInt32Mod - 1);
      }
      DivBelow(m * v, m, UInt32Mod);
    }
  }

  lemma {:induction false} DivBelow(p: nat, m: nat, d: nat)
    requires d > 0 && p < m * d
    ensures p / d < m
  {
    var q := p / d;
    assert q * d <= p;
    if q >= m {
      MulMonotone(d, m, q);
    }
  }

  /** The draw after a rejection: keep drawing while the low word is below the
      threshold, at most fuel more times. */
  function Redraw(s: State, maxValue: Word, x: Word, fuel: nat): (r: (Option<Word>, State))
    requires maxValue > 0
    ensures r.0.Some? ==> r.0.value < maxValue
    decreases fuel
  {
    if ProductLow(maxValue, x) >= Threshold(maxValue) then
      ProductHighBelow(maxValue, x);
      (Some(ProductHigh(maxValue, x)), s)
    else if fuel == 0 then (None, s)
    else Redraw(Advance(s), maxValue, Output(s), fuel - 1)
  }

  /** One rejected draw: the loop goes on from the next output. */
  lemma RedrawStep(s: State, maxValue: Word, x: Word, fuel: nat)
    requires maxValue > 0 && fuel > 0 && ProductLow(maxValue, x) < Threshold(maxValue)
    ensures Redraw(s, maxValue, x, fuel) == Redraw(Advance(s), maxValue, Output(s), fuel - 1)
  {
  }

  /** NextUInt32(maxValue): one multiply; only a low word below maxValue can
      lie under the threshold, so only then is the rejection loop entered. */
  function DrawBelow(s: State, maxValue: Word): (r: (Option<Word>, State))
    ensures maxValue == 0 ==> r == (Some(0), Advance(s))
    ensures maxValue > 0 && r.0.Some? ==> r.0.value < maxValue
  {
    var x := Output(s);
    ProductHighBelow(maxValue, x);
    if ProductLow(maxValue, x) < maxValue then
      Redraw(Advance(s), maxValue, x, RedrawLimit)
    else
      (Some(ProductHigh(maxValue, x)), Advance(s))
  }

  /** Reference definition of Lemire's method without the shortcut: draw, and
      reject exactly when the low word is below the threshold. */
  function Rejection(s: State, maxValue: Word, fuel: nat): (r: (Option<Word>, State))
    requires maxValue > 0
    decreases fuel
  {
    var x := Output(s);
    ProductHighBelow(maxValue, x);
    if ProductLow(maxValue, x) >= Threshold(maxValue) then
      (Some(ProductHigh(maxValue, x)), Advance(s))
    else if fuel == 0 then (None, Advance(s))
    else Rejection(Advance(s), maxValue, fuel - 1)
  }

  lemma {:induction false} RedrawIsRejection(s: State, maxValue: Word, fuel: nat)
    requires maxValue > 0
    ensures Redraw(Advance(s), maxValue, Output(s), fuel) == Rejection(s, maxValue, fuel)
    decreases fuel
  {
    if ProductLow(maxValue, Output(s)) < Threshold(maxValue) && fuel > 0 {
      RedrawIsRejection(Advance(s), maxValue, fuel - 1);
    }
  }

  /** The lowPart < maxValue test is only a shortcut: NextUInt32(maxValue)
      rejects a draw exactly when its low word is below (2^32 - maxValue) mod
      maxValue, and otherwise returns the high word of that draw. */
  lemma FastPathIsRejection(s: State, maxValue: Word)
    requires maxValue > 0
    ensures DrawBelow(s, maxValue) == Rejection(s, maxValue, RedrawLimit)
  {
    if ProductLow(maxValue, Output(s)) < maxValue {
      RedrawIsRejection(s, maxValue, RedrawLimit);
    }
  }

  /** The top 31 bits of the value drawn from s. */
  function Top(s: State): Word {
    Shr(Output(s), 1)
  }

  /** Next(): the top 31 bits of a draw, redrawn while they equal int.MaxValue. */
  function DrawNonNegative(s: State, fuel: nat): (r: (Option<int>, State))
    ensures r.0.Some? ==> 0 <= r.0.value < Int32Max
    decreases fuel
  {
    Pow2Is32();
    assert Pow2(1) == 2;
    var top := Top(s);
    if top != Int32Max then (Some(top), Advance(s))
    else if fuel == 0 then (None, Advance(s))
    else DrawNonNegative(Advance(s), fuel - 1)
  }

  /** Next() skips a draw only when its top bits are int.MaxValue: what it
      returns is the first draw whose top bits are not. */
  lemma {:induction false} NonNegativeSkipsOnlyMax(s: State, fuel: nat)
    requires DrawNonNegative(s, fuel).0.Some?
    ensures exists k :: 0 <= k <= fuel && FirstNonMax(s, k, DrawNonNegative(s, fuel))
    decreases fuel
  {
    var r := DrawNonNegative(s, fuel);
    if Top(s) != Int32Max {
      assert AdvanceBy(s, 1) == Advance(s);
      assert FirstNonMax(s, 0, r);
    } else {
      NonNegativeSkipsOnlyMax(Advance(s), fuel - 1);
      var k :| 0 <= k <= fuel - 1 && FirstNonMax(Advance(s), k, r);
      assert AdvanceBy(s, k + 1) == AdvanceBy(Advance(s), k);
      assert AdvanceBy(s, k + 2) == AdvanceBy(Advance(s), k + 1);
      forall j | 0 <= j < k + 1
        ensures Top(AdvanceBy(s, j)) == Int32Max
      {
        if j > 0 {
          assert AdvanceBy(s, j) == AdvanceBy(Advance(s), j - 1);
        }
      }
      assert FirstNonMax(s, k + 1, r);
    }
  }

  /** r is what the (k+1)-th draw from s yields, and the k draws before it all
      had int.MaxValue as their top bits. */
  ghost predicate FirstNonMax(s: State, k: nat, r: (Option<int>, State)) {
    && r == (Some(Top(AdvanceBy(s, k))), AdvanceBy(s, k + 1))
    && forall j :: 0 <= j < k ==> Top(AdvanceBy(s, j)) == Int32Max
  }

  /** Next(maxValue) as the source computes it: (int)NextUInt32((uint)maxValue). */
  function DrawInt(s: State, maxValue: int): (r: (Option<int>, State))
    requires IsInt32(maxValue)
    ensures r.0.Some? && maxValue > 0 ==> 0 <= r.0.value < maxValue
    ensures r.0.Some? && maxValue == 0 ==> r.0.value == 0
  {
    var d := DrawBelow(s, WrapUInt32(maxValue));
    match d.0
    case None => (None, d.1)
    case Some(u) => (Some(WrapInt32(u)), d.1)
  }

  /** Next(minValue, maxValue) as the source computes it, with 32-bit
      wrap-around in the subtraction, the casts and the addition. */
  function DrawRange(s: State, minValue: int, maxValue: int): (r: (Option<int>, State))
    requires IsInt32(minValue) && IsInt32(maxValue)
    ensures r.0.Some? && minValue < maxValue ==> minValue <= r.0.value < maxValue
    ensures r.0.Some? && minValue == maxValue ==> r.0.value == minValue
  {
    var span := WrapUInt32(WrapInt32(maxValue - minValue));
    SpanOf(minValue, maxValue);
    var d := DrawBelow(s, span);
    match d.0
    case None => (None, d.1)
    case Some(u) =>
      if minValue <= maxValue then
        ShiftIntoRange(minValue, maxValue, u);
        (Some(WrapInt32(WrapInt32(u) + minValue)), d.1)
      else
        (Some(WrapInt32(WrapInt32(u) + minValue)), d.1)
  }

  /** For minValue <= maxValue the unsigned span is the plain difference. */
  lemma SpanOf(minValue: int, maxValue: int)
    requires IsInt32(minValue) && IsInt32(maxValue)
    ensures minValue <= maxValue ==> WrapUInt32(WrapInt32(maxValue - minValue)) == maxValue - minValue
  {
    WrapCongruent(WrapInt32(maxValue - minValue), maxValue - minValue);
  }

  /** A draw below the span, shifted by minValue with the source's wrapping
      casts, is the plain sum. */
  lemma ShiftIntoRange(minValue: int, maxValue: int, u: int)
    requires IsInt32(minValue) && IsInt32(maxValue) && minValue <= maxValue
    requires 0 <= u && (u < maxValue - minValue || u == 0)
    ensures WrapInt32(WrapInt32(u) + minValue) == u + minValue
  {
    WrapCongruent(WrapInt32(u) + minValue, u + minValue);
  }

  /** The generator object: four words overwritten in place by every draw. */
  class Xoshiro128 {
    var s0: Word
    var s1: Word
    var s2: Word
    var s3: Word

    function Current(): State
      reads this
    {
      State(s0, s1, s2, s3)
    }

    /** Seeds with (seed, 1, 1, 1) and throws one output away. */
    constructor (seed: int)
      requires IsInt32(seed)
      ensures Current() == Initial(seed)
    {
      s0 := WrapUInt32(seed);
      s1 := 1;
      s2 := 1;
      s3 := 1;
      new;
      var _ := NextUInt32();
    }

    /** A value in [0, uint.MaxValue]; the words are updated in place. */
    method NextUInt32() returns (r: Word)
      modifies this
      ensures r == Output(old(Current()))
      ensures Current() == Advance(old(Current()))
    {
      var a, b, c, d := s0, s1, s2, s3;
      r := Mul(RotateLeft(Mul(b, 5), 7), 9);
      var t := Shl(b, 9);
      c := Xor(c, a);
      d := Xor(d, b);
      b := Xor(b, c);
      a := Xor(a, d);
      c := Xor(c, t);
      d := RotateLeft(d, 11);
      s0, s1, s2, s3 := a, b, c, d;
    }

    /** NextUInt32(maxValue): multiply, keep the high word, and redraw while the
        low word falls below (2^32 - maxValue) mod maxValue. */
    method NextUInt32Below(maxValue: Word) returns (r: Option<Word>)
      modifies this
      ensures (r, Current()) == DrawBelow(old(Current()), maxValue)
    {
      var x := NextUInt32();
      var low := (maxValue * x) % UInt32Mod;
      ProductHighBelow(maxValue, x);
      if low < maxValue {
        r := RedrawWhileBelowThreshold(maxValue, x);
      } else {
        r := Some((maxValue * x) / UInt32Mod);
      }
    }

    /** The rejection loop of NextUInt32(maxValue), entered with the first draw x. */
    method RedrawWhileBelowThreshold(maxValue: Word, x0: Word) returns (r: Option<Word>)
      requires maxValue > 0
      modifies this
      ensures (r, Current()) == Redraw(old(Current()), maxValue, x0, RedrawLimit)
    {
      var x := x0;
      var low := (maxValue * x) % UInt32Mod;
      var remainder := WrapUInt32(0 - maxValue) % maxValue;
      var fuel := RedrawLimit;
      while low < remainder
        invariant low == ProductLow(maxValue, x) && remainder == Threshold(maxValue)
        invariant Redraw(old(Current()), maxValue, x0, RedrawLimit) == Redraw(Current(), maxValue, x, fuel)
        decreases fuel
      {
        if fuel == 0 {
          return None;
        }
        RedrawStep(Current(), maxValue, x, fuel);
        x := NextUInt32();
        fuel := fuel - 1;
        low := (maxValue * x) % UInt32Mod;
      }
      ProductHighBelow(maxValue, x);
      r := Some((maxValue * x) / UInt32Mod);
    }

    /** Next(): a value in [0, int.MaxValue). */
    method Next() returns (r: Option<int>)
      modifies this
      ensures (r, Current()) == DrawNonNegative(old(Current()), RedrawLimit)
    {
      var fuel := RedrawLimit;
      while true
        invariant DrawNonNegative(old(Current()), RedrawLimit) == DrawNonNegative(Current(), fuel)
        decreases fuel
      {
        ghost var before := Current();
        var x := NextUInt32();
        var result := Shr(x, 1);
        assert result == Top(before);
        if result != Int32Max {
          return Some(result);
        }
        if fuel == 0 {
          return None;
        }
        fuel := fuel - 1;
      }
    }

    /** Next(maxValue): (int)NextUInt32((uint)maxValue). */
    method NextBelow(maxValue: int) returns (r: Option<int>)
      requires IsInt32(maxValue)
      modifies this
      ensures (r, Current()) == DrawInt(old(Current()), maxValue)
    {
      var u := NextUInt32Below(WrapUInt32(maxValue));
      r := if u.Some? then Some(WrapInt32(u.value)) else None;
    }

    /** Next(minValue, maxValue): (int)NextUInt32((uint)(maxValue - minValue)) + minValue. */
    method NextInRange(minValue: int, maxValue: int) returns (r: Option<int>)
      requires IsInt32(minValue) && IsInt32(maxValue)
      modifies this
      ensures (r, Current()) == DrawRange(old(Current()), minValue, maxValue)
    {
      var span := WrapUInt32(WrapInt32(maxValue - minValue));
      var u := NextUInt32Below(span);
      if u.None? {
        return None;
      }
      r := Some(WrapInt32(WrapInt32(u.value) + minValue));
    }

    /** NextBytes always throws NotImplementedException. */
    method NextBytes(buffer: array<bv8>) returns (r: Result<(), RandomError>)
      ensures r == Err(NotImplemented)
    {
      r := Err(NotImplemented);
    }

    /** NextDouble always throws NotImplementedException. */
    method NextDouble() returns (r: Result<real, RandomError>)
      ensures r == Err(NotImplemented)
    {
      r := Err(NotImplemented);
    }

    /** Sample always throws NotImplementedException. */
    method Sample() returns (r: Result<real, RandomError>)
      ensures r == Err(NotImplemented)
    {
      r := Err(NotImplemented);
    }
  }
}
