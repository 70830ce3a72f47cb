/** The modular-arithmetic helpers behind the control-flow dispatcher: a
    primality test, the next prime at or above a bound, the in-place reordering
    of a list along the walk i <- (i + inc) mod p, and a picker for a value
    congruent to i modulo p. */
module MathHelper {
  import opened Wrappers
  import opened BoundedInts
  import Xoshiro

  /** The .NET exceptions these helpers throw, by exception type and the
      parameter they name. */
  datatype MathError =
    | ArgumentOutOfRange(paramName: string)
    | Argument(paramName: string)
      /** The generator hit its redraw limit (a model artefact, see Xoshiro). */
    | RandomExhausted

  /** n is prime: at least 2 and without a divisor strictly between 1 and n. */
  predicate Prime(n: int) {
    n >= 2 && forall d :: 2 <= d < n ==> n % d != 0
  }

  /** p is the smallest prime that is at least min. */
  ghost predicate SmallestPrimeAtLeast(min: int, p: int) {
    p >= min && Prime(p) && forall k :: min <= k < p ==> !Prime(k)
  }

  // ----- Number theory ------------------------------------------------------

  /** The integer that Math.Ceiling(Math.Sqrt(n)) computes. */
  function CeilSqrt(n: nat): (r: nat)
    ensures r * r >= n
    ensures r == 0 || (r - 1) * (r - 1) < n
  {
    CeilSqrtFrom(n, 0)
  }

  function CeilSqrtFrom(n: nat, r: nat): (s: nat)
    requires r == 0 || (r - 1) * (r - 1) < n
    ensures s * s >= n
    ensures s == 0 || (s - 1) * (s - 1) < n
    decreases n - r
  {
    if r * r >= n then r
    else
      assert r <= r * r;
      CeilSqrtFrom(n, r + 1)
  }

  /** For p >= 3 the ceiling square root lies strictly between 1 and p. */
  lemma CeilSqrtBelow(p: int)
    requires p >= 3
    ensures 2 <= CeilSqrt(p) < p
  {
    var s := CeilSqrt(p);
    if s >= p {
      MulMonotone(s - 1, p - 1, s - 1);
      MulMonotone(p - 1, p - 1, s - 1);
      assert (p - 1) * (p - 1) <= (s - 1) * (s - 1);
      assert (p - 1) * (p - 1) >= p by {
        MulMonotone(p - 1, 2, p - 1);
      }
      assert false;
    }
    if s < 2 {
      assert false;
    }
  }

  /** Trial division up to the ceiling square root suffices. */
  lemma NoSmallDivisorIsPrime(p: int, s: int)
    requires p >= 3 && s >= 1 && s * s >= p
    requires forall d :: 2 <= d <= s ==> p % d != 0
    ensures Prime(p)
  {
    forall d | 2 <= d < p
      ensures p % d != 0
    {
      if p % d == 0 {
        var e := p / d;
        assert p == d * e;
        if e <= 1 {
          MulMonotone(d, e, 1);
          assert false;
        }
        if d <= s {
          assert false;
        }
        if e > s {
          MulMonotone(d, s + 1, e);
          MulMonotone(s + 1, s + 1, d);
          assert false;
        }
        ModMultiple(e, d);
        assert false;
      }
    }
  }

  /** Divisibility is transitive. */
  lemma DivTrans(m: int, q: int, e: int)
    requires q > 0 && e > 0 && m % q == 0 && q % e == 0
    ensures m % e == 0
  {
    var a, b := m / q, q / e;
    assert m == q * a;
    assert q == e * b;
    assert m == e * (b * a);
    ModMultiple(e, b * a);
  }

  /** Euclid's lemma: a prime dividing a * b with 0 < a < p divides b. */
  lemma {:induction false} PrimeDividesProduct(p: int, a: int, b: int)
    requires Prime(p) && 0 < a < p && (a * b) % p == 0
    ensures b % p == 0
    decreases a
  {
    if a > 1 {
      var q, r := p / a, p % a;
      assert p == q * a + r;
      assert r != 0;
      var t := (a * b) / p;
      assert a * b == t * p;
      assert r * b == p * b - q * (a * b);
      assert r * b == (b - q * t) * p;
      ModMultiple(p, b - q * t);
      PrimeDividesProduct(p, r, b);
    }
  }

  function Factorial(n: nat): (r: nat)
    ensures r >= 1
  {
    if n == 0 then 1 else n * Factorial(n - 1)
  }

  lemma {:induction false} FactorialDivisible(n: nat, d: int)
    requires 1 <= d <= n
    ensures Factorial(n) % d == 0
  {
    if d == n {
      ModMultiple(n, Factorial(n - 1));
    } else {
      FactorialDivisible(n - 1, d);
      var t := Factorial(n - 1) / d;
      assert Factorial(n - 1) == d * t;
      assert Factorial(n) == d * (n * t);
      ModMultiple(d, n * t);
    }
  }

  /** The least divisor of m that is at least d. */
  function SmallestDivisorFrom(m: int, d: int): (r: int)
    requires 2 <= d <= m
    requires forall e :: 2 <= e < d ==> m % e != 0
    ensures d <= r <= m && m % r == 0
    ensures forall e :: 2 <= e < r ==> m % e != 0
    decreases m - d
  {
    if m % d == 0 then d
    else
      assert d != m by {
        ModMultiple(m, 1);
      }
      SmallestDivisorFrom(m, d + 1)
  }

  /** The least divisor above 1 of a number is prime. */
  lemma SmallestDivisorIsPrime(m: int, q: int)
    requires 2 <= q && m % q == 0
    requires forall e :: 2 <= e < q ==> m % e != 0
    ensures Prime(q)
  {
    forall e | 2 <= e < q
      ensures q % e != 0
    {
      if q % e == 0 {
        DivTrans(m, q, e);
        assert false;
      }
    }
  }

  /** There are primes as large as one likes, so the search in GetPrime2 ends. */
  lemma PrimeAtLeast(n: nat) returns (p: int)
    ensures p >= n && Prime(p)
  {
    var m := Factorial(n) + 1;
    assert m >= 2;
    p := SmallestDivisorFrom(m, 2);
    SmallestDivisorIsPrime(m, p);
    if p <= n {
      FactorialDivisible(n, p);
      ModSub(m, Factorial(n), p);
      assert false;
    }
  }

  // ----- IsPrime, GetPrime ---------------------------------------------------

  /** IsPrime(p): trial division by 2 .. ceil(sqrt(p)); a negative argument throws. */
  method IsPrime(p: int) returns (r: Result<bool, MathError>)
    ensures p < 0 ==> r == Err(ArgumentOutOfRange("p"))
    ensures p >= 0 ==> r == Ok(Prime(p))
  {
    if p < 0 {
      return Err(ArgumentOutOfRange("p"));
    }
    if p == 0 || p == 1 {
      return Ok(false);
    }
    if p == 2 {
      return Ok(true);
    }
    var psr := CeilSqrt(p);
    CeilSqrtBelow(p);
    var i := 2;
    while i <= psr
      invariant 2 <= i <= psr + 1
      invariant forall d :: 2 <= d < i ==> p % d != 0
    {
      if p % i == 0 {
        return Ok(false);
      }
      i := i + 1;
    }
    NoSmallDivisorIsPrime(p, psr);
    return Ok(true);
  }

  /** The primes and non-primes the lookup table of GetPrime relies on. */
  lemma SmallPrimes()
    ensures Prime(2) && Prime(3) && Prime(5) && Prime(7) && Prime(11) && Prime(13) && Prime(17)
    ensures !Prime(0) && !Prime(1) && !Prime(4) && !Prime(6) && !Prime(8) && !Prime(9)
    ensures !Prime(10) && !Prime(12) && !Prime(14) && !Prime(15) && !Prime(16)
  {
    assert 4 % 2 == 0 && 6 % 2 == 0 && 8 % 2 == 0 && 9 % 3 == 0 && 10 % 2 == 0;
    assert 12 % 2 == 0 && 14 % 2 == 0 && 15 % 3 == 0 && 16 % 2 == 0;
    forall d | 2 <= d < 17
      ensures 17 % d != 0 && (d < 13 ==> 13 % d != 0) && (d < 11 ==> 11 % d != 0)
      ensures (d < 7 ==> 7 % d != 0) && (d < 5 ==> 5 % d != 0) && (d < 3 ==> 3 % d != 0)
    {
      assert d in {2, 3, 4, 5, 6, 7, 8, 9, 10, 11, 12, 13, 14, 15, 16};
    }
  }

  /** The table GetPrime answers from for 0 <= min <= 17. */
  function PrimeTable(min: int): int
    requires 0 <= min <= 17
  {
    if min <= 2 then 2
    else if min == 3 then 3
    else if min <= 5 then 5
    else if min <= 7 then 7
    else if min <= 11 then 11
    else if min <= 13 then 13
    else 17
  }

  /** The table agrees with the search it short-cuts. */
  lemma PrimeTableIsSmallest(min: int)
    requires 0 <= min <= 17
    ensures SmallestPrimeAtLeast(min, PrimeTable(min))
  {
    SmallPrimes();
  }

  /** GetPrime(min): the smallest prime >= min; a negative min throws. */
  method GetPrime(min: int) returns (r: Result<int, MathError>)
    ensures min < 0 ==> r == Err(ArgumentOutOfRange("min"))
    ensures min >= 0 ==> r.Ok? && SmallestPrimeAtLeast(min, r.value)
  {
    if min < 0 {
      return Err(ArgumentOutOfRange("min"));
    }
    if min <= 17 {
      PrimeTableIsSmallest(min);
      return Ok(PrimeTable(min));
    }
    var p := GetPrime2(min);
    return Ok(p);
  }

  /** GetPrime2(min): test min, min + 1, ... until one is prime. */
  method GetPrime2(min: int) returns (p: int)
    requires min >= 0
    ensures SmallestPrimeAtLeast(min, p)
  {
    ghost var bound := PrimeAtLeast(min);
    var i := min;
    while true
      invariant min <= i <= bound
      invariant forall k :: min <= k < i ==> !Prime(k)
      decreases bound - i
    {
      var isPrime := IsPrime(i);
      if isPrime == Ok(true) {
        return i;
      }
      i := i + 1;
    }
  }

  // ----- ReOrder ---------------------------------------------------------------

  /** The index ReOrder writes the k-th original element (from 0) to. */
  function Pos(p: int, start: int, inc: int, k: int): (r: int)
    requires p > 0
    ensures 0 <= r < p
  {
    (start + (k + 1) * inc) % p
  }

  /** The argument checks of ReOrder, in the order the source makes them. */
  function ReOrderCheck(count: int, p: int, start: Xoshiro.Word, inc: Xoshiro.Word): (r: Result<(), MathError>)
    ensures r.Ok? <==> Prime(p) && count == p && 0 < inc < p && start < Int32Max
  {
    if p < 0 then Err(ArgumentOutOfRange("p"))
    else if !Prime(p) then Err(ArgumentOutOfRange("p"))
    else if count != p then Err(Argument("list"))
    else if inc <= 0 then Err(ArgumentOutOfRange("inc"))
    else if inc >= p then Err(ArgumentOutOfRange("inc"))
    else if start >= Int32Max then Err(ArgumentOutOfRange("start"))
    else Ok(())
  }

  /** A step inc that p does not divide needs p steps to return: m * inc is
      not a multiple of p for 0 < m < p. */
  lemma StepNotMultiple(p: int, inc: int, m: int)
    requires Prime(p) && 0 < inc < p && 0 < m < p
    ensures (m * inc) % p != 0
  {
    if (m * inc) % p == 0 {
      PrimeDividesProduct(p, inc, m);
      assert false;
    }
  }

  /** Two different elements are never written to the same index. */
  lemma PosInjective(p: int, start: int, inc: int, j: int, k: int)
    requires Prime(p) && 0 < inc < p && 0 <= j < p && 0 <= k < p && j != k
    ensures Pos(p, start, inc, j) != Pos(p, start, inc, k)
  {
    var lo, hi := if j < k then j else k, if j < k then k else j;
    if Pos(p, start, inc, lo) == Pos(p, start, inc, hi) {
      ModSub(start + (hi + 1) * inc, start + (lo + 1) * inc, p);
      assert (start + (hi + 1) * inc) - (start + (lo + 1) * inc) == (hi - lo) * inc;
      StepNotMultiple(p, inc, hi - lo);
      assert false;
    }
  }

  function PosImage(p: int, start: int, inc: int, n: int): set<int>
    requires p > 0
  {
    set k | 0 <= k < n :: Pos(p, start, inc, k)
  }

  lemma {:induction false} PosImageSize(p: int, start: int, inc: int, n: nat)
    requires Prime(p) && 0 < inc < p && n <= p
    ensures |PosImage(p, start, inc, n)| == n
  {
    if n > 0 {
      PosImageSize(p, start, inc, n - 1);
      var x := Pos(p, start, inc, n - 1);
      assert PosImage(p, start, inc, n) == PosImage(p, start, inc, n - 1) + {x};
      if x in PosImage(p, start, inc, n - 1) {
        var k :| 0 <= k < n - 1 && Pos(p, start, inc, k) == x;
        PosInjective(p, start, inc, k, n - 1);
        assert false;
      }
    }
  }

  /** {0, ..., n - 1}. */
  function Indices(n: nat): (r: set<int>)
    ensures forall j :: j in r <==> 0 <= j < n
    ensures |r| == n
  {
    if n == 0 then {} else Indices(n - 1) + {n - 1}
  }

  /** ReOrder is a permutation: distinct elements go to distinct indices,
      and every index receives an element. */
  lemma PosBijective(p: int, start: int, inc: int)
    requires Prime(p) && 0 < inc < p
    ensures forall j, k :: 0 <= j < p && 0 <= k < p && j != k ==> Pos(p, start, inc, j) != Pos(p, start, inc, k)
    ensures forall i :: 0 <= i < p ==> i in PosImage(p, start, inc, p)
  {
    forall j, k | 0 <= j < p && 0 <= k < p && j != k
      ensures Pos(p, start, inc, j) != Pos(p, start, inc, k)
    {
      PosInjective(p, start, inc, j, k);
    }
    PosImageSize(p, start, inc, p);
    var image, all := PosImage(p, start, inc, p), Indices(p);
    assert image <= all;
    assert all == image + (all - image);
    assert |all - image| == 0;
    forall i | 0 <= i < p
      ensures i in image
    {
      assert i in all;
    }
  }

  /** After k steps of i <- (i + inc) mod p from start, i is Pos(k - 1). */
  lemma StepPos(p: int, start: int, inc: int, k: int)
    requires p > 0 && k >= 0
    ensures (Pos(p, start, inc, k) + inc) % p == Pos(p, start, inc, k + 1)
  {
    ModAddMod(start + (k + 1) * inc, inc, p);
    assert start + (k + 1) * inc + inc == start + (k + 2) * inc;
  }

  /** The walk is back at start mod p after exactly p steps, not before. */
  lemma WalkReturns(p: int, start: int, inc: int, k: int)
    requires Prime(p) && 0 < inc < p && 0 <= k < p
    ensures Pos(p, start, inc, k) == start % p <==> k == p - 1
  {
    if k == p - 1 {
      ModAddMultiple(start, inc, p);
      assert start + (k + 1) * inc == start + inc * p;
    } else if Pos(p, start, inc, k) == start % p {
      ModSub(start + (k + 1) * inc, start, p);
      assert start + (k + 1) * inc - start == (k + 1) * inc;
      StepNotMultiple(p, inc, k + 1);
      assert false;
    }
  }

  /** ReOrder(list, p, start, inc): element k moves to (start + (k+1)·inc) mod p,
      in exactly p writes; the index arithmetic is on uint and never wraps. */
  method ReOrder<T>(list: array<T>, p: int, start: Xoshiro.Word, inc: Xoshiro.Word)
    returns (r: Result<(), MathError>)
    requires IsInt32(p)
    modifies list
    ensures r == ReOrderCheck(list.Length, p, start, inc)
    ensures r.Err? ==> list[..] == old(list[..])
    ensures r.Ok? ==> forall k :: 0 <= k < p ==> list[Pos(p, start, inc, k)] == old(list[k])
  {
    var isPrime := IsPrime(p);
    if isPrime.Err? {
      return Err(isPrime.error);
    }
    if !isPrime.value {
      return Err(ArgumentOutOfRange("p"));
    }
    if list.Length != p {
      return Err(Argument("list"));
    }
    if inc <= 0 {
      return Err(ArgumentOutOfRange("inc"));
    }
    if inc >= p {
      return Err(ArgumentOutOfRange("inc"));
    }
    if start >= Int32Max {
      return Err(ArgumentOutOfRange("start"));
    }
    CycleAlongWalk(list, p, start, inc);
    return Ok(());
  }

  /** The do-while loop of ReOrder: dequeue the original elements one by one
      and store each at the next index of the walk, until the walk is back at
      start mod p. */
  method CycleAlongWalk<T>(list: array<T>, p: int, start: Xoshiro.Word, inc: Xoshiro.Word)
    requires Prime(p) && list.Length == p && 0 < inc < p && start < Int32Max && p <= Int32Max
    modifies list
    ensures forall k :: 0 <= k < p ==> list[Pos(p, start, inc, k)] == old(list[k])
  {
    ghost var walk := TheWalk(p, start, inc);
    // The queue of the original elements: a snapshot and the position of its head.
    var queue := list[..];
    var head := 0;
    var s2 := start % p;
    var i: Xoshiro.Word := start;
    var done := false;
    while !done
      invariant 0 <= head <= p
      invariant done <==> head == p
      invariant head == 0 ==> i == start
      invariant 0 < head ==> i == walk[head - 1]
      invariant forall m :: 0 <= m < head ==> list[walk[m]] == queue[m]
      decreases p - head
    {
      WalkStep(p, start, inc, walk, head, i);
      // The uint sum i + inc stays below 2^32, so it does not wrap.
      i := (i + inc) % p;
      list[i] := queue[head];
      head := head + 1;
      done := i == s2;
    }
    WalkIsPos(p, start, inc, walk, p);
  }

  /** walk lists the indices the loop visits: p indices below p, the first one
      start + inc and each next one inc further, all modulo p. */
  ghost predicate IsWalk(walk: seq<int>, p: int, start: int, inc: int)
    requires p > 0
  {
    && |walk| == p
    && (forall k :: 0 <= k < p ==> 0 <= walk[k] < p)
    && walk[0] == (start + inc) % p
    && (forall k :: 0 <= k < p - 1 ==> walk[k + 1] == (walk[k] + inc) % p)
  }

  /** The walk exists: Pos(0), ..., Pos(p - 1). */
  lemma TheWalk(p: int, start: int, inc: int) returns (walk: seq<int>)
    requires p > 0
    ensures IsWalk(walk, p, start, inc)
  {
    walk := seq(p, k requires 0 <= k < p => Pos(p, start, inc, k));
    forall k | 0 <= k < p - 1
      ensures walk[k + 1] == (walk[k] + inc) % p
    {
      StepPos(p, start, inc, k);
    }
  }

  /** The walk is the closed form: its k-th index is Pos(k). */
  lemma {:induction false} WalkIsPos(p: int, start: int, inc: int, walk: seq<int>, n: nat)
    requires p > 0 && IsWalk(walk, p, start, inc) && n <= p
    ensures forall k :: 0 <= k < n ==> walk[k] == Pos(p, start, inc, k)
  {
    if n > 1 {
      WalkIsPos(p, start, inc, walk, n - 1);
      StepPos(p, start, inc, n - 2);
    }
  }

  /** One iteration of the loop: from the previous index (start before the
      first step) the uint sum does not wrap and the step lands on the next
      index of the walk, which differs from every index already written and is
      start mod p exactly at the last step. */
  lemma WalkStep(p: int, start: int, inc: int, walk: seq<int>, k: int, i: int)
    requires Prime(p) && 0 < inc < p && 0 <= start < Int32Max && p <= Int32Max && 0 <= k < p
    requires IsWalk(walk, p, start, inc)
    requires k == 0 ==> i == start
    requires 0 < k ==> i == walk[k - 1]
    ensures 0 <= i + inc < UInt32Mod
    ensures (i + inc) % p == walk[k]
    ensures forall m :: 0 <= m < k ==> walk[m] != walk[k]
    ensures walk[k] == start % p <==> k == p - 1
  {
    WalkIsPos(p, start, inc, walk, p);
    forall m | 0 <= m < k
      ensures walk[m] != walk[k]
    {
      PosInjective(p, start, inc, m, k);
    }
    WalkReturns(p, start, inc, k);
  }

  // ----- The dispatcher's walk ---------------------------------------------------

  /** The state after replaying state <- (state + x) mod p for each x in xs. */
  function Walk(p: int, start: int, xs: seq<int>): int
    requires p > 0
  {
    if |xs| == 0 then start else (Walk(p, start, xs[..|xs| - 1]) + xs[|xs| - 1]) % p
  }

  /** Replaying the walk with any increments congruent to inc reaches, at
      step i, the index ReOrder moved the i-th original element to. */
  lemma {:induction false} WalkMeetsReOrder(p: int, start: int, inc: int, xs: seq<int>, i: int)
    requires p > 0 && 0 <= i < |xs|
    requires forall j :: 0 <= j < |xs| ==> xs[j] % p == inc % p
    ensures Walk(p, start, xs[..i + 1]) == Pos(p, start, inc, i)
  {
    var ys := xs[..i + 1];
    assert ys[..|ys| - 1] == xs[..i];
    var x := xs[i];
    var prev := if i == 0 then start else Pos(p, start, inc, i - 1);
    if i == 0 {
      assert Walk(p, start, xs[..0]) == start;
    } else {
      WalkMeetsReOrder(p, start, inc, xs, i - 1);
      assert xs[..i] == xs[..i - 1 + 1];
    }
    assert Walk(p, start, ys) == (prev + x) % p;
    ModSub(x, inc, p);
    var d := (x - inc) / p;
    assert x == inc + d * p;
    ModAddMultiple(prev + inc, d, p);
    assert (prev + x) % p == (prev + inc) % p;
    if i == 0 {
      assert (start + inc) % p == Pos(p, start, inc, 0);
    } else {
      StepPos(p, start, inc, i - 1);
    }
  }

  /** Together with ReOrder's postcondition: the dispatcher's walk finds the
      original elements in their original order. */
  lemma WalkVisitsInOrder<T>(p: int, start: int, inc: int, original: seq<T>, reordered: seq<T>, xs: seq<int>, i: int)
    requires Prime(p) && |original| == p && |reordered| == p && 0 <= i < |xs| && i < p
    requires forall k :: 0 <= k < p ==> reordered[Pos(p, start, inc, k)] == original[k]
    requires forall j :: 0 <= j < |xs| ==> xs[j] % p == inc % p
    ensures 0 <= Walk(p, start, xs[..i + 1]) < p
    ensures reordered[Walk(p, start, xs[..i + 1])] == original[i]
  {
    WalkMeetsReOrder(p, start, inc, xs, i);
  }

  // ----- FindCongruent -------------------------------------------------------------

  /** The arithmetic of FindCongruent on a draw, with its uint wrap-around. */
  function Congruent(i: Xoshiro.Word, p: int, draw: int): (x: Xoshiro.Word)
    requires p > 0
    ensures p <= draw < Int32Max - i % p ==> x % p == i % p && x < Int32Max
  {
    var ip := i % p;
    var x0 := WrapUInt32(draw);
    var x1 := x0 - x0 % p;
    if p <= draw < Int32Max - ip then
      RoundDownThenAdd(x0, p, ip);
      WrapUInt32(x1 + ip)
    else
      WrapUInt32(x1 + ip)
  }

  /** Rounding x down to a multiple of p and adding r < p leaves remainder r. */
  lemma RoundDownThenAdd(x: int, p: int, r: int)
    requires p > 0 && 0 <= r < p && 0 <= x < Int32Max - r
    ensures 0 <= x - x % p + r < Int32Max
    ensures (x - x % p + r) % p == r
  {
    var q, m := x / p, x % p;
    assert x == q * p + m;
    assert q >= 0;
    MulMonotone(p, 0, q);
    assert x - m + r == q * p + r;
    DivModUnique(q * p + r, p, q, r);
  }

  /** FindCongruent on the generator state s, for p > 0: the draw
      random.Next(p, int.MaxValue - i mod p) and the arithmetic on it. */
  function PickCongruent(i: Xoshiro.Word, p: int, s: Xoshiro.State): (Result<Xoshiro.Word, MathError>, Xoshiro.State)
    requires 0 < p <= Int32Max
  {
    var d := Xoshiro.DrawRange(s, p, Int32Max - i % p);
    (FromDraw(i, p, d.0), d.1)
  }

  /** When the draw range is not empty, the value found is congruent to i
      modulo p and below int.MaxValue. */
  lemma PickCongruentSound(i: Xoshiro.Word, p: int, s: Xoshiro.State)
    requires 0 < p <= Int32Max && p + i % p < Int32Max
    ensures var r := PickCongruent(i, p, s).0; r.Ok? ==> r.value % p == i % p && r.value < Int32Max
  {
  }

  lemma PickFromDraw(i: Xoshiro.Word, p: int, s: Xoshiro.State, d: (Option<int>, Xoshiro.State))
    requires 0 < p <= Int32Max
    requires d == Xoshiro.DrawRange(s, p, Int32Max - i % p)
    ensures PickCongruent(i, p, s) == (FromDraw(i, p, d.0), d.1)
  {
  }

  /** FindCongruent's result for one draw; no draw means the generator gave up. */
  function FromDraw(i: Xoshiro.Word, p: int, draw: Option<int>): Result<Xoshiro.Word, MathError>
    requires p > 0
  {
    match draw
    case None => Err(RandomExhausted)
    case Some(v) => Ok(Congruent(i, p, v))
  }

  /** FindCongruent(i, p, random): a value congruent to i modulo p below
      int.MaxValue, drawn by random.Next(p, int.MaxValue - i mod p); p <= 0 throws. */
  method FindCongruent(i: Xoshiro.Word, p: int, random: Xoshiro.Xoshiro128) returns (r: Result<Xoshiro.Word, MathError>)
    requires IsInt32(p)
    modifies random
    ensures p <= 0 ==> r == Err(ArgumentOutOfRange("p")) && random.Current() == old(random.Current())
    ensures p > 0 ==> r == PickCongruent(i, p, old(random.Current())).0
    ensures p > 0 ==> random.Current() == PickCongruent(i, p, old(random.Current())).1
  {
    if p <= 0 {
      return Err(ArgumentOutOfRange("p"));
    }
    var ip := i % p;
    ghost var s := random.Current();
    var draw := random.NextInRange(p, Int32Max - ip);
    r := FromDraw(i, p, draw);
    PickFromDraw(i, p, s, (draw, random.Current()));
  }

  /** As written, the promise `x < int.MaxValue` fails at the top of the range:
      for p = int.MaxValue and i a multiple of p the draw range is empty,
      Next(p, p) returns p, and so does FindCongruent. */
  lemma FindCongruentAtMaxValue(i: Xoshiro.Word, s: Xoshiro.State)
    requires i % Int32Max == 0
    ensures PickCongruent(i, Int32Max, s).0 == Ok(Int32Max)
  {
    var d := Xoshiro.DrawRange(s, Int32Max, Int32Max);
    assert d.0 == Some(Int32Max);
  }

  /** FindCongruent with the empty draw range handled: when p + (i mod p)
      leaves no room below int.MaxValue, i mod p itself is returned. */
  function PickCongruentCorrected(i: Xoshiro.Word, p: int, s: Xoshiro.State): (r: (Result<Xoshiro.Word, MathError>, Xoshiro.State))
    requires 0 < p <= Int32Max
    ensures r.0.Ok? ==> r.0.value % p == i % p && r.0.value < Int32Max
  {
    if p + i % p < Int32Max then
      PickCongruentSound(i, p, s);
      PickCongruent(i, p, s)
    else
      var ip := i % p;
      DivModUnique(ip, p, 0, ip);
      (Ok(ip), s)
  }
}
