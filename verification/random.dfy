/** `vmime::utility::random::next`: a multiplicative congruential
    generator over one static `unsigned int` state word, seeded from the
    clock. The arithmetic depends on the width of `unsigned long`, so the
    data model (32-bit or 64-bit `long`) is a parameter. */
module Random {

  /** Park and Miller's multiplier, `a` in the source. */
  const Multiplier: nat := 16807

  /** Values of a 32-bit `unsigned int`. */
  const UIntRange: nat := 0x1_0000_0000

  /** Values of a 64-bit `unsigned long`. */
  const ULong64Range: nat := 0x1_0000_0000_0000_0000

  /** `1 << 31` evaluates to the `int` -2^31; this is its value once
      converted to an `unsigned long`: 2^31 on a 32-bit long, and
      2^64 - 2^31 on a 64-bit long. */
  const ShiftedBit: nat := 0x8000_0000
  const Modulus32: nat := ShiftedBit
  const Modulus64: nat := ULong64Range - ShiftedBit

  /** The modulus the comment names: the Mersenne prime 2^31 - 1. */
  const ParkMillerModulus: nat := 0x7FFF_FFFF

  datatype DataModel = ILP32 | LP64

  /** `random::m_next`. */
  datatype Generator = Generator(state: nat)

  predicate Valid(g: Generator) {
    g.state < UIntRange
  }

  /** The static initialiser: the clock value converted to `unsigned int`. */
  function Seed(time: int): (g: Generator)
    ensures Valid(g)
    ensures (time - g.state) % UIntRange == 0
    ensures 0 <= time < UIntRange ==> g.state == time
  {
    Generator(time % UIntRange)
  }

  /** `(a * m_next) % c`, then the cast to `unsigned int`, as each data
      model evaluates it. On ILP32 the product wraps at 2^32 first. */
  function Step(model: DataModel, x: nat): nat
    requires x < UIntRange
  {
    match model
    case ILP32 => ((Multiplier * x) % UIntRange) % Modulus32 % UIntRange
    case LP64 => ((Multiplier * x) % ULong64Range) % Modulus64 % UIntRange
  }

  /** `random::next`: the new state, which is also the value returned. */
  function Next(model: DataModel, g: Generator): (r: (Generator, nat))
    requires Valid(g)
    ensures Valid(r.0)
    ensures r.0.state == r.1
    ensures model == ILP32 ==> r.1 == (Multiplier * g.state) % 0x8000_0000
    ensures model == LP64 ==> r.1 == (Multiplier * g.state) % 0x1_0000_0000
  {
    Ilp32IsPowerOfTwoModulus(g.state);
    Lp64IsTruncation(g.state);
    var v := Step(model, g.state);
    (Generator(v), v)
  }

  /** Reducing modulo 2^32 and then 2^31 is reducing modulo 2^31. */
  lemma Ilp32IsPowerOfTwoModulus(x: nat)
    requires x < UIntRange
    ensures Step(ILP32, x) == (Multiplier * x) % 0x8000_0000
  {
    var p := Multiplier * x;
    var q, r := p / 0x1_0000_0000, p % 0x1_0000_0000;
    assert p == (2 * q) * 0x8000_0000 + r;
    ModAddMultiple(2 * q, r);
    assert r % 0x8000_0000 < UIntRange;
  }

  /** Adding a multiple of 2^31 does not change the remainder modulo 2^31. */
  lemma ModAddMultiple(a: int, r: int)
    ensures (a * 0x8000_0000 + r) % 0x8000_0000 == r % 0x8000_0000
  {
    var t := r % 0x8000_0000;
    assert r == (r / 0x8000_0000) * 0x8000_0000 + t;
    assert a * 0x8000_0000 + r == (a + r / 0x8000_0000) * 0x8000_0000 + t;
  }

  /** On a 64-bit long the product never reaches the modulus, so only the
      final cast to `unsigned int` reduces it. */
  lemma Lp64IsTruncation(x: nat)
    requires x < UIntRange
    ensures Step(LP64, x) == (Multiplier * x) % UIntRange
  {
    assert Multiplier * x < Multiplier * UIntRange;
  }

  /** Zero is a fixed point under either data model. */
  lemma ZeroIsFixed(model: DataModel)
    ensures Next(model, Generator(0)) == (Generator(0), 0)
  {
  }

  /** On ILP32 every value lies below 2^31. */
  lemma Ilp32Bound(g: Generator)
    requires Valid(g)
    ensures Next(ILP32, g).1 < 0x8000_0000
  {
  }

  /** With an odd multiplier and a power-of-two modulus the lowest bit of
      the state never changes: odd seeds give only odd values and even
      seeds only even ones. */
  lemma ParityIsKept(model: DataModel, g: Generator)
    requires Valid(g)
    ensures Next(model, g).1 % 2 == g.state % 2
  {
    var p := Multiplier * g.state;
    assert p % 2 == g.state % 2;
    PowerOfTwoKeepsParity(p);
  }

  lemma PowerOfTwoKeepsParity(p: nat)
    ensures (p % 0x8000_0000) % 2 == p % 2
    ensures (p % 0x1_0000_0000) % 2 == p % 2
  {
  }

  // ---------------------------------------------------------------------
  // The generator as written against the one its comment describes

  /** Park and Miller's minimal standard step: 16807 x mod (2^31 - 1).
      As 16807 is invertible modulo the prime 2^31 - 1, no non-zero
      residue is sent to zero. */
  function ParkMiller(x: nat): (r: nat)
    ensures r < ParkMillerModulus
    ensures 0 < x < ParkMillerModulus ==> 0 < r
    ensures (r - Multiplier * x) % ParkMillerModulus == 0
  {
    ParkMillerNonZero(x);
    CongruentToProduct(x);
    (Multiplier * x) % ParkMillerModulus
  }

  /** The inverse of the multiplier modulo 2^31 - 1. */
  const MultiplierInverse: nat := 1407677000

  lemma InverseTimesMultiplier()
    ensures MultiplierInverse * Multiplier == 1 + 11017 * ParkMillerModulus
  {
  }

  /** If 16807 x were a multiple of 2^31 - 1, so would be
      `MultiplierInverse * 16807 * x`, which is x plus a multiple of it. */
  lemma ParkMillerNonZero(x: nat)
    ensures 0 < x < ParkMillerModulus ==> (Multiplier * x) % ParkMillerModulus != 0
  {
    var p := ParkMillerModulus;
    var m := Multiplier * x;
    var q, r := m / p, m % p;
    assert m == q * p + r;
    InverseTimesMultiplier();
    assert MultiplierInverse * m == x + 11017 * p * x;
    var k := MultiplierInverse * q - 11017 * x;
    assert x == p * k + MultiplierInverse * r;
  }

  lemma CongruentToProduct(x: nat)
    ensures ((Multiplier * x) % ParkMillerModulus - Multiplier * x) % ParkMillerModulus == 0
  {
    var m := Multiplier * x;
    assert m % ParkMillerModulus - m == -(m / ParkMillerModulus) * ParkMillerModulus;
  }

  /** The corrected generator never leaves the range [1, 2^31 - 2]: from a
      non-zero seed it cannot reach zero, nor 2^31 - 1. */
  lemma {:induction false} ParkMillerOrbitStaysInRange(x: nat, n: nat)
    requires 0 < x < ParkMillerModulus
    ensures 0 < Iterate(x, n) < ParkMillerModulus
    decreases n
  {
    if n > 0 {
      ParkMillerOrbitStaysInRange(ParkMiller(x), n - 1);
    }
  }

  function Iterate(x: nat, n: nat): nat
    decreases n
  {
    if n == 0 then x else Iterate(ParkMiller(x), n - 1)
  }

  /** As written on ILP32, the seed 868985321 steps to 2^31 - 1, a value
      the minimal standard generator never produces (and one it could
      never step from, since it is zero modulo 2^31 - 1). */
  lemma Ilp32ReachesParkMillerModulus()
    ensures Next(ILP32, Generator(868985321)).1 == ParkMillerModulus
    ensures ParkMiller(868985321) == 6800
  {
  }

  /** The two generators part ways from the first step of a small seed. */
  lemma Ilp32DiffersFromParkMiller()
    ensures Next(ILP32, Generator(127774)).1 == 13970
    ensures ParkMiller(127774) == 13971
  {
  }

  /** As written on LP64, values reach beyond 2^31 - 1. */
  lemma Lp64ExceedsParkMillerRange()
    ensures Next(LP64, Generator(127774)).1 == 2147497618
    ensures Next(LP64, Generator(127774)).1 > ParkMillerModulus
  {
  }
}
