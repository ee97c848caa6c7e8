/**
 * The dual-form share element of `src/dynresidue.rs`: either a plain
 * one-word integer or a residue bound to an odd modulus.
 *
 * A residue is represented by its canonical value `value < modulus`; the
 * Montgomery form the library keeps internally appears only where the
 * code inspects it (`is_zero`). Mixing residues under different moduli is
 * undefined in the source and is a precondition here.
 */
module DynResidue {
  import opened Wrappers
  import opened Bytes
  import opened ModArith

  /** A modulus `DynResidueParams` accepts: odd, above one, one word wide. */
  predicate IsModulus(p: nat) {
    p % 2 == 1 && 1 < p < WORD_BOUND
  }

  ghost predicate IsPrime(p: nat) {
    p > 1 && forall d :: 1 < d < p ==> p % d != 0
  }

  /** `d` is a positive divisor of `n`. */
  ghost predicate Divides(d: int, n: int) {
    d > 0 && n % d == 0
  }

  /** `w` is a multiplicative inverse of `v` modulo `p`. */
  ghost predicate IsInverse(v: nat, w: nat, p: nat)
    requires p > 0
  {
    (v * w) % p == 1
  }

  ghost predicate HasInverse(v: nat, p: nat)
    requires p > 0
  {
    exists w: nat :: w < p && IsInverse(v, w, p)
  }

  /** The Montgomery form `v * R mod p` with `R = 2^64`, as the library stores a residue. */
  function MontgomeryForm(v: nat, p: nat): nat
    requires p > 0
  {
    (v * WORD_BOUND) % p
  }

  /** `DynResidue::new(int, params)`: an integer reduced into the modulus. */
  function Lift(n: nat, p: nat): (r: WrappedDynResidue)
    requires IsModulus(p)
    ensures r.Valid() && r.Residue? && r.modulus == p
  {
    Residue(n % p, p)
  }

  datatype WrappedDynResidue =
    | Residue(value: nat, modulus: nat)
    | Integer(n: nat)
  {
    predicate Valid() {
      match this
      case Residue(v, p) => IsModulus(p) && v < p
      case Integer(n) => n < WORD_BOUND
    }

    /** Both operands are valid, and two residues share one modulus. */
    predicate CompatibleWith(rhs: WrappedDynResidue) {
      Valid() && rhs.Valid() && (Residue? && rhs.Residue? ==> modulus == rhs.modulus)
    }

    /** The modulus an operation with at least one residue works in. */
    function CommonModulus(rhs: WrappedDynResidue): nat
      requires Residue? || rhs.Residue?
    {
      if Residue? then modulus else rhs.modulus
    }

    /** `retrieve`: the canonical plain value. */
    function Retrieve(): (r: nat)
      requires Valid()
      ensures r < WORD_BOUND
      ensures Integer? ==> r == n
      ensures Residue? ==> r < modulus && r % modulus == value % modulus
    {
      match this
      case Residue(v, p) => ModSmall(v, p); v
      case Integer(n) => n
    }

    /** `is_zero`: a plain zero, or a residue whose Montgomery form is zero. */
    function IsZero(): (z: bool)
      requires Valid()
      ensures z <==> Retrieve() == 0
    {
      match this
      case Integer(n) => n == 0
      case Residue(v, p) =>
        if MontgomeryForm(v, p) == 0 then
          MontgomeryZeroOnlyAtZero(v, p);
          true
        else
          false
    }

    /** `checked_sub` on two integers must not go below zero. */
    predicate SubDefined(rhs: WrappedDynResidue) {
      CompatibleWith(rhs) && (Integer? && rhs.Integer? ==> n >= rhs.n)
    }

    /** `checked_add` on two integers must stay within one word. */
    predicate AddDefined(rhs: WrappedDynResidue) {
      CompatibleWith(rhs) && (Integer? && rhs.Integer? ==> n + rhs.n < WORD_BOUND)
    }

    /** `checked_mul` on two integers must stay within one word. */
    predicate MulDefined(rhs: WrappedDynResidue) {
      CompatibleWith(rhs) && (Integer? && rhs.Integer? ==> n * rhs.n < WORD_BOUND)
    }

    function Sub(rhs: WrappedDynResidue): (r: WrappedDynResidue)
      requires SubDefined(rhs)
      ensures r.Valid()
      ensures r.Integer? <==> Integer? && rhs.Integer?
      ensures r.Integer? ==> r.n == n - rhs.n
      ensures r.Residue? ==> r.modulus == CommonModulus(rhs)
      ensures r.Residue? ==> r.value == (Retrieve() - rhs.Retrieve()) % r.modulus
    {
      match (this, rhs)
      case (Residue(x, p), Residue(y, _)) =>
        Residue((x - y) % p, p)
      case (Residue(x, p), Integer(m)) =>
        ModSubRight(x, m, p);
        Residue((x - Lift(m, p).value) % p, p)
      case (Integer(m), Residue(y, p)) =>
        ModSubLeft(m, y, p);
        Residue((Lift(m, p).value - y) % p, p)
      case (Integer(m), Integer(k)) =>
        Integer(m - k)
    }

    function Add(rhs: WrappedDynResidue): (r: WrappedDynResidue)
      requires AddDefined(rhs)
      ensures r.Valid()
      ensures r.Integer? <==> Integer? && rhs.Integer?
      ensures r.Integer? ==> r.n == n + rhs.n
      ensures r.Residue? ==> r.modulus == CommonModulus(rhs)
      ensures r.Residue? ==> r.value == (Retrieve() + rhs.Retrieve()) % r.modulus
    {
      match (this, rhs)
      case (Residue(x, p), Residue(y, _)) =>
        Residue((x + y) % p, p)
      case (Residue(x, p), Integer(m)) =>
        ModAddRight(x, m, p);
        Residue((x + Lift(m, p).value) % p, p)
      case (Integer(m), Residue(y, p)) =>
        ModAddLeft(m, y, p);
        Residue((Lift(m, p).value + y) % p, p)
      case (Integer(m), Integer(k)) =>
        Integer(m + k)
    }

    function Mul(rhs: WrappedDynResidue): (r: WrappedDynResidue)
      requires MulDefined(rhs)
      ensures r.Valid()
      ensures r.Integer? <==> Integer? && rhs.Integer?
      ensures r.Integer? ==> r.n == n * rhs.n
      ensures r.Residue? ==> r.modulus == CommonModulus(rhs)
      ensures r.Residue? ==> r.value == (Retrieve() * rhs.Retrieve()) % r.modulus
    {
      match (this, rhs)
      case (Residue(x, p), Residue(y, _)) =>
        Residue((x * y) % p, p)
      case (Residue(x, p), Integer(m)) =>
        ModMulRight(x, m, p);
        Residue((x * Lift(m, p).value) % p, p)
      case (Integer(m), Residue(y, p)) =>
        ModMulLeft(m, y, p);
        Residue((Lift(m, p).value * y) % p, p)
      case (Integer(m), Integer(k)) =>
        Integer(m * k)
    }

    /**
     * `invert`: a plain integer has no inverse; a residue has one exactly
     * when its value is coprime to the modulus. The inverse is computed by
     * the extended Euclidean algorithm.
     */
    function Invert(): (r: Option<WrappedDynResidue>)
      requires Valid()
      ensures Integer? ==> r.None?
      ensures Residue? ==> (r.Some? <==> HasInverse(value, modulus))
      ensures r.Some? ==> r.value.Valid() && r.value.Residue? && r.value.modulus == modulus
      ensures r.Some? ==> IsInverse(value, r.value.value, modulus)
    {
      match this
      case Integer(_) => None
      case Residue(v, p) =>
        var (g, x, y) := ExtGcd(v, p);
        if g == 1 then
          InverseFromBezout(v, p, x, y);
          Some(Residue(x % p, p))
        else
          GcdOfInvertible(v, p, g);
          None
    }
  }

  /** `ZERO`, `ONE` and `Default::default()`: plain integers, bound to no modulus. */
  const ZERO: WrappedDynResidue := Integer(0)
  const ONE: WrappedDynResidue := Integer(1)

  function Default(): (r: WrappedDynResidue)
    ensures r.Valid() && r.Integer? && r.IsZero()
  {
    ZERO
  }

  lemma PlainConstants()
    ensures ZERO.Valid() && ZERO.Integer? && ZERO.IsZero()
    ensures ONE.Valid() && ONE.Integer? && ONE.Retrieve() == 1 && !ONE.IsZero()
  {
  }

  /** Subtracting and adding back the same operand returns the first operand, lifted into the common modulus. */
  lemma AddUndoesSub(a: WrappedDynResidue, b: WrappedDynResidue)
    requires a.SubDefined(b)
    ensures a.Sub(b).AddDefined(b)
    ensures a.Integer? && b.Integer? ==> a.Sub(b).Add(b) == a
    ensures a.Residue? ==> a.Sub(b).Add(b) == a
    ensures a.Integer? && b.Residue? ==> a.Sub(b).Add(b) == Lift(a.n, b.modulus)
  {
    if a.Integer? && b.Integer? {
      assert a.Sub(b) == Integer(a.n - b.n);
    } else {
      SubAddResidue(a, b);
      if a.Residue? {
        ModSmall(a.value, a.modulus);
      }
    }
  }

  lemma SubAddResidue(a: WrappedDynResidue, b: WrappedDynResidue)
    requires a.SubDefined(b) && (a.Residue? || b.Residue?)
    ensures a.Sub(b).AddDefined(b)
    ensures a.Sub(b).Add(b) == Residue(a.Retrieve() % a.CommonModulus(b), a.CommonModulus(b))
  {
    var p := a.CommonModulus(b);
    var x: int, y: int := a.Retrieve(), b.Retrieve();
    var d := a.Sub(b);
    assert d.Residue? && d.modulus == p && d.value == (x - y) % p;
    var e := d.Add(b);
    assert e.Residue? && e.modulus == p && e.value == (d.value + y) % p;
    SubThenAdd(x, y, p);
  }

  /** The residue arithmetic behind `AddUndoesSub`. */
  lemma SubThenAdd(x: int, y: int, p: int)
    requires p > 0
    ensures ((x - y) % p + y) % p == x % p
  {
    ModAddLeft(x - y, y, p);
  }

  /** A residue times its inverse is the residue one. */
  lemma MulInverseIsOne(a: WrappedDynResidue)
    requires a.Valid() && a.Invert().Some?
    ensures a.MulDefined(a.Invert().value)
    ensures a.Mul(a.Invert().value) == Residue(1, a.modulus)
  {
  }

  /** Under a prime modulus exactly the zero residue has no inverse. */
  lemma {:induction false} InvertPrime(a: WrappedDynResidue)
    requires a.Valid() && a.Residue? && IsPrime(a.modulus)
    ensures a.Invert().Some? <==> !a.IsZero()
  {
    var v, p := a.value, a.modulus;
    if v == 0 {
      forall w: nat | w < p
        ensures !IsInverse(v, w, p)
      {
        assert v * w == 0;
      }
    } else {
      var (g, x, y) := ExtGcd(v, p);
      assert Divides(g, p) && Divides(g, v);
      DivisorAtMost(g, p);
      if g == p {
        ModSmall(v, p);
        assert false;
      }
      assert g == 1;
      InverseFromBezout(v, p, x, y);
      assert IsInverse(v, x % p, p);
    }
  }

  // ---------------------------------------------------------------------
  // Number theory behind `is_zero` and `invert`.

  /** An odd modulus that divides `2m` divides `m`. */
  lemma OddHalving(m: int, p: int)
    requires p > 0 && p % 2 == 1 && (2 * m) % p == 0
    ensures m % p == 0
  {
    var q := (2 * m) / p;
    assert 2 * m == q * p;
    OddProduct(q, p);
    ModUnique(2 * m, 2, m, 0);
    var c := q / 2;
    assert q == 2 * c;
    assert m == c * p;
    ModUnique(m, p, c, 0);
  }

  /** The product of two odd numbers is odd. */
  lemma OddProduct(q: int, p: int)
    requires p % 2 == 1
    ensures q % 2 == 1 ==> (q * p) % 2 == 1
  {
    if q % 2 == 1 {
      var a, b := q / 2, p / 2;
      assert q == 2 * a + 1 && p == 2 * b + 1;
      assert q * p == (2 * a * b + a + b) * 2 + 1;
      ModUnique(q * p, 2, 2 * a * b + a + b, 1);
    }
  }

  /** An odd modulus that divides `m * 2^k` divides `m`. */
  lemma {:induction false} OddDividesPow2Multiple(m: int, k: nat, p: int)
    requires p > 0 && p % 2 == 1 && (m * Pow(2, k)) % p == 0
    ensures m % p == 0
    decreases k
  {
    if k > 0 {
      assert m * Pow(2, k) == (2 * m) * Pow(2, k - 1);
      OddDividesPow2Multiple(2 * m, k - 1, p);
      OddHalving(m, p);
    }
  }

  /** The Montgomery form of a residue is zero only for the zero residue. */
  lemma MontgomeryZeroOnlyAtZero(v: nat, p: nat)
    requires IsModulus(p) && v < p && MontgomeryForm(v, p) == 0
    ensures v == 0
  {
    WordBoundPowers();
    OddDividesPow2Multiple(v, 64, p);
    ModSmall(v, p);
  }

  /** A positive divisor of a positive number is at most that number. */
  lemma DivisorAtMost(d: int, n: int)
    requires n > 0 && Divides(d, n)
    ensures d <= n
  {
    var k := n / d;
    assert n == k * d;
    SignOfProduct(k, d);
  }

  /** With a positive right factor, the product has the sign of the left one. */
  lemma SignOfProduct(k: int, d: int)
    requires d > 0
    ensures k <= 0 ==> k * d <= 0
    ensures k >= 1 ==> k * d >= d
  {
    if k <= 0 {
      var j := -k;
      assert j * d >= 0;
      assert k * d == -(j * d);
    } else {
      MulAtLeast(k, d);
    }
  }

  /** A common divisor of `b` and `a % b` divides `a`. */
  lemma DividesStep(a: int, b: int, g: int)
    requires b > 0 && Divides(g, b) && Divides(g, a % b)
    ensures Divides(g, a)
  {
    var q, r := a / b, a % b;
    var kb, kr := b / g, r / g;
    assert b == kb * g && r == kr * g;
    assert a == q * b + r;
    assert q * b == (q * kb) * g;
    assert a == (q * kb + kr) * g;
    ModUnique(a, g, q * kb + kr, 0);
  }

  /** Bezout coefficients for `(b, a % b)` give coefficients for `(a, b)`. */
  lemma BezoutStep(a: int, b: int, g: int, x: int, y: int)
    requires b > 0 && b * x + (a % b) * y == g
    ensures a * y + b * (x - (a / b) * y) == g
  {
    var q, r := a / b, a % b;
    assert a == q * b + r;
    assert a * y == q * b * y + r * y;
    assert b * (x - q * y) == b * x - q * b * y;
  }

  /**
   * Extended Euclid: `(g, x, y)` with `a*x + b*y == g` and `g` a common
   * divisor of `a` and `b` (unless both are zero).
   */
  function ExtGcd(a: nat, b: nat): (r: (nat, int, int))
    ensures a * r.1 + b * r.2 == r.0
    ensures a > 0 || b > 0 ==> Divides(r.0, a) && Divides(r.0, b)
    decreases b
  {
    if b == 0 then
      if a > 0 then
        ModUnique(a, a, 1, 0);
        (a, 1, 0)
      else
        (a, 1, 0)
    else
      var (g, x, y) := ExtGcd(b, a % b);
      BezoutStep(a, b, g, x, y);
      DividesStep(a, b, g);
      (g, y, x - (a / b) * y)
  }

  /** Bezout coefficients with gcd one give the inverse. */
  lemma InverseFromBezout(v: nat, p: nat, x: int, y: int)
    requires p > 1 && v * x + p * y == 1
    ensures IsInverse(v, x % p, p)
  {
    var w, k := x % p, x / p;
    assert x == k * p + w;
    assert v * x == v * k * p + v * w;
    assert v * w == (-y - v * k) * p + 1;
    ModUnique(v * w, p, -y - v * k, 1);
  }

  /** Every common divisor of an invertible value and its modulus is one. */
  lemma GcdOfInvertible(v: nat, p: nat, g: int)
    requires p > 1 && Divides(g, v) && Divides(g, p)
    ensures HasInverse(v, p) ==> g == 1
  {
    if HasInverse(v, p) {
      var w: nat :| w < p && IsInverse(v, w, p);
      var vw := v * w;
      var k := vw / p;
      DivMod(vw, p);
      var kv, kp := v / g, p / g;
      DivMod(v, g);
      DivMod(p, g);
      MulRegroup(kv, g, w);
      assert vw == (kv * w) * g;
      MulRegroup(k, kp, g);
      assert k * p == (k * kp) * g;
      MulSubDistrib(kv * w, k * kp, g);
      var m := kv * w - k * kp;
      assert m * g == 1;
      SignOfProduct(m, g);
    }
  }

  // ---------------------------------------------------------------------
  // `IdentifierDynResidue` and its `ShareElement` / `ShareIdentifier` glue.

  /** The only error the share glue reports. */
  datatype VsssError = NotImplemented

  /**
   * `IdentifierDynResidue(pub WrappedDynResidue)`. The field `inner` is
   * the tuple field `.0`, which `inc` and the `*Assign` operators reached
   * through `DerefMut` overwrite in place.
   */
  class IdentifierDynResidue {
    var inner: WrappedDynResidue

    /** `IdentifierDynResidue::new`: an integer lifted into a modulus. */
    constructor New(integer: nat, p: nat)
      requires integer < WORD_BOUND && IsModulus(p)
      ensures inner.Valid() && inner.Residue? && inner.modulus == p
      ensures inner.Retrieve() == integer % p
    {
      inner := Lift(integer, p);
    }

    /** `From<WrappedDynResidue>`: wraps an element as it is. */
    constructor Wrap(value: WrappedDynResidue)
      ensures inner == value
    {
      inner := value;
    }

    /** `ShareElement::zero`. */
    constructor Zero()
      ensures inner == ZERO
    {
      inner := ZERO;
    }

    /** `ShareElement::one`. */
    constructor One()
      ensures inner == ONE
    {
      inner := ONE;
    }

    /** `ShareElement::random`: the word drawn from the generator, as a plain integer. */
    constructor Random(word: nat)
      requires word < WORD_BOUND
      ensures inner.Valid() && inner == Integer(word)
    {
      inner := Integer(word);
    }

    function IsZero(): (z: bool)
      reads this
      requires inner.Valid()
      ensures z <==> inner.Retrieve() == 0
    {
      inner.IsZero()
    }

    /** `ShareElement::serialize`: the fixed-width big-endian bytes of `retrieve()`. */
    function Serialize(): (bs: seq<byte>)
      reads this
      requires inner.Valid()
      ensures |bs| == WORD_BYTES
      ensures FromBeBytes(bs) == inner.Retrieve()
    {
      WordBoundPowers();
      FromToBeBytes(inner.Retrieve(), WORD_BYTES);
      ToBeBytes(inner.Retrieve(), WORD_BYTES)
    }

    /** `ShareElement::to_vec`: the serialization as a vector. */
    function ToVec(): (bs: seq<byte>)
      reads this
      requires inner.Valid()
      ensures |bs| == WORD_BYTES && FromBeBytes(bs) == inner.Retrieve()
    {
      Serialize()
    }

    /** `ShareElement::deserialize` is not supported. */
    static function Deserialize(serialized: seq<byte>): (r: Result<IdentifierDynResidue, VsssError>)
      ensures r == Failure(NotImplemented)
    {
      Failure(NotImplemented)
    }

    /** `ShareElement::from_slice` is not supported. */
    static function FromSlice(slice: seq<byte>): (r: Result<IdentifierDynResidue, VsssError>)
      ensures r == Failure(NotImplemented)
    {
      Failure(NotImplemented)
    }

    /** `SubAssign` on the inner element. */
    method SubAssign(rhs: WrappedDynResidue)
      requires inner.SubDefined(rhs)
      modifies this
      ensures inner == old(inner).Sub(rhs)
    {
      inner := inner.Sub(rhs);
    }

    /** `AddAssign` on the inner element. */
    method AddAssign(rhs: WrappedDynResidue)
      requires inner.AddDefined(rhs)
      modifies this
      ensures inner == old(inner).Add(rhs)
    {
      inner := inner.Add(rhs);
    }

    /** `MulAssign` on the inner element. */
    method MulAssign(rhs: WrappedDynResidue)
      requires inner.MulDefined(rhs)
      modifies this
      ensures inner == old(inner).Mul(rhs)
    {
      inner := inner.Mul(rhs);
    }

    /** `ShareIdentifier::inc`: `self.0 += increment.0`, nothing else changes. */
    method Inc(increment: IdentifierDynResidue)
      requires inner.AddDefined(increment.inner)
      modifies this
      ensures inner == old(inner).Add(old(increment.inner))
      ensures inner.Valid()
    {
      AddAssign(increment.inner);
    }

    /** `Mul<&Self>`: a new identifier holding the product. */
    method Mul(rhs: IdentifierDynResidue) returns (r: IdentifierDynResidue)
      requires inner.MulDefined(rhs.inner)
      ensures fresh(r) && r.inner == inner.Mul(rhs.inner)
    {
      r := new IdentifierDynResidue.Wrap(inner.Mul(rhs.inner));
    }

    /** `ShareIdentifier::invert`: a missing inverse becomes `NotImplemented`. */
    method Invert() returns (r: Result<IdentifierDynResidue, VsssError>)
      requires inner.Valid()
      ensures r.Failure? <==> inner.Invert().None?
      ensures r.Failure? ==> r.error == NotImplemented
      ensures r.Success? ==> fresh(r.value) && Some(r.value.inner) == inner.Invert()
    {
      var inv := inner.Invert();
      if inv.None? {
        r := Failure(NotImplemented);
      } else {
        var id := new IdentifierDynResidue.Wrap(inv.value);
        r := Success(id);
      }
    }
  }
}
