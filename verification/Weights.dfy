/** Weights: their greatest common divisor and maximum, computed on C ints, and the C ints that REST
    stores for the numbers it is given. */
module Weights {
  import opened Words

  // ---------- Arithmetic ----------

  predicate Divides(d: nat, x: nat)
    requires d > 0
  {
    x % d == 0
  }

  lemma Multiple(d: nat, x: nat) returns (q: nat)
    requires d > 0 && Divides(d, x)
    ensures x == q * d
  {
    q := x / d;
  }

  lemma MultipleDivides(d: nat, q: nat)
    requires d > 0
    ensures Divides(d, q * d) && q * d / d == q
  {
    QuotientUnique(q * d, d, q, 0);
  }

  lemma DividesSum(d: nat, x: nat, y: nat)
    requires d > 0 && Divides(d, x)
    ensures Divides(d, x + y) <==> Divides(d, y)
  {
    var q := Multiple(d, x);
    QuotientUnique(x + y, d, q + y / d, y % d);
  }

  lemma DividesTimes(d: nat, x: nat, k: nat)
    requires d > 0 && Divides(d, x)
    ensures Divides(d, k * x)
  {
    var q := Multiple(d, x);
    assert k * x == (k * q) * d;
    MultipleDivides(d, k * q);
  }

  // ---------- The greatest common divisor ----------

  /** g divides a and b, and every common divisor of them divides g. */
  ghost predicate IsGcd(g: nat, a: nat, b: nat) {
    g > 0 && Divides(g, a) && Divides(g, b)
    && forall d: nat :: d > 0 && Divides(d, a) && Divides(d, b) ==> Divides(d, g)
  }

  /** The common divisors of (a, b) and of (b, a % b) are the same. */
  lemma EuclidStep(a: nat, b: nat, d: nat)
    requires b > 0 && d > 0 && Divides(d, b)
    ensures Divides(d, a) <==> Divides(d, a % b)
  {
    DividesTimes(d, b, a / b);
    assert a == (a / b) * b + a % b;
    DividesSum(d, (a / b) * b, a % b);
  }

  /** The absolute value. */
  function Magnitude(x: int): (m: nat) {
    if x < 0 then -x else x
  }

  predicate IsInt(x: int) {
    -INT_MAX - 1 <= x <= INT_MAX
  }

  /** C's remainder: it has the sign of the dividend. */
  function Remainder(a: int, b: int): (r: int)
    requires b != 0
    ensures Magnitude(r) == Magnitude(a) % Magnitude(b) < Magnitude(b)
  {
    var m := Magnitude(a) % Magnitude(b);
    if a < 0 then -m else m
  }

  /** The one division of C ints other than by 0 that has no result: its quotient is 2^31. */
  predicate NoQuotient(a: int, b: int) {
    a == -INT_MAX - 1 && b == -1
  }

  /** A divisor, or the end of the process in a division. */
  datatype Division = Value(divisor: int) | ByZero | Overflow

  /** Whatever divides one pair divides the other. */
  ghost predicate SameDivisors(a: int, b: int, a': int, b': int) {
    forall d: nat :: d > 0 ==>
      (Divides(d, Magnitude(a)) && Divides(d, Magnitude(b)) <==> Divides(d, Magnitude(a')) && Divides(d, Magnitude(b')))
  }

  lemma RemainderDivisors(a: int, b: int, a0: int, b0: int)
    requires b != 0 && SameDivisors(a, b, a0, b0)
    ensures SameDivisors(b, Remainder(a, b), a0, b0)
  {
    var c := Remainder(a, b);
    forall d: nat | d > 0
      ensures Divides(d, Magnitude(b)) && Divides(d, Magnitude(c)) <==> Divides(d, Magnitude(a)) && Divides(d, Magnitude(b))
    {
      if Divides(d, Magnitude(b)) {
        EuclidStep(Magnitude(a), Magnitude(b), d);
      }
    }
  }

  /** calc_gcd, for all C ints: a greatest common divisor up to its sign, and exactly which divisions fail. */
  method CalcGcd(a0: int, b0: int) returns (r: Division)
    requires IsInt(a0) && IsInt(b0)
    ensures r.ByZero? <==> b0 == 0
    ensures r.Overflow? <==> NoQuotient(a0, b0) || NoQuotient(b0, a0)
    ensures r.Value? ==> IsInt(r.divisor) && IsGcd(Magnitude(r.divisor), Magnitude(a0), Magnitude(b0))
    ensures a0 >= 0 && b0 > 0 ==> r.Value? && r.divisor > 0
  {
    var a, b := a0, b0;
    if b == 0 {
      return ByZero;
    }
    if NoQuotient(a, b) {
      return Overflow;
    }
    var c := Remainder(a, b);
    while c != 0
      invariant b != 0 && IsInt(b) && c == Remainder(a, b) && SameDivisors(a, b, a0, b0)
      invariant (a == a0 && b == b0) || (Magnitude(b) < Magnitude(b0) && !NoQuotient(b0, a0))
      invariant a0 >= 0 && b0 > 0 ==> a >= 0 && b > 0
      invariant !NoQuotient(a0, b0)
      decreases Magnitude(b)
    {
      RemainderDivisors(a, b, a0, b0);
      a := b;
      b := c;
      if NoQuotient(a, b) {
        return Overflow;
      }
      c := Remainder(a, b);
    }
    assert Divides(Magnitude(b), Magnitude(b));
    LastDivisor(a, b, a0, b0);
    r := Value(b);
  }

  lemma LastDivisor(a: int, b: int, a0: int, b0: int)
    requires b != 0 && Remainder(a, b) == 0 && SameDivisors(a, b, a0, b0)
    ensures IsGcd(Magnitude(b), Magnitude(a0), Magnitude(b0))
  {
    var m := Magnitude(b);
    assert Divides(m, m) && Divides(m, Magnitude(a));
  }

  ghost predicate DividesAll(d: nat, weights: seq<nat>)
    requires d > 0
  {
    forall i {:trigger Divides(d, weights[i])} :: 0 <= i < |weights| ==> Divides(d, weights[i])
  }

  ghost predicate IsMax(m: int, weights: seq<int>) {
    m in weights && forall i :: 0 <= i < |weights| ==> weights[i] <= m
  }

  function Magnitudes(weights: seq<int>): (m: seq<nat>)
    ensures |m| == |weights|
  {
    seq(|weights|, i requires 0 <= i < |weights| => Magnitude(weights[i]))
  }

  /** g divides every weight, and every common divisor of them divides g. */
  ghost predicate IsGcdOf(g: nat, weights: seq<nat>) {
    && g > 0 && DividesAll(g, weights)
    && forall d: nat :: d > 0 && DividesAll(d, weights) ==> Divides(d, g)
  }

  lemma GcdOfMore(g: nat, next: nat, weights: seq<nat>, w: nat)
    requires IsGcdOf(g, weights) && IsGcd(next, w, g)
    ensures IsGcdOf(next, weights + [w])
  {
    var more := weights + [w];
    forall i | 0 <= i < |more| ensures Divides(next, more[i]) {
      if i < |weights| {
        assert Divides(g, weights[i]);
        DividesThrough(next, g, weights[i]);
      }
    }
    forall d: nat | d > 0 && DividesAll(d, more) ensures Divides(d, next) {
      assert Divides(d, more[|weights|]);
      forall i | 0 <= i < |weights| ensures Divides(d, weights[i]) {
        assert Divides(d, more[i]);
      }
    }
  }

  lemma DividesThrough(d: nat, g: nat, x: nat)
    requires d > 0 && g > 0 && Divides(d, g) && Divides(g, x)
    ensures Divides(d, x)
  {
    var q := Multiple(g, x);
    DividesTimes(d, g, q);
  }

  lemma GcdOfOne(weights: seq<int>)
    requires |weights| > 0 && weights[0] != 0
    ensures IsGcdOf(Magnitude(weights[0]), Magnitudes(weights[..1]))
  {
    var m, one := Magnitude(weights[0]), Magnitudes(weights[..1]);
    assert one == [m] && Divides(m, one[0]);
    forall d: nat | d > 0 && DividesAll(d, one) ensures Divides(d, m) {
      assert Divides(d, one[0]);
    }
  }

  lemma GcdOfNext(weights: seq<int>, i: nat, gcd: int, next: int)
    requires 0 < i < |weights| && IsGcdOf(Magnitude(gcd), Magnitudes(weights[..i]))
    requires IsGcd(Magnitude(next), Magnitude(weights[i]), Magnitude(gcd))
    ensures IsGcdOf(Magnitude(next), Magnitudes(weights[..i + 1]))
    ensures IsInt(gcd) && IsInt(next) && next == -INT_MAX - 1 ==> gcd == next
  {
    GcdOfMore(Magnitude(gcd), Magnitude(next), Magnitudes(weights[..i]), Magnitude(weights[i]));
    assert Magnitudes(weights[..i + 1]) == Magnitudes(weights[..i]) + [Magnitude(weights[i])];
    hide IsGcdOf;
    var q := Multiple(Magnitude(next), Magnitude(gcd));
    Monotone(1, q, Magnitude(next));
  }

  predicate AllPositive(weights: seq<int>) {
    forall i :: 0 <= i < |weights| ==> weights[i] > 0
  }

  predicate AllInts(weights: seq<int>) {
    forall i :: 0 <= i < |weights| ==> IsInt(weights[i])
  }

  /** weight_calc_max, for all C ints: the maximum and, up to its sign, the greatest common divisor. It
      divides by 0 exactly when a first weight of 0 is followed by another, and a division has no result
      only with a weight of -2^31. */
  method WeightCalcMax(weights: seq<int>) returns (r: Division, max: int)
    requires |weights| > 0 && AllInts(weights)
    ensures r.ByZero? <==> |weights| > 1 && weights[0] == 0
    ensures r.Overflow? ==> -INT_MAX - 1 in weights
    ensures r.Value? ==> IsMax(max, weights)
    ensures r.Value? ==> if weights[0] == 0 then r.divisor == 0 else IsGcdOf(Magnitude(r.divisor), Magnitudes(weights))
    ensures AllPositive(weights) ==> r.Value? && r.divisor > 0
  {
    var gcd := weights[0];
    max := gcd;
    if gcd != 0 {
      GcdOfOne(weights);
    }
    hide IsGcd, IsGcdOf;
    for i := 1 to |weights|
      invariant IsInt(gcd) && IsMax(max, weights[..i]) && (i > 1 ==> weights[0] != 0)
      invariant if weights[0] == 0 then gcd == 0 else IsGcdOf(Magnitude(gcd), Magnitudes(weights[..i]))
      invariant AllPositive(weights) ==> gcd > 0
      invariant gcd == -INT_MAX - 1 ==> gcd in weights
    {
      assert weights[..i + 1] == weights[..i] + [weights[i]];
      var next := CalcGcd(weights[i], gcd);
      if !next.Value? {
        return next, max;
      }
      GcdOfNext(weights, i, gcd, next.divisor);
      gcd := next.divisor;
      if weights[i] > max {
        max := weights[i];
      }
    }
    assert weights[..|weights|] == weights;
    r := Value(gcd);
  }

  // ---------- Weights as REST stores them ----------

  /** The REST check: every number is positive. */
  predicate AcceptsWeights(numbers: seq<nat>) {
    forall i :: 0 <= i < |numbers| ==> numbers[i] > 0
  }

  /** Assigning the numbers to an array of C ints. */
  function StoredWeights(numbers: seq<nat>): (weights: seq<int>)
    ensures |weights| == |numbers|
  {
    seq(|numbers|, i requires 0 <= i < |numbers| => Int32(numbers[i]))
  }

  /** The stored weights are C ints, and positive, or 0, exactly when the low 32 bits of the numbers are,
      read as an int. */
  lemma StoredPositiveIff(numbers: seq<nat>)
    ensures AllInts(StoredWeights(numbers))
    ensures AllPositive(StoredWeights(numbers)) <==> forall i :: 0 <= i < |numbers| ==> 0 < numbers[i] % WORD <= INT_MAX
    ensures forall i :: 0 <= i < |numbers| ==> (StoredWeights(numbers)[i] == 0 <==> numbers[i] % WORD == 0)
  {
    forall i | 0 <= i < |numbers| ensures StoredWeights(numbers)[i] > 0 <==> 0 < numbers[i] % WORD <= INT_MAX {
    }
  }

  /** REST accepts weights that are stored as 0 and below. */
  lemma AcceptedNotPositive()
    ensures AcceptsWeights([WORD, INT_MAX + 1]) && StoredWeights([WORD, INT_MAX + 1]) == [0, -INT_MAX - 1]
  {
  }
}
