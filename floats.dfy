/**
 * The bid view compares `float(bid_amount)` with the listing's current bid,
 * a decimal read back from the database. Python compares a float with a
 * decimal exactly, so the comparison is between the IEEE 754 double nearest
 * to the bid and the exact current bid.
 *
 * A double holds 53 significant bits. For an amount of m hundredths with
 * 0 < m <= 999999 the double is q / 2^s, where s is the scale at which
 * m * 2^s / 100 has 53 bits before the point, and q is that quotient rounded
 * to the nearest integer, halves to even.
 */
module Floats {
  import opened Models

  function Pow2(n: nat): (p: nat)
  {
    if n == 0 then 1 else 2 * Pow2(n - 1)
  }

  lemma Pow2Positive(n: nat)
    ensures Pow2(n) > 0
  {
  }

  /** 2^52: the least significand a double holds with all 53 bits in use. */
  const MinSignificand: nat := 4503599627370496

  /**
   * The least scale s >= from at which m hundredths scaled by 2^s reach
   * 2^52 units: the binary exponent that gives m / 100 its 53 bits.
   */
  function ScaleFrom(m: nat, from: nat): (s: nat)
    requires m > 0
    ensures s >= from
    ensures m * Pow2(s) >= 100 * MinSignificand
    ensures s > from ==> m * Pow2(s - 1) < 100 * MinSignificand
    decreases 100 * MinSignificand - m * Pow2(from)
  {
    if m * Pow2(from) >= 100 * MinSignificand then from
    else
      Pow2Positive(from);
      assert m * Pow2(from + 1) == 2 * (m * Pow2(from));
      ScaleFrom(m, from + 1)
  }

  /**
   * The significand of the double nearest to m hundredths: m / 100 scaled
   * by 2^s and rounded to the nearest integer, halves to the even one.
   */
  function Significand(m: nat): (significand: nat)
    requires 0 < m
  {
    var p := Pow2(ScaleFrom(m, 0));
    var q, rem := m * p / 100, m * p % 100;
    if rem > 50 || (rem == 50 && q % 2 == 1) then q + 1 else q
  }

  /**
   * The double nearest to `c` hundredths, as the pair (num, s) whose value
   * is num / 2^s.
   */
  function DoubleOfCents(c: Cents): (d: (int, nat))
    requires FitsAmount(c)
  {
    if c == 0 then (0, 0)
    else if c < 0 then (-(Significand(-c) as int), ScaleFrom(-c, 0))
    else (Significand(c), ScaleFrom(c, 0))
  }

  /** `float(amount) > current`, with `current` compared exactly. */
  predicate FloatExceeds(amount: Cents, current: Cents)
    requires FitsAmount(amount)
  {
    DoubleOfCents(amount).0 * 100 > current * Pow2(DoubleOfCents(amount).1)
  }

  lemma {:induction false} Pow2Add(a: nat, b: nat)
    ensures Pow2(a + b) == Pow2(a) * Pow2(b)
    decreases a
  {
    if a > 0 {
      Pow2Add(a - 1, b);
    }
  }

  lemma Pow2Monotone(a: nat, b: nat)
    requires a <= b
    ensures Pow2(a) <= Pow2(b)
  {
    Pow2Add(a, b - a);
    Pow2Positive(b - a);
    MulMonotone(1, Pow2(b - a), Pow2(a));
  }

  lemma MulMonotone(x: int, y: int, p: int)
    requires x <= y && p >= 0
    ensures x * p <= y * p
  {
  }

  lemma ScaledMonotone(m: nat, a: nat, b: nat)
    requires a <= b
    ensures m * Pow2(a) <= m * Pow2(b)
  {
    Pow2Monotone(a, b);
    MulMonotone(Pow2(a), Pow2(b), m);
  }

  /** The scale of an amount within the bounds leaves at least 100 units per hundredth. */
  lemma ScaleIsFine(m: nat)
    requires 0 < m <= MaxCents
    ensures Pow2(ScaleFrom(m, 0)) >= 100
  {
    var p := Pow2(ScaleFrom(m, 0));
    if p < 100 {
      MulMonotone(p, 99, m);
      MulMonotone(m, MaxCents, 99);
    }
  }

  /** The scale is the one exponent at which m hundredths first reach 2^52 units. */
  lemma ScaleIs(m: nat, s: nat)
    requires m > 0 && m * Pow2(s) >= 100 * MinSignificand
    requires s > 0 ==> m * Pow2(s - 1) < 100 * MinSignificand
    ensures ScaleFrom(m, 0) == s
  {
    var t := ScaleFrom(m, 0);
    if t < s {
      ScaledMonotone(m, t, s - 1);
    } else if t > s {
      ScaledMonotone(m, s, t - 1);
    }
  }

  lemma Pow2Values()
    ensures Pow2(52) == MinSignificand
    ensures Pow2(53) == 2 * MinSignificand
    ensures Pow2(54) == 4 * MinSignificand
    ensures Pow2(58) == 64 * MinSignificand
    ensures Pow2(59) == 128 * MinSignificand
  {
    assert Pow2(4) == 16;
    Pow2Add(4, 4);
    assert Pow2(8) == 256;
    Pow2Add(8, 8);
    assert Pow2(16) == 65536;
    Pow2Add(16, 16);
    assert Pow2(32) == 4294967296;
    Pow2Add(32, 16);
    assert Pow2(48) == 281474976710656;
    Pow2Add(48, 4);
    assert Pow2(52) == MinSignificand;
    assert Pow2(7) == 128;
    Pow2Add(52, 7);
    assert Pow2(6) == 64;
    Pow2Add(52, 6);
    assert Pow2(2) == 4;
    Pow2Add(52, 2);
    assert Pow2(1) == 2;
    Pow2Add(52, 1);
  }

  /** Rounding moves m hundredths by less than one hundredth, and not at all when exact. */
  lemma SignificandIsNear(m: nat)
    requires 0 < m
    ensures m * Pow2(ScaleFrom(m, 0)) - 100 < 100 * Significand(m) <= m * Pow2(ScaleFrom(m, 0)) + 50
    ensures m * Pow2(ScaleFrom(m, 0)) % 100 == 0 ==> 100 * Significand(m) == m * Pow2(ScaleFrom(m, 0))
  {
  }

  /**
   * A rounded value within 100 units of m * p lies on the same side as
   * m * p of every other whole number of hundredths, each worth p >= 100
   * units.
   */
  lemma RoundingKeepsOrder(m: int, c: int, p: int, r: int)
    requires p >= 100 && m * p - 100 < 100 * r <= m * p + 50
    ensures m > c ==> 100 * r > c * p
    ensures m < c ==> 100 * r < c * p
    ensures -m > c ==> -100 * r > c * p
    ensures -m < c ==> -100 * r < c * p
  {
    if m > c {
      MulMonotone(c, m - 1, p);
      assert (m - 1) * p == m * p - p;
    }
    if m < c {
      MulMonotone(m + 1, c, p);
      assert (m + 1) * p == m * p + p;
    }
    if -m > c {
      MulMonotone(c, -m - 1, p);
      assert (-m - 1) * p == -(m * p) - p;
    }
    if -m < c {
      MulMonotone(-m + 1, c, p);
      assert (-m + 1) * p == -(m * p) + p;
    }
  }

  lemma Pow2AtLeastFour(s: nat)
    requires Pow2(s) >= 4
    ensures s >= 2
  {
  }

  lemma Pow2TwoMore(s: nat)
    requires s >= 2
    ensures Pow2(s) == 4 * Pow2(s - 2)
  {
    assert Pow2(s) == 2 * Pow2(s - 1);
    assert Pow2(s - 1) == 2 * Pow2(s - 2);
  }

  /** A multiple of 25 times a multiple of 4 is a multiple of 100. */
  lemma QuarterTimesFour(m: int, j: int)
    requires m % 25 == 0
    ensures m * (4 * j) % 100 == 0
  {
    var k := m / 25;
    assert m == 25 * k;
    assert m * (4 * j) == 100 * (k * j);
  }

  /** A whole number of quarters is a value a double holds exactly. */
  lemma QuartersAreExact(m: nat)
    requires 0 < m <= MaxCents && m % 25 == 0
    ensures m * Pow2(ScaleFrom(m, 0)) % 100 == 0
  {
    var s := ScaleFrom(m, 0);
    ScaleIsFine(m);
    Pow2AtLeastFour(s);
    Pow2TwoMore(s);
    QuarterTimesFour(m, Pow2(s - 2));
  }

  /** The float comparison in terms of the significand and the scale. */
  lemma FloatExceedsUnfolded(amount: Cents, current: Cents)
    requires FitsAmount(amount) && amount != 0
    ensures var m := if amount < 0 then -amount else amount;
      var p, r := Pow2(ScaleFrom(m, 0)), Significand(m);
      FloatExceeds(amount, current) <==> (if amount < 0 then -100 * r else 100 * r) > current * p
  {
  }

  /** The float comparison agrees with the exact one except on a tie. */
  lemma FloatComparisonDiffersOnlyOnTies(amount: Cents, current: Cents)
    requires FitsAmount(amount) && amount != current
    ensures FloatExceeds(amount, current) <==> amount > current
  {
    if amount != 0 {
      var m := if amount < 0 then -amount else amount;
      FloatExceedsUnfolded(amount, current);
      ScaleIsFine(m);
      SignificandIsNear(m);
      RoundingKeepsOrder(m, current, Pow2(ScaleFrom(m, 0)), Significand(m));
    }
  }

  /** A rounded value that is exact compares equal to the amount it came from. */
  lemma ExactTieIsNotAbove(amount: int, m: int, p: int, r: int)
    requires m == (if amount < 0 then -amount else amount) && 100 * r == m * p
    ensures !((if amount < 0 then -100 * r else 100 * r) > amount * p)
  {
    if amount < 0 {
      assert amount * p == -(m * p);
    }
  }

  /** A tie on a whole number of quarters, a value a double holds exactly, is rejected. */
  lemma QuarterTiesAreRejected(amount: Cents)
    requires FitsAmount(amount) && amount % 25 == 0
    ensures !FloatExceeds(amount, amount)
  {
    if amount != 0 {
      var m := if amount < 0 then -amount else amount;
      FloatExceedsUnfolded(amount, amount);
      QuartersAreExact(m);
      SignificandIsNear(m);
      ExactTieIsNotAbove(amount, m, Pow2(ScaleFrom(m, 0)), Significand(m));
    }
  }

  /** The significand of m hundredths, given its scale and the scaled value. */
  lemma SignificandAt(m: nat, s: nat, v: nat)
    requires 0 < m && ScaleFrom(m, 0) == s && m * Pow2(s) == v
    ensures Significand(m) == if v % 100 > 50 || (v % 100 == 50 && v / 100 % 2 == 1) then v / 100 + 1 else v / 100
  {
  }

  lemma TieAtOneCentIsAccepted()
    ensures FloatExceeds(1, 1)
  {
    Pow2Values();
    ScaleIs(1, 59);
    SignificandAt(1, 59, 576460752303423488);
    FloatExceedsUnfolded(1, 1);
  }

  lemma TieAtOneTenIsAccepted()
    ensures FloatExceeds(110, 110)
  {
    Pow2Values();
    ScaleIs(110, 52);
    SignificandAt(110, 52, 495395959010754560);
    FloatExceedsUnfolded(110, 110);
  }

  lemma TieAtThirtyCentsIsRejected()
    ensures !FloatExceeds(30, 30)
  {
    Pow2Values();
    ScaleIs(30, 54);
    SignificandAt(30, 54, 540431955284459520);
    FloatExceedsUnfolded(30, 30);
  }

  /** A bid of 0.01 on a current bid of 0.01 is accepted, as is 1.10 on 1.10. */
  lemma TiesThatAreAccepted()
    ensures FloatExceeds(1, 1)
    ensures FloatExceeds(110, 110)
  {
    TieAtOneCentIsAccepted();
    TieAtOneTenIsAccepted();
  }

  /** A bid of 0.30 on a current bid of 0.30 is rejected, as is 20.00 on 20.00. */
  lemma TiesThatAreRejected()
    ensures !FloatExceeds(30, 30)
    ensures !FloatExceeds(2000, 2000)
  {
    TieAtThirtyCentsIsRejected();
    QuarterTiesAreRejected(2000);
  }
}
