/**
 Rounding to single precision, as the C type float does it: 24 significant bits, to the nearest, ties to
 even.  Only non-negative numbers far below overflow occur here.
 */
module Float {

  /** Every integer up to this one is a float. */
  const EXACT: nat := 0x100_0000
  const HALF: nat := 0x80_0000

  function RoundEven(x: real): (r: int)
    ensures r as real - 0.5 <= x <= r as real + 0.5
  {
    var f := x.Floor;
    var rest := x - f as real;
    if rest < 0.5 then f else if rest > 0.5 then f + 1 else if f % 2 == 0 then f else f + 1
  }

  /** It is the nearest integer, and of two equally near the even one. */
  lemma NearestEven(x: real, m: int)
    ensures var r := RoundEven(x);
            var d, e := x - r as real, x - m as real;
            && (if d < 0.0 then -d else d) <= (if e < 0.0 then -e else e)
            && (m != r && (if d < 0.0 then -d else d) == (if e < 0.0 then -e else e) ==> r % 2 == 0)
  {
    var r := RoundEven(x);
    if m > r {
      assert m as real >= (r + 1) as real;
    } else if m < r {
      assert m as real <= (r - 1) as real;
    }
  }

  /** Scale up until 24 bits lie before the point, or the least exponent is reached; round; scale back. */
  function RoundBelow(x: real, scalings: nat): real
    requires 0.0 <= x < EXACT as real && scalings <= 149
    decreases 149 - scalings
  {
    if scalings == 149 || x >= HALF as real then RoundEven(x) as real
    else RoundBelow(2.0 * x, scalings + 1) / 2.0
  }

  /** The float nearest to x. */
  function Fl(x: real): real
    requires 0.0 <= x
    decreases x
  {
    if x >= EXACT as real then 2.0 * Fl(x / 2.0) else RoundBelow(x, 0)
  }

  lemma RoundEvenKeepsSide(x: real, m: int)
    ensures x >= m as real ==> RoundEven(x) >= m
    ensures x <= m as real ==> RoundEven(x) <= m
  {
  }

  /** Rounding does not carry a number past an integer. */
  lemma {:induction false} BelowKeepsSide(x: real, scalings: nat, m: int)
    requires 0.0 <= x < EXACT as real && scalings <= 149
    ensures x >= m as real ==> RoundBelow(x, scalings) >= m as real
    ensures x <= m as real ==> RoundBelow(x, scalings) <= m as real
    decreases 149 - scalings
  {
    if scalings < 149 && x < HALF as real {
      BelowKeepsSide(2.0 * x, scalings + 1, 2 * m);
      assert (2 * m) as real == 2.0 * m as real;
    } else {
      RoundEvenKeepsSide(x, m);
    }
  }

  lemma KeepsSide(x: real, m: int)
    requires 0.0 <= x < EXACT as real
    ensures x >= m as real ==> Fl(x) >= m as real
    ensures x <= m as real ==> Fl(x) <= m as real
  {
    BelowKeepsSide(x, 0, m);
  }

  /** From EXACT on, floats are at least EXACT and within a factor of two. */
  lemma {:induction false} LargeBounds(x: real)
    requires x >= EXACT as real
    ensures EXACT as real <= Fl(x) <= 2.0 * x
    decreases x
  {
    if x / 2.0 >= EXACT as real {
      LargeBounds(x / 2.0);
    } else {
      KeepsSide(x / 2.0, HALF);
      KeepsSide(x / 2.0, (x / 2.0).Floor + 1);
    }
  }

  /** Integers up to EXACT are exact. */
  lemma IntegersExact(m: nat)
    requires m <= EXACT
    ensures Fl(m as real) == m as real
  {
    if m < EXACT {
      KeepsSide(m as real, m);
    } else {
      assert Fl(m as real) == 2.0 * Fl(HALF as real);
      KeepsSide(HALF as real, HALF);
    }
  }

  /** Comparing a rounded number with an integer that is a float gives what the number itself would, one way. */
  lemma SideOfExact(x: real, m: nat)
    requires 0.0 <= x && m <= EXACT
    ensures x >= m as real ==> Fl(x) >= m as real
    ensures x <= m as real ==> Fl(x) <= m as real
  {
    if x < EXACT as real {
      KeepsSide(x, m);
    } else {
      LargeBounds(x);
      if x <= m as real {
        IntegersExact(m);
      }
    }
  }

  /** A rounded integer compares with an exact one as the integer does. */
  lemma IntegerAgainstExact(k: nat, m: nat)
    requires m <= EXACT
    ensures Fl(k as real) >= m as real <==> k >= m
  {
    SideOfExact(k as real, m);
    if k < m {
      IntegersExact(k);
    }
  }

  function SlackBelow(x: real, scalings: nat): (h: real)
    requires 0.0 <= x < EXACT as real && scalings <= 149
    ensures 0.0 < h <= 0.5
    decreases 149 - scalings
  {
    if scalings == 149 || x >= HALF as real then 0.5 else SlackBelow(2.0 * x, scalings + 1) / 2.0
  }

  /** Half the distance between the floats around x: how far rounding can carry it. */
  function Slack(x: real): real
    requires 0.0 <= x < EXACT as real
  {
    SlackBelow(x, 0)
  }

  /** r is x rounded: it reaches m from h below, and passes it from more than h above. */
  predicate TiesTo(r: real, x: real, h: real, m: int) {
    (r >= m as real <==> x >= m as real - h) && (r > m as real <==> x > m as real + h)
  }

  lemma EvenTie(y: real, m: int)
    requires m % 2 == 0
    ensures TiesTo(RoundEven(y) as real, y, 0.5, m)
  {
    if y == m as real - 0.5 {
      TieFromBelow(y, m);
    } else if y == m as real + 0.5 {
      TieFromAbove(y, m);
    } else {
      NoTie(RoundEven(y), y, m);
    }
  }

  lemma TieFromBelow(y: real, m: int)
    requires m % 2 == 0 && y == m as real - 0.5
    ensures RoundEven(y) == m
  {
    assert y.Floor == m - 1;
  }

  lemma TieFromAbove(y: real, m: int)
    requires m % 2 == 0 && y == m as real + 0.5
    ensures RoundEven(y) == m
  {
    assert y.Floor == m;
  }

  lemma NoTie(r: int, y: real, m: int)
    requires r as real - 0.5 <= y <= r as real + 0.5 && y != m as real - 0.5 && y != m as real + 0.5
    ensures TiesTo(r as real, y, 0.5, m)
  {
    if r > m {
      assert r as real >= (m + 1) as real;
    } else if r < m {
      assert r as real <= (m - 1) as real;
    }
  }

  lemma TieHalved(r: real, x: real, h: real, m: int)
    requires TiesTo(r, 2.0 * x, h, 2 * m)
    ensures TiesTo(r / 2.0, x, h / 2.0, m)
  {
    assert (2 * m) as real == 2.0 * m as real;
  }

  lemma {:induction false} BelowTies(x: real, scalings: nat, m: int)
    requires 0.0 <= x < EXACT as real && scalings <= 149 && (m % 2 == 0 || (x < HALF as real && scalings < 149))
    ensures TiesTo(RoundBelow(x, scalings), x, SlackBelow(x, scalings), m)
    decreases 149 - scalings
  {
    if scalings < 149 && x < HALF as real {
      BelowTies(2.0 * x, scalings + 1, 2 * m);
      TieHalved(RoundBelow(2.0 * x, scalings + 1), x, SlackBelow(2.0 * x, scalings + 1), m);
    } else {
      EvenTie(x, m);
    }
  }

  /**
   A rounded number reaches an integer exactly if the number comes within its slack of it, and passes it
   exactly if the number passes it by more than that: a tie goes to the integer.
   */
  lemma ReachesExactly(x: real, m: int)
    requires 0.0 <= x < HALF as real
    ensures Fl(x) >= m as real <==> x >= m as real - Slack(x)
    ensures Fl(x) > m as real <==> x > m as real + Slack(x)
  {
    BelowTies(x, 0, m);
  }

  lemma {:induction false} SlackBelowOf(x: real, scalings: nat, k: nat)
    requires scalings <= k <= 23 && Pow2(k) as real <= x < Pow2(k + 1) as real && x < EXACT as real
    ensures SlackBelow(x, scalings) * EXACT as real == Pow2(k) as real
    decreases 23 - k
  {
    Pow2At24();
    if k < 23 {
      Pow2Bound(k);
      Pow2Bound(k + 1);
      assert Pow2(k + 1) as real == 2.0 * Pow2(k) as real && Pow2(k + 2) as real == 2.0 * Pow2(k + 1) as real;
      SlackBelowOf(2.0 * x, scalings + 1, k + 1);
    }
  }

  /** Between two powers of two the slack is the 2^24th part of the lower. */
  lemma SlackOf(x: real, k: nat)
    requires k <= 23 && Pow2(k) as real <= x < Pow2(k + 1) as real && x < EXACT as real
    ensures Slack(x) == Pow2(k) as real / 16777216.0
  {
    SlackBelowOf(x, 0, k);
  }

  /** Just above 2^14 floats lie 2^-9 apart, and the tie goes down. */
  lemma AboveBlockSize(x: real)
    requires 0.0 <= x
    ensures Fl(x) > 16384.0 <==> x > 16384.0 + 1.0 / 1024.0
  {
    if x <= 16384.0 {
      SideOfExact(x, 16384);
    } else if x >= 16385.0 {
      SideOfExact(x, 16385);
    } else {
      assert Pow2(7) == 128 && Pow2(14) == 128 * Pow2(7) && Pow2(15) == 2 * Pow2(14);
      SlackOf(x, 14);
      ReachesExactly(x, 16384);
    }
  }

  /** r is x rounded to a multiple of 1 / w. */
  predicate RoundedTo(r: real, x: real, w: real) {
    r * w == RoundEven(x * w) as real
  }

  lemma RoundedHalf(r: real, x: real, w: real)
    requires RoundedTo(r, 2.0 * x, w)
    ensures RoundedTo(r / 2.0, x, 2.0 * w)
  {
    assert (2.0 * x) * w == x * (2.0 * w);
    assert (r / 2.0) * (2.0 * w) == r * w;
  }

  lemma {:induction false} BelowRounds(x: real, scalings: nat, k: nat)
    requires scalings <= k <= 23 && Pow2(k) as real <= x < Pow2(k + 1) as real && x < EXACT as real
    ensures RoundedTo(RoundBelow(x, scalings), x, Pow2(23 - k) as real)
    decreases 23 - k
  {
    Pow2At24();
    if k < 23 {
      Pow2Bound(k);
      Pow2Bound(k + 1);
      assert Pow2(k + 1) as real == 2.0 * Pow2(k) as real && Pow2(k + 2) as real == 2.0 * Pow2(k + 1) as real;
      assert Pow2(23 - k) as real == 2.0 * Pow2(22 - k) as real;
      BelowRounds(2.0 * x, scalings + 1, k + 1);
      RoundedHalf(RoundBelow(2.0 * x, scalings + 1), x, Pow2(22 - k) as real);
    } else {
      AtUnit(x, RoundEven(x));
    }
  }

  lemma AtUnit(x: real, r: int)
    requires r == RoundEven(x)
    ensures RoundedTo(r as real, x, 1.0)
  {
    assert x * 1.0 == x;
  }

  /** From 1 to 2^24 a number keeps 24 significant bits: from 2^k to 2^(k + 1) it goes to a multiple of 2^(k - 23). */
  lemma RoundsFraction(x: real, k: nat)
    requires k <= 23 && Pow2(k) as real <= x < Pow2(k + 1) as real && x < EXACT as real
    ensures RoundedTo(Fl(x), x, Pow2(23 - k) as real)
  {
    BelowRounds(x, 0, k);
  }

  lemma RoundedDouble(r: real, x: real, w: real)
    requires RoundedTo(r, x / 2.0, w)
    ensures RoundedTo(2.0 * r, x, w / 2.0)
  {
    assert (x / 2.0) * w == x * (w / 2.0);
    assert (2.0 * r) * (w / 2.0) == r * w;
  }

  /** 2^-j. */
  function Inverse(j: nat): real {
    if j == 0 then 1.0 else Inverse(j - 1) / 2.0
  }

  /** And so do larger numbers: between 2^(23 + j) and 2^(24 + j) they go to a multiple of 2^j. */
  lemma {:induction false} RoundsWhole(x: real, j: nat)
    requires HALF as real * Pow2(j) as real <= x < EXACT as real * Pow2(j) as real
    ensures RoundedTo(Fl(x), x, Inverse(j))
    decreases j
  {
    if j == 0 {
      AtUnit(x, RoundEven(x));
    } else {
      DoubledRange(x, Pow2(j - 1));
      RoundsWhole(x / 2.0, j - 1);
      RoundedDouble(Fl(x / 2.0), x, Inverse(j - 1));
    }
  }

  lemma DoubledRange(x: real, w: nat)
    requires w >= 1 && HALF as real * (2 * w) as real <= x < EXACT as real * (2 * w) as real
    ensures HALF as real * w as real <= x / 2.0 < EXACT as real * w as real && x >= EXACT as real
  {
  }

  /** p and q are a 2^24th part of q apart. */
  predicate Apart(p: real, q: real) {
    (q - p) * EXACT as real >= q
  }

  lemma IntegersApart(p: int, q: int)
    requires p < q <= EXACT
    ensures Apart(p as real, q as real)
  {
  }

  lemma HalvesApart(p: real, q: real)
    requires Apart(p, q)
    ensures Apart(2.0 * p, 2.0 * q)
  {
  }

  lemma IntegerHere(x: real) returns (m: int)
    requires HALF as real <= x < EXACT as real
    ensures Fl(x) == m as real && HALF <= m <= EXACT
  {
    m := RoundEven(x);
    RoundEvenKeepsSide(x, EXACT);
    RoundEvenKeepsSide(x, HALF);
  }

  /** Two different floats from 2^23 on are at least the 2^24th part of the larger apart. */
  lemma {:induction false} Spacing(x: real, y: real)
    requires x >= HALF as real && y >= HALF as real && Fl(x) < Fl(y)
    ensures Apart(Fl(x), Fl(y))
    decreases y, if x < EXACT as real then 2 else 0
  {
    if x >= EXACT as real {
      if y >= EXACT as real {
        Spacing(x / 2.0, y / 2.0);
        HalvesApart(Fl(x / 2.0), Fl(y / 2.0));
      } else {
        LargeBounds(x);
        var q := IntegerHere(y);
      }
    } else {
      var p := IntegerHere(x);
      if y < EXACT as real {
        var q := IntegerHere(y);
        IntegersApart(p, q);
      } else {
        SpacingAcross(p, y);
      }
    }
  }

  lemma SpacingAcross(p: int, y: real)
    requires p <= EXACT && y >= EXACT as real && p as real < Fl(y)
    ensures Apart(p as real, Fl(y))
    decreases y, 1
  {
    LargeBounds(y);
    IntegersExact(EXACT);
    if Fl(y) > EXACT as real {
      Spacing(EXACT as real, y);
    } else {
      IntegersApart(p, EXACT);
    }
  }

  function Pow2(k: nat): (p: nat)
    ensures p >= 1
  {
    if k == 0 then 1 else 2 * Pow2(k - 1)
  }

  lemma {:induction false} Pow2Bound(k: nat)
    requires k <= 23
    ensures 2 * Pow2(k) <= EXACT
    decreases 23 - k
  {
    if k < 23 {
      Pow2Bound(k + 1);
    } else {
      assert Pow2(8) == 256 && Pow2(16) == 256 * Pow2(8) && Pow2(23) == 128 * Pow2(16);
    }
  }

  /** A number a 2^24th part short of a power of two does not round up to it. */
  lemma {:induction false} StaysShort(y: real, k: nat)
    requires k <= 24 && 0.0 <= y && Apart(y, Pow2(k) as real)
    ensures y < EXACT as real && RoundBelow(y, k) < Pow2(k) as real
    decreases 24 - k
  {
    if k < 24 {
      Pow2Bound(k);
      HalvesApart(y, Pow2(k) as real);
      assert Pow2(k + 1) as real == 2.0 * Pow2(k) as real;
      StaysShort(2.0 * y, k + 1);
    } else {
      Pow2At24();
      ShortOfExact(y);
      BelowKeepsSide(y, 24, EXACT - 1);
    }
  }

  lemma ShortOfExact(y: real)
    requires Apart(y, EXACT as real)
    ensures y <= (EXACT - 1) as real
  {
  }

  lemma Pow2At24()
    ensures Pow2(24) == EXACT
  {
    assert Pow2(8) == 256 && Pow2(16) == 256 * Pow2(8) && Pow2(24) == 256 * Pow2(16);
  }

  lemma RatioShort(p: real, q: real)
    requires 0.0 <= p < q && Apart(p, q)
    ensures 0.0 <= p / q && Apart(p / q, 1.0)
  {
    var r := p / q;
    assert r * q == p;
    if r * EXACT as real > EXACT as real - 1.0 {
      assert r * EXACT as real * q > (EXACT as real - 1.0) * q;
    }
  }

  /** A rounded quotient reaches 1 exactly when the quotient does, for numbers that are floats. */
  lemma QuotientReachesOne(p: real, q: real)
    requires 0.0 <= p && 0.0 < q && (p < q ==> Apart(p, q))
    ensures 0.0 <= p / q
    ensures Fl(p / q) >= 1.0 <==> p >= q
  {
    var r := p / q;
    assert r * q == p;
    if p >= q {
      assert r >= 1.0;
      SideOfExact(r, 1);
    } else {
      RatioShort(p, q);
      StaysShort(r, 0);
    }
  }

  /** Converted integers satisfy the premise above. */
  lemma ConvertedApart(a: nat, b: nat)
    requires Fl(a as real) < Fl(b as real)
    ensures Apart(Fl(a as real), Fl(b as real))
  {
    if b <= EXACT {
      IntegersExact(b);
      IntegerAgainstExact(a, b);
      IntegersExact(a);
      IntegersApart(a, b);
    } else if a <= EXACT {
      IntegersExact(a);
      SpacingAcross(a, b as real);
    } else {
      Spacing(a as real, b as real);
    }
  }

  /** Rounding a float changes nothing. */
  lemma {:induction false} FloatsStayFrom(x: real)
    requires x >= HALF as real
    ensures 0.0 <= Fl(x) && Fl(Fl(x)) == Fl(x)
    decreases x
  {
    if x >= EXACT as real {
      LargeBounds(x);
      FloatsStayFrom(x / 2.0);
    } else {
      var m := IntegerHere(x);
      IntegersExact(m);
    }
  }

  lemma FloatsStay(k: nat)
    ensures 0.0 <= Fl(k as real) && Fl(Fl(k as real)) == Fl(k as real)
  {
    if k <= EXACT {
      IntegersExact(k);
    } else {
      FloatsStayFrom(k as real);
    }
  }

  lemma RealOrder(x: real, y: real, b: real)
    requires b > 0.0
    ensures x <= y <==> x * b <= y * b
  {
    if x <= y {
      assert (y - x) * b >= 0.0;
    } else {
      assert (x - y) * b > 0.0;
    }
  }

  lemma CastProduct(a: nat, b: nat)
    ensures (a * b) as real == a as real * b as real
  {
  }

  lemma MulMono(a: nat, b: nat, w: nat)
    requires a <= b
    ensures a * w <= b * w
  {
  }

  lemma {:induction false} BinadeFrom(x: real, j: nat) returns (k: nat)
    requires j <= 23 && Pow2(j) as real <= x < EXACT as real
    ensures k <= 23 && Pow2(k) as real <= x < Pow2(k + 1) as real
    decreases 23 - j
  {
    Pow2At24();
    if x < Pow2(j + 1) as real {
      k := j;
    } else {
      assert j < 23;
      k := BinadeFrom(x, j + 1);
    }
  }

  lemma Shorter(u: real, v: real, p: real, a: nat, g: nat)
    requires p > 0.0 && u * p == a as real / 16777216.0 && v * p == g as real
    requires a <= EXACT && g >= 1 && (a == EXACT ==> g >= 2)
    ensures u < v
  {
    RealOrder(v, u, p);
  }

  lemma ScaledTo(w: nat, p: nat)
    ensures (w as real / 16777216.0) * p as real == (w * p) as real / 16777216.0
  {
    CastProduct(w, p);
  }

  lemma GapTo(x: real, f: nat, len: nat, p: nat)
    requires x * p as real == len as real
    ensures ((f + 1) as real - x) * p as real == ((f + 1) * p - len) as real
  {
    CastProduct(f + 1, p);
  }

  /** In units of 1 / p, x is at least one short of f + 1, and the slack is at most one: less unless x is an integer. */
  lemma SlackIsShort(x: real, f: nat, len: nat, p: nat, w: nat)
    requires 1 < p <= len <= EXACT && x * p as real == len as real && w as real <= x && len < (f + 1) * p
    ensures w as real / 16777216.0 < (f + 1) as real - x
  {
    WholeBelow(x, len, p, w);
    if w * p == EXACT {
      WholeQuotient(f, w, p, len);
    }
    ScaledTo(w, p);
    GapTo(x, f, len, p);
    Shorter(w as real / 16777216.0, (f + 1) as real - x, p as real, w * p, (f + 1) * p - len);
  }

  lemma WholeBelow(x: real, len: nat, p: nat, w: nat)
    requires p > 0 && x * p as real == len as real && w as real <= x
    ensures w * p <= len
  {
    CastProduct(w, p);
    RealOrder(w as real, x, p as real);
  }

  lemma WholeQuotient(f: nat, w: nat, p: nat, len: nat)
    requires p > 1 && w * p == len < (f + 1) * p
    ensures (f + 1) * p - len >= 2
  {
    if w > f {
      MulMono(f + 1, w, p);
    }
    MulMono(w + 1, f + 1, p);
  }

  /** The quotient of two numbers up to EXACT is not rounded up to the next integer. */
  lemma NotRoundedUp(x: real, f: nat, len: nat, p: nat)
    requires 1 < p <= len <= EXACT && x * p as real == len as real && len < (f + 1) * p
    ensures 1.0 <= x && Fl(x) < (f + 1) as real
  {
    RealOrder(1.0, x, p as real);
    assert HALF as real * p as real >= len as real;
    RealOrder(x, HALF as real, p as real);
    RealOrder((f + 1) as real, x, p as real);
    CastProduct(f + 1, p);
    if x == HALF as real {
      IntegersExact(HALF);
    } else {
      var k := BinadeFrom(x, 0);
      SlackOf(x, k);
      SlackIsShort(x, f, len, p, Pow2(k));
      ReachesExactly(x, f + 1);
    }
  }

  /** So truncating the rounded quotient is integer division. */
  lemma QuotientFloor(len: nat, p: nat)
    requires len <= EXACT && 0 < p <= EXACT
    ensures 0.0 <= len as real / p as real && Fl(len as real / p as real).Floor == len / p
  {
    var x, f := len as real / p as real, len / p;
    assert x * p as real == len as real;
    FloorBelow(x, f, len, p);
    SideOfExact(x, f);
    if len < p {
      RationalBelowOne(len, p);
    } else if p == 1 {
      IntegersExact(len);
    } else {
      NotRoundedUp(x, f, len, p);
    }
  }

  lemma RationalBelowOne(len: nat, p: nat)
    requires len < p <= EXACT
    ensures 0.0 <= len as real / p as real && Fl(len as real / p as real) < 1.0
  {
    var a, b := len as real, p as real;
    IntegersApart(len, p);
    QuotientReachesOne(a, b);
  }

  lemma FloorBelow(x: real, f: nat, len: nat, p: nat)
    requires 0 < p && len <= EXACT && x * p as real == len as real && f == len / p
    ensures 0.0 <= f as real <= x && f <= EXACT
    ensures len < (f + 1) * p && (len < p ==> f == 0)
  {
    DivisionBounds(f, len, p);
    CastProduct(f, p);
    RealOrder(f as real, x, p as real);
  }

  lemma DivisionBounds(f: nat, len: nat, p: nat)
    requires 0 < p && f == len / p
    ensures f <= f * p <= len < (f + 1) * p && (len < p ==> f == 0)
  {
    assert len == f * p + len % p;
    MulMono(1, p, f);
  }
}
