/**
 How long multiplex_write_queues makes its blocks.  The divisor and the quotient are single-precision
 floats, so the loop is modelled with every rounding it does; what it would compute exactly is stated
 beside it, with the exact condition under which both agree.
 */
module BlockSize {
  import opened Standards
  import opened Float

  lemma CeilBounds(a: nat, b: nat)
    requires b > 0
    ensures var d := (a + b - 1) / b; (a > 0 ==> (d - 1) * b < a) && a <= d * b
  {
    var d := (a + b - 1) / b;
    assert a + b - 1 == d * b + (a + b - 1) % b;
  }

  lemma ProductAtLeast(a: real, b: real)
    requires a >= 0.0 && b >= 1.0
    ensures a * b >= a
  {
  }

  lemma QuotientIsNat(a: real, b: real)
    requires a >= 0.0 && b >= 1.0
    ensures a / b >= 0.0
  {
  }

  /** An int converted to float. */
  function FloatOf(k: nat): (a: real)
    ensures a >= 0.0 && (k > 0 ==> a >= 1.0)
  {
    SideOfExact(k as real, 0);
    SideOfExact(k as real, 1);
    Fl(k as real)
  }

  /** The float product and quotient. */
  function Times(a: real, b: real): (p: real)
    requires a >= 1.0 && b >= 1.0
    ensures p >= 1.0
  {
    ProductAtLeast(a, b);
    SideOfExact(a * b, 1);
    Fl(a * b)
  }

  function Over(a: real, b: real): (q: real)
    requires a >= 0.0 && b >= 1.0
    ensures q >= 0.0
  {
    QuotientIsNat(a, b);
    SideOfExact(a / b, 0);
    Fl(a / b)
  }

  /** divisor * num_queues. */
  function Product(k: nat, n: nat): (p: real)
    requires k > 0 && n > 0
    ensures p >= 1.0
  {
    Times(FloatOf(k), FloatOf(n))
  }

  /** buf_len / (divisor * num_queues), every operation rounded. */
  function ShareOf(len: nat, divisor: real, n: nat): (q: real)
    requires divisor >= 1.0 && n > 0
    ensures q >= 0.0
  {
    Over(FloatOf(len), Times(divisor, FloatOf(n)))
  }

  function Share(len: nat, k: nat, n: nat): (q: real)
    requires k > 0 && n > 0
    ensures q >= 0.0
  {
    ShareOf(len, FloatOf(k), n)
  }

  /** The test of the divisor loop. */
  predicate TooLong(len: nat, k: nat, n: nat)
    requires k > 0 && n > 0
  {
    Share(len, k, n) > BLOCK_SIZE as real
  }

  const DIVISOR_LIMIT: nat := 0x4_0000

  lemma QuotientBound(a: real, b: real, c: real)
    requires b >= 1.0 && a / b > c
    ensures a > c * b
  {
    assert (a / b) * b == a;
  }

  lemma SmallProduct(len: nat, k: nat, n: nat)
    requires len < INT_LIMIT && k > 0 && n > 0 && TooLong(len, k, n)
    ensures Product(k, n) < DIVISOR_LIMIT as real
  {
    var a, p := FloatOf(len), Product(k, n);
    QuotientIsNat(a, p);
    SideOfExact(a / p, BLOCK_SIZE);
    QuotientBound(a, p, BLOCK_SIZE as real);
    LengthBound(len);
  }

  lemma LengthBound(len: nat)
    requires len < INT_LIMIT
    ensures FloatOf(len) <= (2 * INT_LIMIT) as real
  {
    if len < EXACT {
      SideOfExact(len as real, EXACT);
    } else {
      LargeBounds(len as real);
    }
  }

  lemma TimesLarge(a: real, b: real)
    requires a >= 1.0 && b >= 1.0 && (a >= EXACT as real || b >= EXACT as real)
    ensures Times(a, b) >= EXACT as real
  {
    ProductAtLeast(a, b);
    ProductAtLeast(b, a);
    SideOfExact(a * b, EXACT);
  }

  lemma FloatLarge(k: nat)
    requires k >= EXACT
    ensures FloatOf(k) >= EXACT as real
  {
    SideOfExact(k as real, EXACT);
  }

  lemma TimesOf(a: real, b: real, p: real)
    requires a >= 1.0 && b >= 1.0 && p == a * b
    ensures p >= 0.0 && Times(a, b) == Fl(p)
  {
    ProductAtLeast(a, b);
  }

  lemma TimesOfInts(a: real, b: real, k: nat, n: nat)
    requires k > 0 && n > 0 && a == k as real && b == n as real
    ensures Times(a, b) == FloatOf(k * n)
  {
    CastProduct(k, n);
    TimesOf(a, b, (k * n) as real);
  }

  lemma TimesExact(k: nat, n: nat)
    requires 0 < k < EXACT && 0 < n < EXACT
    ensures k * n <= EXACT ==> Product(k, n) == (k * n) as real
    ensures k * n > EXACT ==> Product(k, n) >= EXACT as real
  {
    IntegersExact(k);
    IntegersExact(n);
    TimesOfInts(FloatOf(k), FloatOf(n), k, n);
    if k * n <= EXACT {
      IntegersExact(k * n);
    } else {
      FloatLarge(k * n);
    }
  }

  /** While the test holds no operation on the divisor rounds. */
  lemma ProductIsExact(len: nat, k: nat, n: nat)
    requires len < INT_LIMIT && k > 0 && n > 0 && TooLong(len, k, n)
    ensures k * n < DIVISOR_LIMIT && Product(k, n) == (k * n) as real && k < DIVISOR_LIMIT && n < DIVISOR_LIMIT
  {
    SmallProduct(len, k, n);
    SmallFactors(k, n);
  }

  lemma SmallFactors(k: nat, n: nat)
    requires k > 0 && n > 0 && Product(k, n) < DIVISOR_LIMIT as real
    ensures k * n < DIVISOR_LIMIT && Product(k, n) == (k * n) as real && k < DIVISOR_LIMIT && n < DIVISOR_LIMIT
  {
    if k >= EXACT {
      FloatLarge(k);
      TimesLarge(FloatOf(k), FloatOf(n));
    } else if n >= EXACT {
      FloatLarge(n);
      TimesLarge(FloatOf(k), FloatOf(n));
    } else {
      TimesExact(k, n);
      FactorsBelow(k, n);
    }
  }

  lemma FactorsBelow(k: nat, n: nat)
    requires k > 0 && n > 0
    ensures k <= k * n && n <= k * n
  {
  }

  /** The first divisor from k on at which the test fails. */
  function DivisorFrom(len: nat, n: nat, k: nat): (d: nat)
    requires len < INT_LIMIT && n > 0 && k > 0
    ensures d >= k && !TooLong(len, d, n)
    ensures forall j :: k <= j < d ==> TooLong(len, j, n)
    decreases DIVISOR_LIMIT - k
  {
    if TooLong(len, k, n) then
      ProductIsExact(len, k, n);
      DivisorFrom(len, n, k + 1)
    else
      k
  }

  function Divisor(len: nat, n: nat): (d: nat)
    requires len < INT_LIMIT && n > 0
    ensures d >= 1 && !TooLong(len, d, n)
    ensures forall j :: 1 <= j < d ==> TooLong(len, j, n)
  {
    DivisorFrom(len, n, 1)
  }

  /** The length of every block but the last. */
  function UnifSize(len: nat, n: nat): nat
    requires len < INT_LIMIT && n > 0
  {
    Share(len, Divisor(len, n), n).Floor
  }

  /** divisor++. */
  function Increment(a: real): real
    requires a >= 0.0
  {
    Fl(a + 1.0)
  }

  lemma NextDivisor(k: nat)
    requires 0 < k < EXACT
    ensures Increment(FloatOf(k)) == FloatOf(k + 1)
  {
    IntegersExact(k);
    assert (k + 1) as real == k as real + 1.0;
  }

  lemma BelowDivisor(len: nat, n: nat, k: nat)
    requires len < INT_LIMIT && n > 0 && 0 < k <= Divisor(len, n) && TooLong(len, k, n)
    ensures k < Divisor(len, n) && k < EXACT
  {
    ProductIsExact(len, k, n);
  }

  lemma FromDivisorOn(len: nat, n: nat, k: nat)
    requires len < INT_LIMIT && n > 0 && 0 < k <= Divisor(len, n) && !TooLong(len, k, n)
    ensures k == Divisor(len, n)
  {
  }

  /** The divisor loop, and the truncation that follows it. */
  method FindUnifSize(len: nat, n: nat) returns (unifSize: nat)
    requires len < INT_LIMIT && n > 0
    ensures unifSize == UnifSize(len, n)
  {
    IntegersExact(1);
    var divisor := 1.0;
    ghost var k: nat := 1;
    while ShareOf(len, divisor, n) > BLOCK_SIZE as real
      invariant 1 <= k <= Divisor(len, n) && divisor == FloatOf(k)
      decreases Divisor(len, n) - k
    {
      BelowDivisor(len, n, k);
      NextDivisor(k);
      divisor, k := Increment(divisor), k + 1;
    }
    FromDivisorOn(len, n, k);
    unifSize := ShareOf(len, divisor, n).Floor;
  }

  /** The block size never exceeds BLOCK_SIZE, and is at least half of it once the divisor exceeds 1. */
  lemma UnifSizeBounds(len: nat, n: nat)
    requires len < INT_LIMIT && n > 0
    ensures UnifSize(len, n) <= BLOCK_SIZE
    ensures UnifSize(len, n) >= 1 <==> FloatOf(len) >= FloatOf(n)
    ensures n <= EXACT ==> (UnifSize(len, n) >= 1 <==> len >= n)
    ensures Divisor(len, n) > 1 ==> UnifSize(len, n) >= BLOCK_SIZE / 2
  {
    var d := Divisor(len, n);
    var q := Share(len, d, n);
    assert q.Floor as real <= q < q.Floor as real + 1.0;
    if d > 1 {
      assert TooLong(len, d - 1, n);
      HalfLeft(len, d, n);
      LongerThanQueues(len, d - 1, n);
    } else {
      ShareReachesOne(len, n);
    }
    if n <= EXACT {
      IntegersExact(n);
      IntegerAgainstExact(len, n);
    }
  }

  /** With one round of blocks the share reaches one byte exactly when the float lengths compare so. */
  lemma ShareReachesOne(len: nat, n: nat)
    requires n > 0
    ensures Share(len, 1, n) >= 1.0 <==> FloatOf(len) >= FloatOf(n)
  {
    OneTimes(n);
    if FloatOf(len) < FloatOf(n) {
      ConvertedApart(len, n);
    }
    OverReachesOne(FloatOf(len), FloatOf(n));
  }

  lemma OneTimes(n: nat)
    requires n > 0
    ensures Product(1, n) == FloatOf(n)
  {
    IntegersExact(1);
    FloatsStay(n);
    TimesOne(FloatOf(1), FloatOf(n));
  }

  lemma TimesOne(a: real, b: real)
    requires a == 1.0 && b >= 1.0
    ensures Times(a, b) == Fl(b)
  {
    assert a * b == b;
  }

  lemma OverReachesOne(a: real, b: real)
    requires a >= 0.0 && b >= 1.0 && (a < b ==> Apart(a, b))
    ensures Over(a, b) >= 1.0 <==> a >= b
  {
    QuotientReachesOne(a, b);
  }

  lemma LongerThanQueues(len: nat, k: nat, n: nat)
    requires len < INT_LIMIT && k > 0 && n > 0 && TooLong(len, k, n)
    ensures FloatOf(len) > BLOCK_SIZE as real * (k * n) as real
    ensures FloatOf(len) >= FloatOf(n)
  {
    ProductIsExact(len, k, n);
    var a, p := FloatOf(len), Product(k, n);
    QuotientIsNat(a, p);
    SideOfExact(a / p, BLOCK_SIZE);
    QuotientBound(a, p, BLOCK_SIZE as real);
    FactorsBelow(k, n);
    IntegersExact(n);
  }

  lemma HalfOfPrevious(d: nat, n: nat)
    requires d > 1
    ensures BLOCK_SIZE * ((d - 1) * n) >= (BLOCK_SIZE / 2) * (d * n)
    ensures d * n <= 2 * ((d - 1) * n)
  {
    assert (d - 1) * n == d * n - n && n * (d - 2) >= 0;
  }

  lemma QuotientAtLeast(a: real, b: real, c: real)
    requires b >= 1.0 && a >= c * b
    ensures a / b >= c
  {
    assert (a / b) * b == a;
  }

  lemma HalfLeft(len: nat, d: nat, n: nat)
    requires len < INT_LIMIT && d > 1 && n > 0 && TooLong(len, d - 1, n)
    ensures Share(len, d, n) >= (BLOCK_SIZE / 2) as real
  {
    LongerThanQueues(len, d - 1, n);
    ProductIsExact(len, d - 1, n);
    HalfOfPrevious(d, n);
    FactorsBelow(d - 1, n);
    TimesExact(d, n);
    AtLeastHalf(FloatOf(len), Product(d, n), (d - 1) * n, d * n);
  }

  lemma AtLeastHalf(a: real, p: real, before: nat, now: nat)
    requires p >= 1.0 && p == now as real && a > BLOCK_SIZE as real * before as real && now <= 2 * before
    ensures 0.0 <= a / p && Fl(a / p) >= (BLOCK_SIZE / 2) as real
  {
    QuotientIsNat(a, p);
    QuotientAtLeast(a, p, 8192.0);
    SideOfExact(a / p, 8192);
  }

  lemma Scaled(a: real, p: real)
    requires a >= 0.0 && p >= 1.0
    ensures a / p > 16384.0 + 1.0 / 1024.0 <==> 1024.0 * a > 16777217.0 * p
  {
    assert (a / p) * p == a;
    var c := 16384.0 + 1.0 / 1024.0;
    if a / p > c {
      assert (a / p - c) * p > 0.0;
    } else {
      assert (c - a / p) * p >= 0.0;
    }
  }

  /** A length a, as float, exceeds BLOCK_SIZE bytes for each of p blocks by more than half a unit. */
  predicate Exceeds(a: real, p: nat) {
    1024.0 * a > 16777217.0 * p as real
  }

  lemma ExceedsLess(a: real, p: nat, q: nat)
    requires p <= q && Exceeds(a, q)
    ensures Exceeds(a, p)
  {
  }

  /** The loop's test, where the product of divisor and queues is exact: it fails on a tie. */
  lemma TestOfProduct(len: nat, k: nat, n: nat)
    requires 0 < k < EXACT && 0 < n < EXACT && k * n <= EXACT
    ensures TooLong(len, k, n) <==> Exceeds(FloatOf(len), k * n)
  {
    TimesExact(k, n);
    var a, p := FloatOf(len), Product(k, n);
    QuotientIsNat(a, p);
    AboveBlockSize(a / p);
    Scaled(a, p);
  }

  /** The loop's test, for all divisors and queues. */
  lemma TestExactly(len: nat, k: nat, n: nat)
    requires len < INT_LIMIT && k > 0 && n > 0
    ensures TooLong(len, k, n) <==> Exceeds(FloatOf(len), k * n)
  {
    FactorsBelow(k, n);
    LengthBound(len);
    if TooLong(len, k, n) {
      ProductIsExact(len, k, n);
      TestOfProduct(len, k, n);
    } else if Exceeds(FloatOf(len), k * n) {
      assert k * n < EXACT;
      TestOfProduct(len, k, n);
    }
  }

  /** What the loop would find in exact arithmetic: the least divisor with blocks of at most BLOCK_SIZE. */
  function ExactDivisor(len: nat, n: nat): nat
    requires n > 0
  {
    if len <= n * BLOCK_SIZE then 1 else (len + n * BLOCK_SIZE - 1) / (n * BLOCK_SIZE)
  }

  lemma Regroup(k: nat, n: nat)
    ensures k * (n * BLOCK_SIZE) == BLOCK_SIZE * (k * n)
  {
  }

  lemma ExactDivisorIsFirst(len: nat, n: nat)
    requires n > 0
    ensures var d := ExactDivisor(len, n);
            && d >= 1 && len <= BLOCK_SIZE * (d * n)
            && forall k :: 1 <= k < d ==> len > BLOCK_SIZE * (k * n)
  {
    var d := ExactDivisor(len, n);
    var w := n * BLOCK_SIZE;
    if len > w {
      CeilBounds(len, w);
      assert d == 0 ==> d * w == 0;
      Regroup(d, n);
      forall k | 1 <= k < d
        ensures len > BLOCK_SIZE * (k * n)
      {
        Regroup(k, n);
        MulMono(k, d - 1, w);
      }
    }
  }

  /** The divisor, as it follows from the rounded length without a loop. */
  lemma DivisorIs(len: nat, n: nat, m: nat)
    requires len < INT_LIMIT && n > 0 && m > 0
    ensures Divisor(len, n) == m <==>
              !Exceeds(FloatOf(len), m * n) && (m > 1 ==> Exceeds(FloatOf(len), (m - 1) * n))
  {
    var d := Divisor(len, n);
    TestExactly(len, m, n);
    TestExactly(len, d, n);
    if m > 1 {
      TestExactly(len, m - 1, n);
    }
    if d < m {
      MulMono(d, m - 1, n);
    }
  }

  /** The factor by which a rounded length exceeds what one round of blocks can hold, ties included. */
  function Rounds(len: nat, n: nat): (c: real)
    requires n > 0
    ensures c >= 0.0
  {
    QuotientIsNat(1024.0 * FloatOf(len), 16777217.0 * n as real);
    1024.0 * FloatOf(len) / (16777217.0 * n as real)
  }

  /** The least integer from 1 on that is not below c. */
  function LeastFrom(c: real): (m: nat)
    requires c >= 0.0
    ensures m >= 1 && m as real >= c && (m > 1 ==> (m - 1) as real < c)
  {
    if c <= 1.0 then 1 else if c == c.Floor as real then c.Floor else c.Floor + 1
  }

  lemma ExceedsRounds(len: nat, n: nat, k: nat)
    requires n > 0
    ensures Exceeds(FloatOf(len), k * n) <==> (k as real) < Rounds(len, n)
  {
    var c, w := Rounds(len, n), 16777217.0 * n as real;
    assert c * w == 1024.0 * FloatOf(len);
    RealOrder(c, k as real, w);
    CastProduct(k, n);
    assert k as real * w == 16777217.0 * (k * n) as real;
  }

  lemma DivisorExactly(len: nat, n: nat)
    requires len < INT_LIMIT && n > 0
    ensures Divisor(len, n) == LeastFrom(Rounds(len, n))
  {
    var m := LeastFrom(Rounds(len, n));
    ExceedsRounds(len, n, m);
    ExceedsRounds(len, n, m - 1);
    DivisorIs(len, n, m);
  }

  /** The loop finds the divisor of exact arithmetic exactly if rounding the length does not move it past a tie. */
  lemma DivisorAgrees(len: nat, n: nat)
    requires len < INT_LIMIT && n > 0
    ensures var e := ExactDivisor(len, n);
            Divisor(len, n) == e <==>
              !Exceeds(FloatOf(len), e * n) && (e > 1 ==> Exceeds(FloatOf(len), (e - 1) * n))
  {
    ExactDivisorIsFirst(len, n);
    DivisorIs(len, n, ExactDivisor(len, n));
  }

  lemma RoomForRounding(len: nat, p: nat)
    requires len <= EXACT
    ensures Exceeds(len as real, p) <==> len > BLOCK_SIZE * p
  {
    assert (1024 * len) as real == 1024.0 * len as real && (16777217 * p) as real == 16777217.0 * p as real;
  }

  /** For a length up to EXACT that is so for any number of queues. */
  lemma DivisorAgreesBelow(len: nat, n: nat)
    requires len <= EXACT && n > 0
    ensures Divisor(len, n) == ExactDivisor(len, n)
  {
    var e := ExactDivisor(len, n);
    IntegersExact(len);
    ExactDivisorIsFirst(len, n);
    RoomForRounding(len, e * n);
    RoomForRounding(len, (e - 1) * n);
    DivisorAgrees(len, n);
  }

  /** The quotient that is rounded and truncated after the loop: only its operands are rounded. */
  function Quotient(len: nat, n: nat): (q: real)
    requires len < INT_LIMIT && n > 0
    ensures q >= 0.0
  {
    var a, p := FloatOf(len), Product(LeastFrom(Rounds(len, n)), n);
    QuotientIsNat(a, p);
    a / p
  }

  lemma SizeIsFloor(len: nat, n: nat)
    requires len < INT_LIMIT && n > 0
    ensures Quotient(len, n) < 16385.0 && UnifSize(len, n) == Fl(Quotient(len, n)).Floor
  {
    DivisorExactly(len, n);
    SideOfExact(Quotient(len, n), 16385);
  }

  /** The block size is the integer part of the quotient, or the next integer if that is within its slack. */
  lemma UnifSizeExactly(len: nat, n: nat, m: nat)
    requires len < INT_LIMIT && n > 0
    ensures var q := Quotient(len, n);
            && q < EXACT as real
            && (UnifSize(len, n) == m <==> m as real - Slack(q) <= q < (m + 1) as real - Slack(q))
  {
    SizeIsFloor(len, n);
    var q := Quotient(len, n);
    ReachesExactly(q, m);
    ReachesExactly(q, m + 1);
  }

  /** The block size of exact arithmetic. */
  function ExactSize(len: nat, n: nat): nat
    requires n > 0
  {
    ExactDivisorIsFirst(len, n);
    FactorsBelow(ExactDivisor(len, n), n);
    len / (ExactDivisor(len, n) * n)
  }

  /** The code computes it exactly if the quotient of the rounded operands lies in its slack-wide range. */
  lemma SizeAgrees(len: nat, n: nat)
    requires len < INT_LIMIT && n > 0
    ensures var q, m := Quotient(len, n), ExactSize(len, n);
            && q < EXACT as real
            && (UnifSize(len, n) == m <==> m as real - Slack(q) <= q < (m + 1) as real - Slack(q))
  {
    UnifSizeExactly(len, n, ExactSize(len, n));
  }

  /** For a length and a number of queues up to EXACT it does. */
  lemma SizeAgreesBelow(len: nat, n: nat)
    requires len <= EXACT && 0 < n <= EXACT
    ensures UnifSize(len, n) == ExactSize(len, n)
  {
    var d := ExactDivisor(len, n);
    ExactDivisorIsFirst(len, n);
    DivisorAgreesBelow(len, n);
    FactorsBelow(d, n);
    ProductOfDivisor(len, n, d);
    IntegersExact(len);
    QuotientFloor(len, d * n);
  }

  lemma ProductOfDivisor(len: nat, n: nat, d: nat)
    requires len <= EXACT && 0 < n <= EXACT && d == Divisor(len, n)
    ensures d * n <= EXACT && Product(d, n) == (d * n) as real
  {
    if d > 1 {
      ProductAfterTest(len, n, d);
    } else {
      IntegersExact(n);
      OneTimes(n);
    }
  }

  lemma ProductAfterTest(len: nat, n: nat, d: nat)
    requires len < INT_LIMIT && n > 0 && d > 1 && TooLong(len, d - 1, n)
    ensures 1 < d * n <= EXACT && Product(d, n) == (d * n) as real
  {
    ProductIsExact(len, d - 1, n);
    HalfOfPrevious(d, n);
    FactorsBelow(d, n);
    TimesExact(d, n);
  }

  lemma FirstAsFloat()
    ensures FloatOf(EXACT + 1) == 16777216.0
  {
    var half := (EXACT + 1) as real / 2.0;
    assert half == 8388608.5 && Fl(half) == 8388608.0;
  }

  /** The first length at which they differ: the conversion to float loses the last bit. */
  lemma FirstDisagreement(len: nat, n: nat)
    requires len == EXACT + 1 && n == 1
    ensures Divisor(len, n) == 1024 && ExactDivisor(len, n) == 1025
    ensures UnifSize(len, n) == 16384 && ExactSize(len, n) == 16368
  {
    FirstAsFloat();
    DivisorIs(len, n, 1024);
    TimesExact(1024, n);
    FirstShare(FloatOf(len), Product(1024, n));
    SizeFromShare(len, n, 1024);
  }

  lemma FirstShare(a: real, p: real)
    requires a == 16777216.0 && p == 1024.0
    ensures Over(a, p) == 16384.0
  {
    assert a / p == 16384.0;
    IntegersExact(16384);
  }

  /** Where the split loop stands after k turns with blocks of u bytes. */
  function After(u: nat, k: nat): nat {
    k * u
  }

  ghost predicate LoopEnds(len: nat, u: nat) {
    exists k: nat :: After(u, k) >= len
  }

  lemma LoopEndsExactly(len: nat, u: nat)
    ensures LoopEnds(len, u) <==> len == 0 || u >= 1
  {
    if u >= 1 {
      MulMono(1, u, len);
      assert After(u, len) >= len;
    } else {
      assert After(u, 0) >= 0;
    }
    assert u == 0 ==> forall k: nat :: After(u, k) == 0;
  }

  /** The split loop ends exactly on an empty buffer and on one with a byte for every queue. */
  lemma SplitLoopEnds(len: nat, n: nat)
    requires len < INT_LIMIT && n > 0
    ensures LoopEnds(len, UnifSize(len, n)) <==> len == 0 || FloatOf(len) >= FloatOf(n)
    ensures n <= EXACT ==> (LoopEnds(len, UnifSize(len, n)) <==> len == 0 || len >= n)
  {
    UnifSizeBounds(len, n);
    LoopEndsExactly(len, UnifSize(len, n));
  }

  /** One byte for two queues: the index stays at 0 and the loop does not end. */
  lemma NeverAdvances()
    ensures UnifSize(1, 2) == 0 && !LoopEnds(1, 0)
  {
    UnifSizeBounds(1, 2);
    LoopEndsExactly(1, 0);
  }

  /** How many blocks of u bytes it takes to hold len bytes. */
  function Blocks(len: nat, u: nat): nat
    requires u > 0
  {
    (len + u - 1) / u
  }

  lemma BlocksBound(len: nat, u: nat, i: nat)
    requires u > 0
    ensures i < Blocks(len, u) <==> i * u < len
  {
    var c := Blocks(len, u);
    if len == 0 {
      assert c == 0;
      MulMono(0, i, u);
    } else {
      CeilBounds(len, u);
      if i < c {
        MulMono(i, c - 1, u);
      } else {
        MulMono(c, i, u);
      }
    }
  }

  /** Where the index of the split loop ends. */
  function LastIndex(len: nat, u: nat): nat
    requires u > 0
  {
    After(u, Blocks(len, u))
  }

  /** Every increment that the loop makes stays within an int. */
  ghost predicate IndexInRange(len: nat, u: nat) {
    forall k: nat :: After(u, k) < len ==> After(u, k + 1) < INT_LIMIT
  }

  lemma AfterUpTo(len: nat, u: nat, k: nat)
    requires u > 0
    ensures After(u, k) < len <==> k < Blocks(len, u)
    ensures k < Blocks(len, u) ==> After(u, k + 1) <= LastIndex(len, u) && After(u, k + 1) == After(u, k) + u
  {
    BlocksBound(len, u, k);
    if k < Blocks(len, u) {
      MulMono(k + 1, Blocks(len, u), u);
    }
  }

  /** No increment of the index overflows exactly if the last one does not; below INT_LIMIT - BLOCK_SIZE none does. */
  lemma IncrementsInRange(len: nat, u: nat)
    requires len < INT_LIMIT && 0 < u <= BLOCK_SIZE
    ensures IndexInRange(len, u) <==> LastIndex(len, u) < INT_LIMIT
    ensures len + BLOCK_SIZE <= INT_LIMIT ==> LastIndex(len, u) < INT_LIMIT
  {
    var c := Blocks(len, u);
    forall k: nat
      ensures After(u, k) < len ==> After(u, k + 1) <= LastIndex(len, u)
    {
      AfterUpTo(len, u, k);
    }
    if c > 0 {
      AfterUpTo(len, u, c - 1);
    }
  }

  lemma DivisorOfLongest(len: nat, n: nat)
    requires len == INT_LIMIT - 1 && n == 1
    ensures Divisor(len, n) == 131072
  {
    LongestAsFloat();
    DivisorIs(len, n, 131072);
  }

  /** The longest buffer on one connection: the last increment passes the largest int. */
  lemma LongestOverflows(len: nat, n: nat)
    requires len == INT_LIMIT - 1 && n == 1
    ensures UnifSize(len, n) == BLOCK_SIZE && LastIndex(len, BLOCK_SIZE) == INT_LIMIT
  {
    var d := DivisorAndShare(len, n);
    SizeFromShare(len, n, d);
    LastIndexOfLongest(len, BLOCK_SIZE);
  }

  lemma DivisorAndShare(len: nat, n: nat) returns (d: nat)
    requires len == INT_LIMIT - 1 && n == 1
    ensures d == Divisor(len, n) && Share(len, d, n) == BLOCK_SIZE as real
  {
    d := 131072;
    DivisorOfLongest(len, n);
    LongestAsFloat();
    TimesExact(d, n);
    ShareOfLongest(FloatOf(len), Product(d, n));
  }

  lemma SizeFromShare(len: nat, n: nat, d: nat)
    requires len < INT_LIMIT && n > 0 && d == Divisor(len, n) && Share(len, d, n) == BLOCK_SIZE as real
    ensures UnifSize(len, n) == BLOCK_SIZE
  {
  }

  lemma LastIndexOfLongest(len: nat, u: nat)
    requires len == INT_LIMIT - 1 && u == BLOCK_SIZE
    ensures LastIndex(len, u) == INT_LIMIT
  {
    assert (len + u - 1) / u == 131072;
  }

  lemma ShareOfLongest(a: real, p: real)
    requires a == 2147483648.0 && p == 131072.0
    ensures Over(a, p) == 16384.0
  {
    assert a / p == 16384.0;
    IntegersExact(16384);
  }

  lemma LongestAsFloat()
    ensures FloatOf(INT_LIMIT - 1) == INT_LIMIT as real
  {
    var x := (INT_LIMIT - 1) as real;
    assert Fl(x / 128.0) == 16777216.0;
    assert Fl(x / 64.0) == 2.0 * Fl(x / 128.0);
    assert Fl(x / 32.0) == 2.0 * Fl(x / 64.0);
    assert Fl(x / 16.0) == 2.0 * Fl(x / 32.0);
    assert Fl(x / 8.0) == 2.0 * Fl(x / 16.0);
    assert Fl(x / 4.0) == 2.0 * Fl(x / 8.0);
    assert Fl(x / 2.0) == 2.0 * Fl(x / 4.0);
  }
}
