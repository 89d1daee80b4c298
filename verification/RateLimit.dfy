/** Meter configuration (arht_qdma.c, and the second copy of the shift search in
arht_hsgmii.c): token rates in 18.6 fixed point and bucket sizes as powers of two. */
module RateLimit {
  import opened Words

  const EINVAL := 22
  const EFAULT := 14
  const METER_1K := 1000
  const METER_1M := 1024000
  const MAX_SHIFT := 17
  const MAX_BUCKET := 0x800_0000
  const MAX_INTEGER := 0x3_FFFF

  // ---- The shift search

  function Pow2(n: nat): (p: nat)
    ensures p > 0
  {
    if n == 0 then 1 else 2 * Pow2(n - 1)
  }

  /** `unit << s` on a 32-bit word. */
  function Shl(unit: u32, s: nat): u32 {
    unit * Pow2(s) % TWO32
  }

  /** biSearchGetBucketSizeShift. */
  function BiSearch(value: u32, lo: nat, hi: nat, unit: u32): int
    decreases if lo > hi then 0 else hi - lo
  {
    if lo > hi then -EINVAL
    else if value > 0 && value < unit then 0
    else
      var mid := (lo + hi) / 2;
      if Shl(unit, mid) == value then mid
      else if Shl(unit, lo) == value then lo
      else if Shl(unit, hi) == value then hi
      else if Shl(unit, mid) > value then
        if mid - lo <= 1 then mid else BiSearch(value, lo, mid, unit)
      else
        if hi - mid <= 1 then hi else BiSearch(value, mid, hi, unit)
  }

  /** get_bucketsize_shift: the copy without the tests of the two ends. */
  function BucketSizeShift(value: u32, lo: nat, hi: nat, unit: u32): int
    decreases if lo > hi then 0 else hi - lo
  {
    if lo > hi then -EINVAL
    else if value > 0 && value < unit then 0
    else
      var mid := (lo + hi) / 2;
      if Shl(unit, mid) == value then mid
      else if Shl(unit, mid) > value then
        if mid - lo <= 1 then mid else BucketSizeShift(value, lo, mid, unit)
      else
        if hi - mid <= 1 then hi else BucketSizeShift(value, mid, hi, unit)
  }

  /** No shift up to `hi` overflows. */
  predicate Fits(unit: u32, hi: nat) {
    unit > 0 && unit * Pow2(hi) < TWO32
  }

  /** `s` is the least shift up to `hi` whose bucket holds `value`, or `hi` if none does. */
  ghost predicate LeastCover(s: int, value: nat, unit: nat, hi: nat) {
    && 0 <= s <= hi
    && (s == hi || unit * Pow2(s) >= value)
    && forall t: nat :: t < s ==> unit * Pow2(t) < value
  }

  lemma {:induction false} Pow2Grows(m: nat, n: nat)
    requires m <= n
    ensures Pow2(m) <= Pow2(n) && (m < n ==> 2 * Pow2(m) <= Pow2(n))
    decreases n
  {
    if m < n {
      Pow2Grows(m, n - 1);
    }
  }

  lemma Scaled(unit: nat, a: nat, b: nat)
    requires a <= b && unit > 0
    ensures unit * a <= unit * b && (a < b ==> unit * a < unit * b)
  {
  }

  lemma ShiftGrows(unit: nat, m: nat, n: nat)
    requires m <= n && unit > 0
    ensures unit * Pow2(m) <= unit * Pow2(n) && (m < n ==> unit * Pow2(m) < unit * Pow2(n))
  {
    Pow2Grows(m, n);
    Scaled(unit, Pow2(m), Pow2(n));
  }

  lemma ShlIsExact(unit: u32, s: nat, hi: nat)
    requires Fits(unit, hi) && s <= hi
    ensures Shl(unit, s) == unit * Pow2(s)
  {
    ShiftGrows(unit, s, hi);
  }

  /** The search keeps `unit << lo` at or below the value, and finds the least cover. */
  lemma {:induction false} SearchFromBelow(value: u32, lo: nat, hi: nat, unit: u32)
    requires lo <= hi && Fits(unit, hi)
    requires unit <= value && unit * Pow2(lo) <= value
    ensures LeastCover(BiSearch(value, lo, hi, unit), value, unit, hi)
    decreases hi - lo
  {
    var mid := (lo + hi) / 2;
    ShlIsExact(unit, mid, hi);
    ShlIsExact(unit, lo, hi);
    ShlIsExact(unit, hi, hi);
    forall s: nat | s == lo || s == mid || s == hi
      ensures unit * Pow2(s) == value ==> LeastCover(s, value, unit, hi)
      ensures unit * Pow2(s) < value ==> forall t: nat :: t <= s ==> unit * Pow2(t) < value
    {
      forall t: nat | t <= s
        ensures unit * Pow2(t) <= unit * Pow2(s) && (t < s ==> unit * Pow2(t) < unit * Pow2(s))
      {
        ShiftGrows(unit, t, s);
      }
    }
    if Shl(unit, mid) == value || Shl(unit, lo) == value || Shl(unit, hi) == value {
    } else if Shl(unit, mid) > value {
      if mid - lo > 1 {
        ShiftGrows(unit, mid, hi);
        SearchFromBelow(value, lo, mid, unit);
      }
    } else if hi - mid > 1 {
      SearchFromBelow(value, mid, hi, unit);
    }
  }

  /** With no overflow the search ends, for every value above zero, at the least shift whose
      bucket holds the value, or at the largest shift. */
  lemma SearchFindsLeastCover(value: u32, hi: nat, unit: u32)
    requires value > 0 && Fits(unit, hi)
    ensures LeastCover(BiSearch(value, 0, hi, unit), value, unit, hi)
  {
    assert Pow2(0) == 1;
    if value >= unit {
      SearchFromBelow(value, 0, hi, unit);
    }
  }

  lemma CoversAreMonotone(s: int, t: int, v: nat, w: nat, unit: nat, hi: nat)
    requires LeastCover(s, v, unit, hi) && LeastCover(t, w, unit, hi) && v <= w
    ensures s <= t
  {
  }

  /** A larger value never gets a smaller bucket. */
  lemma SearchIsMonotone(v: u32, w: u32, hi: nat, unit: u32)
    requires 0 < v <= w && Fits(unit, hi)
    ensures BiSearch(v, 0, hi, unit) <= BiSearch(w, 0, hi, unit)
  {
    SearchFindsLeastCover(v, hi, unit);
    SearchFindsLeastCover(w, hi, unit);
    CoversAreMonotone(BiSearch(v, 0, hi, unit), BiSearch(w, 0, hi, unit), v, w, unit, hi);
  }

  /** The bucket found holds the value exactly when the largest bucket would. */
  lemma CoveredExactly(value: u32, hi: nat, unit: u32)
    requires value > 0 && Fits(unit, hi)
    ensures var s := BiSearch(value, 0, hi, unit);
            0 <= s <= hi && (unit * Pow2(s) >= value <==> unit * Pow2(hi) >= value)
  {
    SearchFindsLeastCover(value, hi, unit);
    ShiftGrows(unit, BiSearch(value, 0, hi, unit), hi);
  }

  /** When the value is the largest bucket, the copy climbs to it. */
  lemma {:induction false} CopyFollowsToTop(value: u32, lo: nat, hi: nat, unit: u32)
    requires lo <= hi && Fits(unit, hi) && unit <= value && unit * Pow2(lo) <= value
    ensures Shl(unit, hi) == value ==> BucketSizeShift(value, lo, hi, unit) == hi
    decreases hi - lo
  {
    var mid := (lo + hi) / 2;
    ShlIsExact(unit, mid, hi);
    ShlIsExact(unit, hi, hi);
    if Shl(unit, hi) == value && mid < hi {
      ShiftGrows(unit, mid, hi);
      if hi - mid > 1 {
        CopyFollowsToTop(value, mid, hi, unit);
      }
    }
  }

  /** The copy follows the original when the low end is below the value. */
  lemma {:induction false} CopyFollows(value: u32, lo: nat, hi: nat, unit: u32)
    requires lo <= hi && Fits(unit, hi)
    requires unit <= value && unit * Pow2(lo) < value
    ensures BucketSizeShift(value, lo, hi, unit) == BiSearch(value, lo, hi, unit)
    decreases hi - lo
  {
    var mid := (lo + hi) / 2;
    ShlIsExact(unit, mid, hi);
    ShlIsExact(unit, lo, hi);
    ShlIsExact(unit, hi, hi);
    if Shl(unit, hi) == value {
      CopyFollowsToTop(value, lo, hi, unit);
      ShiftGrows(unit, mid, hi);
    } else if Shl(unit, mid) > value && mid - lo > 1 {
      ShiftGrows(unit, mid, hi);
      CopyFollows(value, lo, mid, unit);
    } else if Shl(unit, mid) < value && hi - mid > 1 {
      CopyFollows(value, mid, hi, unit);
    }
  }

  /** Of a value at or below the unit both searches walk down to the low end. */
  lemma {:induction false} WalkDown(value: u32, hi: nat, unit: u32)
    requires Fits(unit, hi) && (value == 0 || value == unit) && hi >= 2
    ensures BucketSizeShift(value, 0, hi, unit) == 1
    ensures value == 0 ==> BiSearch(value, 0, hi, unit) == 1
    decreases hi
  {
    var mid := hi / 2;
    ShlIsExact(unit, 0, hi);
    ShlIsExact(unit, mid, hi);
    ShlIsExact(unit, hi, hi);
    ShiftGrows(unit, 0, mid);
    ShiftGrows(unit, mid, hi);
    if mid > 1 {
      WalkDown(value, mid, unit);
    }
  }

  /** The two copies agree on every value except the unit itself, where the copy returns 1
      instead of 0. */
  lemma CopiesAgreeExactly(value: u32, hi: nat, unit: u32)
    requires Fits(unit, hi) && hi >= 2
    ensures BucketSizeShift(value, 0, hi, unit) == BiSearch(value, 0, hi, unit) <==> value != unit
    ensures value == unit ==> BucketSizeShift(value, 0, hi, unit) == 1 && BiSearch(value, 0, hi, unit) == 0
  {
    assert Pow2(0) == 1;
    if value == 0 {
      WalkDown(value, hi, unit);
    } else if value == unit {
      WalkDown(value, hi, unit);
      SearchFindsLeastCover(value, hi, unit);
    } else if value > unit {
      CopyFollows(value, 0, hi, unit);
    }
  }

  // ---- Bucket sizes

  datatype Module = Ingress | Sla | Egress | Global

  function BucketUnit(m: Module, packet: bool): u32 {
    if m == Global then 256 else if packet then 16 else 1024
  }

  lemma PowersUsed()
    ensures Pow2(MAX_SHIFT) == 0x2_0000
  {
    assert Pow2(8) == 256;
    assert Pow2(13) == 8192;
  }

  lemma UnitsFit(m: Module, packet: bool)
    ensures Fits(BucketUnit(m, packet), MAX_SHIFT)
  {
    PowersUsed();
  }

  /** Byte meters get a bucket that holds every accepted size; packet meters stop at two million
      and the global one at 32 million. */
  lemma AcceptedSizesCovered(m: Module, packet: bool, size: u32)
    requires 0 < size <= 0x800_0000
    ensures var u, s := BucketUnit(m, packet), BiSearch(size, 0, MAX_SHIFT, BucketUnit(m, packet));
            && 0 <= s <= 17
            && (u * Pow2(s) >= size <==>
                  size <= if m == Global then 0x200_0000 else if packet then 0x20_0000 else 0x800_0000)
  {
    UnitsFit(m, packet);
    PowersUsed();
    CoveredExactly(size, MAX_SHIFT, BucketUnit(m, packet));
  }

  /** generalGetBucketSizeByRate. */
  function BucketByRate(rate: u32): u32 {
    if rate <= METER_1K * 4 then 64 * 1024
    else if rate <= METER_1K * 8 then 512 * 1024
    else if rate <= METER_1K * 16 then METER_1M
    else if rate <= METER_1K * 128 then METER_1M * 8
    else if rate <= METER_1K * 256 then METER_1M * 24
    else METER_1M * 64
  }

  /** Both rates lie on the same side of a step. */
  predicate SameSide(r: u32, q: u32, step: nat) {
    q <= step || step < r
  }

  /** The size chosen for a rate steps up behind five rates and nowhere else. */
  lemma BucketSteps(r: u32, q: u32)
    requires r <= q
    ensures BucketByRate(r) <= BucketByRate(q)
    ensures BucketByRate(r) == BucketByRate(q) <==>
            && SameSide(r, q, 4000) && SameSide(r, q, 8000) && SameSide(r, q, 16_000)
            && SameSide(r, q, 128_000) && SameSide(r, q, 256_000)
    ensures BucketByRate(4000) == 0x1_0000 && BucketByRate(8000) == 0x8_0000 && BucketByRate(16_000) == 1_024_000
    ensures BucketByRate(128_000) == 8_192_000 && BucketByRate(256_000) == 24_576_000
    ensures BucketByRate(256_001) == 65_536_000
  {
  }

  /** On an ingress byte meter a larger rate never gets a smaller bucket, and the bucket holds
      the size chosen for the rate. */
  lemma RateToBucketIsMonotone(r: u32, q: u32)
    requires r <= q
    ensures var s, t := BiSearch(BucketByRate(r), 0, MAX_SHIFT, 1024), BiSearch(BucketByRate(q), 0, MAX_SHIFT, 1024);
            0 <= s <= t && 1024 * Pow2(s) >= BucketByRate(r)
  {
    UnitsFit(Ingress, false);
    SearchIsMonotone(BucketByRate(r), BucketByRate(q), MAX_SHIFT, 1024);
    AcceptedSizesCovered(Ingress, false, BucketByRate(r));
  }

  // ---- Token rates

  function IntegerPart(rate: u32, unit: u16): nat
    requires unit > 0
  {
    rate / unit
  }

  function Fraction(rate: u32, unit: u16): nat
    requires unit > 0
  {
    rate % unit * 64 / unit
  }

  lemma Quotient(a: nat, u: nat)
    requires u > 0
    ensures u * (a / u) <= a < u * (a / u) + u && a == u * (a / u) + a % u
  {
  }

  lemma QuotientBelow(a: nat, u: nat, n: nat)
    requires u > 0 && a < n * u
    ensures a / u < n
  {
    if a / u >= n {
      Scaled(u, n, a / u);
      Quotient(a, u);
    }
  }

  /** The fraction always fits its six bits, so the source's overflow test is about the
      integer part alone. */
  lemma FractionFits(rate: u32, unit: u16)
    requires unit > 0
    ensures Fraction(rate, unit) <= 63
  {
    QuotientBelow(rate % unit * 64, unit, 64);
  }

  /** The register word: 18 bits of integer above 6 bits of fraction. */
  function RateWord(rate: u32, unit: u16): u32
    requires unit > 0 && IntegerPart(rate, unit) <= MAX_INTEGER
  {
    FractionFits(rate, unit);
    IntegerPart(rate, unit) * 64 + Fraction(rate, unit)
  }

  function DecodeRate(word: u32, unit: u16): u32 {
    (word / 64 % 0x4_0000 * unit + word % 64 * unit / 64) % TWO32
  }

  lemma DivideScaled(q: nat, u: nat)
    requires u > 0
    ensures q * u / u == q && q * u % u == 0
  {
    Quotient(q * u, u);
    if q * u / u < q {
      Scaled(u, q * u / u + 1, q);
    } else if q * u / u > q {
      Scaled(u, q, q * u / u);
    }
  }

  lemma QuotientIs(a: nat, u: nat, q: nat)
    requires u > 0 && u * q <= a < u * q + u
    ensures a / u == q
  {
    Quotient(a, u);
    if a / u < q {
      Scaled(u, a / u + 1, q);
    } else if a / u > q {
      Scaled(u, q + 1, a / u);
    }
  }

  lemma QuotientAtLeast(a: nat, u: nat, n: nat)
    requires u > 0 && n * u <= a
    ensures a / u >= n
  {
    Quotient(a, u);
    if a / u < n {
      Scaled(u, a / u + 1, n);
    }
  }

  lemma IntegerFits(rate: u32, unit: u16)
    requires unit > 0
    ensures IntegerPart(rate, unit) <= MAX_INTEGER <==> rate < 0x4_0000 * unit
  {
    Quotient(rate, unit);
    if rate < 0x4_0000 * unit {
      QuotientBelow(rate, unit, 0x4_0000);
    } else {
      QuotientAtLeast(rate, unit, 0x4_0000);
    }
  }

  lemma SixtyFourths(n: nat, r: nat, unit: nat)
    requires 0 <= r < unit
    ensures (unit * n + r) * 64 / unit == n * 64 + r * 64 / unit
  {
    var f := r * 64 / unit;
    Quotient(r * 64, unit);
    assert unit * (n * 64 + f) == unit * n * 64 + unit * f;
    QuotientIs((unit * n + r) * 64, unit, n * 64 + f);
  }

  /** The word is the rate in 64ths of the unit, rounded down, and it has room for any rate below
      2^18 units. */
  lemma RateWordIs(rate: u32, unit: u16)
    requires unit > 0
    ensures IntegerPart(rate, unit) <= MAX_INTEGER <==> rate < 0x4_0000 * unit
    ensures IntegerPart(rate, unit) <= MAX_INTEGER ==> RateWord(rate, unit) == rate * 64 / unit
  {
    IntegerFits(rate, unit);
    Quotient(rate, unit);
    SixtyFourths(rate / unit, rate % unit, unit);
  }

  /** Decoding takes the low 24 bits as 64ths of the unit, rounded down, in 32 bits. */
  lemma DecodeRateIs(word: u32, unit: u16)
    ensures DecodeRate(word, unit) == word % 0x100_0000 * unit / 64 % 0x1_0000_0000
  {
    var w := word % 0x100_0000;
    var n, f := w / 64, w % 64;
    assert word / 64 % 0x4_0000 == n && word % 64 == f;
    assert w * unit == 64 * (n * unit) + f * unit;
    assert (64 * (n * unit) + f * unit) / 64 == n * unit + f * unit / 64;
  }

  /** What is lost of a remainder `r` when it is kept in 64ths of the unit. */
  lemma FractionLoss(r: nat, unit: nat)
    requires unit > 0
    ensures var f := r * 64 / unit;
            && f * unit / 64 <= r
            && 64 * (r - f * unit / 64) < unit + 64
            && (f * unit / 64 == r <==> 64 * r % unit == 0)
  {
    var f := r * 64 / unit;
    Quotient(r * 64, unit);
    assert f * unit == unit * f;
  }

  lemma WordDecodes(n: nat, f: nat, unit: u16)
    requires n <= MAX_INTEGER && f < 64
    ensures DecodeRate(n * 64 + f, unit) == (unit * n + f * unit / 64) % TWO32
  {
    assert (n * 64 + f) / 64 == n && (n * 64 + f) % 64 == f;
    assert n * unit == unit * n;
  }

  lemma SumBelow(rate: u32, whole: nat, r: nat, part: nat)
    requires rate == whole + r && part <= r
    ensures (whole + part) % TWO32 == whole + part == rate - (r - part)
  {
  }

  /** Token-rate round trip, for one unit and every accepted rate: decoding never exceeds the
      rate, loses less than a unit/64 and one, and is exact exactly when the unit divides 64
      times the remainder. */
  lemma RateRoundTrip(rate: u32, unit: u16)
    requires unit > 0 && IntegerPart(rate, unit) <= MAX_INTEGER
    ensures var d := DecodeRate(RateWord(rate, unit), unit);
            && d <= rate
            && 64 * (rate - d) < unit + 64
            && (d == rate <==> 64 * (rate % unit) % unit == 0)
  {
    var n, f, r := IntegerPart(rate, unit), Fraction(rate, unit), rate % unit;
    FractionFits(rate, unit);
    WordDecodes(n, f, unit);
    Quotient(rate, unit);
    FractionLoss(r, unit);
    SumBelow(rate, unit * n, r, f * unit / 64);
  }

  lemma DividesMultiples(a: nat, r: nat, u: nat)
    requires u > 0 && a % u == 0
    ensures a * r % u == 0
  {
    Quotient(a, u);
    assert a * r == a / u * r * u;
    DivideScaled(a / u * r, u);
  }

  lemma SmallQuotient(a: nat, u: nat)
    requires a <= u && u > 0
    ensures a / u <= 1 && (a < u ==> a % u == a)
  {
    Quotient(a, u);
    if a / u > 1 {
      Scaled(u, 2, a / u);
    }
  }

  lemma OneIsLost(unit: u16)
    requires unit > 0 && 64 % unit != 0
    ensures IntegerPart(1, unit) <= MAX_INTEGER && DecodeRate(RateWord(1, unit), unit) != 1
  {
    assert unit != 1;
    SmallQuotient(1, unit);
    RateRoundTrip(1, unit);
  }

  /** Every rate survives the round trip exactly when the unit divides 64. */
  lemma ExactForEveryRate(unit: u16)
    requires unit > 0
    ensures (forall rate: u32 :: IntegerPart(rate, unit) <= MAX_INTEGER ==>
               DecodeRate(RateWord(rate, unit), unit) == rate)
            <==> 64 % unit == 0
  {
    if 64 % unit == 0 {
      forall rate: u32 | IntegerPart(rate, unit) <= MAX_INTEGER
        ensures DecodeRate(RateWord(rate, unit), unit) == rate
      {
        RateRoundTrip(rate, unit);
        DividesMultiples(64, rate % unit, unit);
      }
    } else {
      OneIsLost(unit);
    }
  }

  // ---- The unit

  /** A 32-bit word read as a signed int. */
  function AsInt(x: u32): int {
    if x < 0x8000_0000 then x else x - TWO32
  }

  /** What one token per tick of `tick` microseconds amounts to: kbit/s or packets/s. */
  function TokenUnit(packet: bool, tick: nat): nat
    requires tick > 0
  {
    if packet then 1_000_000 / tick else 8000 / tick
  }

  /** The unit is the most that, every tick, stays within a million packets a second or, in bytes,
      within 8000 kbit: it is rounded down. */
  lemma TokenUnitIs(packet: bool, tick: nat)
    requires tick > 0
    ensures packet ==> tick * TokenUnit(packet, tick) <= 1_000_000 < tick * TokenUnit(packet, tick) + tick
    ensures !packet ==> tick * TokenUnit(packet, tick) <= 8000 < tick * TokenUnit(packet, tick) + tick
  {
    Quotient(1_000_000, tick);
    Quotient(8000, tick);
  }

  /** The unit is kept in 16 bits; that loses nothing for bytes, and for packets exactly when
      the tick is at least 16. */
  lemma UnitKeptExactly(packet: bool, tick: nat)
    requires tick > 0
    ensures TokenUnit(packet, tick) % TWO16 == TokenUnit(packet, tick) <==> !packet || tick >= 16
  {
    if packet {
      if tick >= 16 {
        QuotientBelow(1_000_000, tick, TWO16);
      } else {
        QuotientAtLeast(1_000_000, tick, TWO16);
      }
    } else {
      QuotientBelow(8000, tick, TWO16);
    }
  }

  /** At a tick of ten microseconds the packet unit of 100,000 is kept as 34,464. */
  lemma UnitIsCut()
    ensures TokenUnit(true, 10) == 100_000 && TokenUnit(true, 10) % TWO16 == 34_464
  {
  }

  // ---- One meter in rate-limit mode

  datatype Settings = Settings(fastTick: u16, slowRatio: u16, slow: bool, packet: bool)

  function SlowTick(fast: u16, ratio: u16): int {
    AsInt(fast * ratio % TWO32)
  }

  /** The selected tick, as the signed int the source keeps it in. */
  function TickOf(s: Settings): int {
    if s.slow then SlowTick(s.fastTick, s.slowRatio) else s.fastTick
  }

  /** The unit, or 0 where the source reports an error. */
  function UnitOf(s: Settings): u16 {
    if TickOf(s) <= 0 then 0 else TokenUnit(s.packet, TickOf(s)) % TWO16
  }

  /** The token rate can be written. */
  predicate RateAccepted(s: Settings, rate: u32) {
    UnitOf(s) > 0 && IntegerPart(rate, UnitOf(s)) <= MAX_INTEGER
  }

  /** The bucket asked for along with a rate. */
  function BucketFor(m: Module, packet: bool, rate: u32, unit: u16): u32
    requires unit > 0 && IntegerPart(rate, unit) <= MAX_INTEGER
  {
    if m != Ingress then if IntegerPart(rate, unit) + 1 < 4096 then 4096 else IntegerPart(rate, unit) + 1
    else if packet then rate
    else BucketByRate(rate)
  }

  function BucketSize(m: Module, s: Settings, rate: u32): u32
    requires RateAccepted(s, rate)
  {
    BucketFor(m, s.packet, rate, UnitOf(s))
  }

  lemma LeastAbove(rate: nat, unit: nat, q: nat)
    requires unit > 0 && q == rate / unit
    ensures unit * (q + 1) > rate && unit * q <= rate
    ensures q + 1 < 4096 ==> unit * 4096 > rate
  {
    Quotient(rate, unit);
    if q + 1 < 4096 {
      Scaled(unit, q + 1, 4096);
    }
  }

  /** The bucket asked for.  Outside ingress it is the least number of at least 4096 that exceeds
      the rate in units; an ingress packet meter asks for the rate itself. */
  lemma BucketForIs(m: Module, packet: bool, rate: u32, unit: u16)
    requires unit > 0 && IntegerPart(rate, unit) <= MAX_INTEGER
    ensures var b := BucketFor(m, packet, rate, unit);
            && (m != Ingress ==> b >= 4096 && unit * b > rate && (b > 4096 ==> unit * (b - 1) <= rate))
            && (m == Ingress && packet ==> b == rate)
            && (m == Ingress && !packet ==> b == BucketByRate(rate))
  {
    if m != Ingress {
      LeastAbove(rate, unit, rate / unit);
    }
  }

  lemma ProductFits(a: u16, b: u16)
    ensures a * b < TWO32 && a * b % TWO32 == a * b
  {
    Scaled(a + 1, b, TWO16);
    SmallQuotient(a * b, TWO32);
  }

  /** The tick of a meter, read as a signed word. */
  lemma TickIs(s: Settings)
    ensures var tick := if s.slow then s.fastTick * s.slowRatio else s.fastTick;
            TickOf(s) == if tick < 0x8000_0000 then tick else tick - 0x1_0000_0000
  {
    ProductFits(s.fastTick, s.slowRatio);
  }

  /** The unit of a meter: none if the tick is zero or, as a signed word, negative. */
  lemma UnitOfIs(s: Settings)
    ensures var tick := if s.slow then s.fastTick * s.slowRatio else s.fastTick;
            UnitOf(s) == if 0 < tick < 0x8000_0000 then TokenUnit(s.packet, tick) % 0x1_0000 else 0
  {
    ProductFits(s.fastTick, s.slowRatio);
    TickIs(s);
  }

  /** The stored word decodes to the rate but for a fraction lost. */
  ghost predicate Represents(word: u32, unit: u16, rate: u32) {
    && unit > 0
    && DecodeRate(word, unit) <= rate
    && 64 * (rate - DecodeRate(word, unit)) < unit + 64
    && (DecodeRate(word, unit) == rate <==> 64 * (rate % unit) % unit == 0)
  }

  lemma WordRepresents(rate: u32, unit: u16, word: u32)
    requires unit > 0 && IntegerPart(rate, unit) <= MAX_INTEGER
    requires word == IntegerPart(rate, unit) * 64 + Fraction(rate, unit)
    ensures Represents(word, unit, rate)
  {
    RateRoundTrip(rate, unit);
  }

  /** The stored shift is the least whose bucket holds the size, or the largest there is. */
  ghost predicate Holds(shift: int, unit: u32, size: u32) {
    size > 0 ==> LeastCover(shift, size, unit, MAX_SHIFT)
  }

  /** Only an ingress packet meter can be left with a new rate and an old bucket. */
  lemma BucketTooLargeExactly(m: Module, s: Settings, rate: u32)
    requires RateAccepted(s, rate)
    ensures BucketSize(m, s, rate) > MAX_BUCKET <==> m == Ingress && s.packet && rate > MAX_BUCKET
  {
  }

  /** Such a rate: 134,217,729 packets per second at a tick of a millisecond. */
  lemma BucketIsRefused()
    ensures var s := Settings(1000, 1, false, true);
            RateAccepted(s, 0x800_0001) && BucketSize(Ingress, s, 0x800_0001) == MAX_BUCKET + 1
  {
    assert UnitOf(Settings(1000, 1, false, true)) == 1000;
  }

  class Meter {
    const which: Module
    var settings: Settings
    var tokenRate: u32
    var bucketShift: int

    constructor (which: Module, settings: Settings)
      ensures this.which == which && this.settings == settings && tokenRate == 0 && bucketShift == 0
    {
      this.which, this.settings, tokenRate, bucketShift := which, settings, 0, 0;
    }

    /** What a set of this rate needs, given which of the two parameter writes succeed. */
    predicate Succeeds(rate: u32, written: (bool, bool))
      reads this
    {
      && written.0 && written.1 && RateAccepted(settings, rate)
      && BucketSize(which, settings, rate) <= MAX_BUCKET
    }

    /** The meter stands for this rate. */
    ghost predicate Set(rate: u32)
      reads this
    {
      && RateAccepted(settings, rate)
      && Represents(tokenRate, UnitOf(settings), rate)
      && Holds(bucketShift, BucketUnit(which, settings.packet), BucketSize(which, settings, rate))
    }

    /** generalSetRatelimitTokenRate; `written` says whether the parameter write succeeds.
        Returns the bucket size as a signed int, or an error. */
    method SetTokenRate(rate: u32, written: bool) returns (ret: int)
      modifies this`tokenRate
      ensures !RateAccepted(settings, rate) ==> ret == -EINVAL && tokenRate == old(tokenRate)
      ensures RateAccepted(settings, rate) && !written ==> ret == -EFAULT && tokenRate == old(tokenRate)
      ensures RateAccepted(settings, rate) && written ==>
                ret == AsInt(BucketSize(which, settings, rate)) && Represents(tokenRate, UnitOf(settings), rate)
    {
      var tick: int := settings.fastTick;
      if settings.slow {
        tick := SlowTick(settings.fastTick, settings.slowRatio);
      }
      if 0 >= tick {
        return -EINVAL;
      }
      var unit: u16 := TokenUnit(settings.packet, tick) % TWO16;
      if unit == 0 {
        return -EINVAL;
      }
      ret := WriteRate(rate, unit, written);
    }

    method WriteRate(rate: u32, unit: u16, written: bool) returns (ret: int)
      requires unit > 0
      modifies this`tokenRate
      ensures IntegerPart(rate, unit) > MAX_INTEGER ==> ret == -EINVAL && tokenRate == old(tokenRate)
      ensures IntegerPart(rate, unit) <= MAX_INTEGER && !written ==> ret == -EFAULT && tokenRate == old(tokenRate)
      ensures IntegerPart(rate, unit) <= MAX_INTEGER && written ==>
                ret == AsInt(BucketFor(which, settings.packet, rate, unit)) && Represents(tokenRate, unit, rate)
    {
      var integer, fraction := rate / unit, rate % unit * 64 / unit;
      FractionFits(rate, unit);
      if integer > MAX_INTEGER || fraction > 0x3F {
        return -EINVAL;
      }
      if !written {
        return -EFAULT;
      }
      tokenRate := integer * 64 + fraction;
      ret := ChooseBucket(rate, unit, integer);
      WordRepresents(rate, unit, tokenRate);
    }

    method ChooseBucket(rate: u32, unit: u16, integer: nat) returns (ret: int)
      requires unit > 0 && integer == IntegerPart(rate, unit) <= MAX_INTEGER
      ensures ret == AsInt(BucketFor(which, settings.packet, rate, unit))
    {
      var bucket: u32 := integer + 1;
      if which == Ingress {
        bucket := if settings.packet then rate else BucketByRate(rate);
      } else if bucket < 4096 {
        bucket := 4096;
      }
      return AsInt(bucket);
    }

    /** generalSetRatelimitBucketSize. */
    method SetBucketSize(size: u32, written: bool) returns (ret: int)
      modifies this`bucketShift
      ensures size > MAX_BUCKET ==> ret == -EINVAL
      ensures size <= MAX_BUCKET && !written ==> ret == -EFAULT
      ensures ret != 0 ==> bucketShift == old(bucketShift)
      ensures size <= MAX_BUCKET && written ==> ret == 0 && Holds(bucketShift, BucketUnit(which, settings.packet), size)
    {
      if size > MAX_BUCKET {
        return -EINVAL;
      }
      var unit := BucketUnit(which, settings.packet);
      if !written {
        return -EFAULT;
      }
      bucketShift := BiSearch(size, 0, 17, unit);
      UnitsFit(which, settings.packet);
      if size > 0 {
        SearchFindsLeastCover(size, MAX_SHIFT, unit);
      }
      return 0;
    }

    /** Setting a meter's rate.  With both writes working it succeeds exactly when the rate is
        accepted and the bucket is at most 128 MB.  When it fails on the bucket the token rate
        is already new. */
    method SetValue(rate: u32, rateWritten: bool, sizeWritten: bool) returns (ret: int)
      modifies this
      ensures settings == old(settings) && ret <= 0
      ensures ret == 0 <==> rateWritten && sizeWritten && RateAccepted(settings, rate)
                            && BucketSize(which, settings, rate) <= MAX_BUCKET
      ensures ret == 0 ==> Holds(bucketShift, BucketUnit(which, settings.packet), BucketSize(which, settings, rate))
      ensures ret != 0 ==> bucketShift == old(bucketShift)
      ensures if rateWritten && RateAccepted(settings, rate) then Represents(tokenRate, UnitOf(settings), rate)
              else tokenRate == old(tokenRate)
    {
      var bucket := SetTokenRate(rate, rateWritten);
      if bucket < 0 {
        return bucket;
      }
      ret := SetBucketSize(bucket, sizeWritten);
    }

    /** airoha_generalGetTrtcmTokenRate, with no tick configured as an error. */
    method GetTokenRate() returns (ok: bool, rate: u32)
      ensures ok <==> UnitOf(settings) > 0
      ensures ok ==> rate == tokenRate % 0x100_0000 * UnitOf(settings) / 64 % 0x1_0000_0000
      ensures forall r: u32 :: ok && Represents(tokenRate, UnitOf(settings), r) ==>
                rate <= r && 64 * (r - rate) < UnitOf(settings) + 64
    {
      var tick: int := settings.fastTick;
      if settings.slow {
        tick := SlowTick(settings.fastTick, settings.slowRatio);
      }
      if 0 >= tick {
        return false, 0;
      }
      var unit: u16 := TokenUnit(settings.packet, tick) % TWO16;
      if unit == 0 {
        return false, 0;
      }
      var integer, fraction := tokenRate / 64 % 0x4_0000, tokenRate % 64;
      rate := (integer * unit + fraction * unit / 64) % TWO32;
      DecodeRateIs(tokenRate, unit);
      ok := true;
    }
  }

  /** The most a meter index may be, per ingress group and for SLA meters. */
  datatype Limits = Limits(group0: nat, group1: nat, group2: nat, sla: nat)

  /** qdma_general_check_index_valid. */
  predicate IndexValid(m: Module, twoRate: bool, group: nat, index: nat, max: Limits) {
    match m
    case Global => true
    case Ingress =>
      var groupMax := if group == 0 then max.group0 else if group == 1 then max.group1 else max.group2;
      group < 3 && index < if twoRate then groupMax / 2 else groupMax
    case Sla => index <= max.sla
    case Egress => index <= 31
  }

  /** Three ingress groups, and in two-rate mode only as many indices as both slots of a pair have
      room for; SLA meters up to and including their maximum; 32 egress meters; any global one. */
  lemma IndexValidIs(m: Module, twoRate: bool, group: nat, index: nat, max: Limits)
    ensures m == Ingress && group < 3 ==>
              var n := [max.group0, max.group1, max.group2][group];
              IndexValid(m, twoRate, group, index, max) <==> if twoRate then 2 * index + 2 <= n else index < n
    ensures m == Ingress && group >= 3 ==> !IndexValid(m, twoRate, group, index, max)
    ensures m == Sla ==> (IndexValid(m, twoRate, group, index, max) <==> index < max.sla + 1)
    ensures m == Egress ==> (IndexValid(m, twoRate, group, index, max) <==> index < 32)
    ensures m == Global ==> IndexValid(m, twoRate, group, index, max)
  {
  }

  /** Two-rate mode applies to meter group 0 alone, so groups 1 and 2 are never held to half
      their range. */
  predicate TwoRate(mode: bool, group: nat) {
    mode && group == 0
  }

  /** The parameters of one meter index: one slot in rate-limit mode, two in two-rate mode. */
  class MeterIndex {
    const which: Module
    const single: Meter
    const commit: Meter
    const peak: Meter

    constructor (which: Module, settings: Settings)
      ensures fresh(single) && fresh(commit) && fresh(peak) && Valid() && this.which == which
    {
      this.which := which;
      single := new Meter(which, settings);
      commit := new Meter(which, settings);
      peak := new Meter(which, settings);
    }

    ghost predicate Valid() {
      && single != commit && single != peak && commit != peak
      && single.which == which && commit.which == which && peak.which == which
    }

    /** airoha_qdma_general_set_ratelimit_mode_value; `written` says which of the parameter
        writes succeed, rate and bucket of each slot.  The second slot is reached only when the
        first succeeded. */
    method SetModeValue(mode: bool, group: nat, index: nat, max: Limits, rate: u32,
                        written: (bool, bool), writtenPeak: (bool, bool)) returns (ret: int)
      requires Valid() && group < 4
      modifies single, commit, peak
      ensures ret <= 0
      ensures !IndexValid(which, TwoRate(mode, group), group, index, max) ==>
                ret == -EINVAL && unchanged(single) && unchanged(commit) && unchanged(peak)
      ensures IndexValid(which, TwoRate(mode, group), group, index, max) && !TwoRate(mode, group) ==>
                && unchanged(commit) && unchanged(peak)
                && (ret == 0 <==> single.Succeeds(rate, written))
                && (ret == 0 ==> single.Set(rate))
      ensures IndexValid(which, TwoRate(mode, group), group, index, max) && TwoRate(mode, group) ==>
                && unchanged(single)
                && (ret == 0 <==> old(commit.Succeeds(rate, written)) && old(peak.Succeeds(rate, writtenPeak)))
                && (old(commit.Succeeds(rate, written)) ==> commit.Set(rate))
                && (ret == 0 ==> peak.Set(rate))
                && (!old(commit.Succeeds(rate, written)) ==> unchanged(peak))
      ensures ret == 0 ==> if mode && group == 0 then commit.Set(rate) && peak.Set(rate) else single.Set(rate)
      ensures if mode && group == 0 then unchanged(single) else unchanged(commit) && unchanged(peak)
    {
      var two := mode;
      if group > 0 {
        two := false;
      }
      if !IndexValid(which, two, group, index, max) {
        return -EINVAL;
      }
      if !two {
        ret := single.SetValue(rate, written.0, written.1);
        return;
      }
      ret := commit.SetValue(rate, written.0, written.1);
      if ret == 0 {
        ret := peak.SetValue(rate, writtenPeak.0, writtenPeak.1);
      }
    }
  }
}
