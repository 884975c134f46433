/** Clock arithmetic: reading a running clock from two registers, and the fixed-point encoding of
    the clock period. */
module PtpClock {
  import opened Numbers

  const TWO_64 := 0x1_0000_0000_0000_0000

  // ----- a snapshot of a running clock -----

  /** A clock that runs on between register reads: `time(i)` is its time, in nanoseconds, at the
      i-th read. */
  class Clock {
    const time: nat -> nat
    var readCount: nat

    constructor (time: nat -> nat)
      ensures this.time == time && readCount == 0
    {
      this.time := time;
      readCount := 0;
    }

    method ReadSeconds() returns (sec: nat)
      modifies this
      ensures readCount == old(readCount) + 1 && sec == SecondsReg(time(old(readCount)))
    {
      sec := SecondsReg(time(readCount));
      readCount := readCount + 1;
    }

    method ReadNanoseconds() returns (nsec: nat)
      modifies this
      ensures readCount == old(readCount) + 1 && nsec == NanosecondsReg(time(old(readCount)))
    {
      nsec := NanosecondsReg(time(readCount));
      readCount := readCount + 1;
    }

    /** get_systime; the sum never needs more than 64 bits.  For a clock that runs forward and
        whose seconds fit 32 bits, the result is the time at the second read if the two seconds
        agree, and at the fourth otherwise, exactly if a second boundary was not crossed twice. */
    method GetSystime() returns (ns: nat)
      modifies this
      ensures ns < TWO_64 && readCount == old(readCount) + 4
      ensures var (a, b, c, d) := FourReads(time, old(readCount));
              && ns == SnapshotValue(a, b, c, d)
              && (RunsForward(a, b, c, d) ==> (ns == Intended(a, b, c, d) <==> CrossedAtMostOnce(a, c, d)))
    {
      hide Intended, CrossedAtMostOnce, RunsForward, SecondsReg, NanosecondsReg;
      var sec := ReadSeconds();
      var nsec := ReadNanoseconds();
      var secRollover := ReadSeconds();
      var nsecRollover := ReadNanoseconds();
      if sec != secRollover {
        sec := secRollover;
        nsec := nsecRollover;
      }
      ns := nsec + sec * NSEC_PER_SEC;
      ghost var (a, b, c, d) := FourReads(time, old(readCount));
      assert ns == SnapshotValue(a, b, c, d);
      hide SnapshotValue;
      if RunsForward(a, b, c, d) {
        SnapshotRightIff(a, b, c, d);
      }
    }
  }

  /** The times of the four reads. */
  function FourReads(time: nat -> nat, i: nat): (nat, nat, nat, nat) {
    (time(i), time(i + 1), time(i + 2), time(i + 3))
  }

  /** A clock that runs forward, before its seconds wrap. */
  predicate RunsForward(a: nat, b: nat, c: nat, d: nat) {
    a <= b <= c <= d < TWO_32 * NSEC_PER_SEC
  }

  predicate SameSecond(a: nat, b: nat) {
    a / NSEC_PER_SEC == b / NSEC_PER_SEC
  }

  /** The two registers at a time: 32-bit seconds, and nanoseconds. */
  function SecondsReg(t: nat): (sec: nat)
    ensures sec < TWO_32
  {
    (t / NSEC_PER_SEC) % TWO_32
  }

  function NanosecondsReg(t: nat): (nsec: nat)
    ensures nsec < NSEC_PER_SEC
  {
    t % NSEC_PER_SEC
  }

  /** What the four register values are combined to. */
  function SnapshotValue(a: nat, b: nat, c: nat, d: nat): (ns: nat)
    ensures ns < TWO_64
  {
    var sec, sec' := SecondsReg(a), SecondsReg(c);
    if sec == sec' then sec * NSEC_PER_SEC + NanosecondsReg(b) else sec' * NSEC_PER_SEC + NanosecondsReg(d)
  }

  /** The read whose time the result should be: the second if the seconds agree, else the
      fourth. */
  function Intended(a: nat, b: nat, c: nat, d: nat): nat {
    if SameSecond(a, c) then b else d
  }

  /** The seconds agree, or they do not change again before the fourth read. */
  predicate CrossedAtMostOnce(a: nat, c: nat, d: nat) {
    SameSecond(a, c) || SameSecond(c, d)
  }

  /** The snapshot is the time of its read exactly if the second does not change both between the
      reads of the seconds and after them; how slow the reads are does not matter. */
  lemma SnapshotRightIff(a: nat, b: nat, c: nat, d: nat)
    requires RunsForward(a, b, c, d)
    ensures SnapshotValue(a, b, c, d) == Intended(a, b, c, d) <==> CrossedAtMostOnce(a, c, d)
  {
    SnapshotParts(a, b, c, d);
    SameParts(SnapshotValue(a, b, c, d), Intended(a, b, c, d));
    SecondsRise(a, b);
    SecondsRise(b, c);
    hide SnapshotValue;
  }

  lemma SecondsFit(a: nat)
    requires a < TWO_32 * NSEC_PER_SEC
    ensures SecondsReg(a) == a / NSEC_PER_SEC && NanosecondsReg(a) == a % NSEC_PER_SEC
  {
  }

  lemma PartsOfSum(sec: nat, nsec: nat)
    requires nsec < NSEC_PER_SEC
    ensures (sec * NSEC_PER_SEC + nsec) / NSEC_PER_SEC == sec && (sec * NSEC_PER_SEC + nsec) % NSEC_PER_SEC == nsec
  {
  }

  /** The seconds are those of the third read, and the nanoseconds those of the chosen read. */
  lemma SnapshotParts(a: nat, b: nat, c: nat, d: nat)
    requires RunsForward(a, b, c, d)
    ensures var v, chosen := SnapshotValue(a, b, c, d), Intended(a, b, c, d);
            SameSecond(v, c) && v % NSEC_PER_SEC == chosen % NSEC_PER_SEC
  {
    SecondsFit(a);
    SecondsFit(b);
    SecondsFit(c);
    SecondsFit(d);
    hide SecondsReg, NanosecondsReg;
    PartsOfSum(c / NSEC_PER_SEC, Intended(a, b, c, d) % NSEC_PER_SEC);
  }

  /** A torn snapshot is none of the four times unless the nanoseconds happen to be those of the
      third read, or of a second read in its second. */
  lemma TornIff(a: nat, b: nat, c: nat, d: nat)
    requires RunsForward(a, b, c, d)
    ensures SnapshotValue(a, b, c, d) !in {a, b, c, d} <==>
            && !CrossedAtMostOnce(a, c, d)
            && d % NSEC_PER_SEC != c % NSEC_PER_SEC
            && !(SameSecond(b, c) && b % NSEC_PER_SEC == d % NSEC_PER_SEC)
  {
    var v := SnapshotValue(a, b, c, d);
    SnapshotParts(a, b, c, d);
    SameParts(v, a);
    SameParts(v, b);
    SameParts(v, c);
    SameParts(v, d);
    SecondsRise(a, b);
    SecondsRise(b, c);
    SecondsRise(c, d);
    hide SnapshotValue;
  }

  lemma SecondsRise(x: nat, y: nat)
    requires x <= y
    ensures x / NSEC_PER_SEC <= y / NSEC_PER_SEC
  {
  }

  lemma SameParts(x: nat, y: nat)
    ensures x == y <==> SameSecond(x, y) && x % NSEC_PER_SEC == y % NSEC_PER_SEC
  {
  }

  /** Four reads within a second cross at most one boundary. */
  lemma NotTorn(a: nat, b: nat, c: nat, d: nat)
    requires RunsForward(a, b, c, d) && d < a + NSEC_PER_SEC
    ensures CrossedAtMostOnce(a, c, d) && SnapshotValue(a, b, c, d) == Intended(a, b, c, d)
  {
    SnapshotRightIff(a, b, c, d);
  }

  /** Slower reads can be torn: the result is then none of the four times. */
  lemma SlowReadsTear()
    ensures exists a: nat, b: nat, c: nat, d: nat ::
            RunsForward(a, b, c, d) && SnapshotValue(a, b, c, d) !in {a, b, c, d}
  {
    var a, c, d := NSEC_PER_SEC - 1, 2 * NSEC_PER_SEC - 1, 2 * NSEC_PER_SEC;
    assert RunsForward(a, a, c, d) && SnapshotValue(a, a, c, d) == NSEC_PER_SEC;
  }

  // ----- the period of the clock as a fixed-point number -----

  /** div_u64 and DIV_ROUND_CLOSEST on unsigned numbers. */
  function DivRoundClosest(x: nat, d: nat): (q: nat)
    requires d > 0
    ensures 2 * x - d < 2 * (d * q) <= 2 * x + d
  {
    var q := (x + d / 2) / d;
    assert d * q <= x + d / 2 < d * q + d;
    q
  }

  const COARSE_CLOCK := 250_000_000

  /** tc956xmac_get_ptp_period: whole nanoseconds of one period. */
  function PtpPeriod(fine: bool, ptpClock: nat): (ns: nat)
    requires ptpClock > 0
    ensures ns == NSEC_PER_SEC / (if fine then ptpClock else COARSE_CLOCK) <= NSEC_PER_SEC
  {
    (NSEC_PER_SEC / (if fine then ptpClock else COARSE_CLOCK)) % TWO_32
  }

  /** tc956xmac_get_ptp_subperiod: the picoseconds left over, in wrapping 32-bit arithmetic. */
  function PtpSubperiod(fine: bool, ptpClock: nat): (ps: nat)
    requires ptpClock > 0
  {
    var data := (NSEC_PER_SEC * 1000) / (if fine then ptpClock else COARSE_CLOCK);
    (data - (PtpPeriod(fine, ptpClock) * 1000) % TWO_32) % TWO_32
  }

  /** The two quotients differ by less than a nanosecond's worth of picoseconds. */
  lemma QuotientDigits(p: nat)
    requires p > 0
    ensures var q, q' := NSEC_PER_SEC / p, (NSEC_PER_SEC * 1000) / p; 1000 * q <= q' <= 1000 * q + 999
  {
    var q, q' := NSEC_PER_SEC / p, (NSEC_PER_SEC * 1000) / p;
    assert q * p <= NSEC_PER_SEC < (q + 1) * p;
    assert q' * p <= NSEC_PER_SEC * 1000 < (q' + 1) * p;
    assert (1000 * q) * p == 1000 * (q * p) && (1000 * (q + 1)) * p == 1000 * ((q + 1) * p);
    Cancel(1000 * q, q' + 1, p);
    Cancel(q', 1000 * (q + 1), p);
  }

  lemma Cancel(a: int, b: int, p: nat)
    requires a * p < b * p
    ensures a < b
  {
  }

  /** The picoseconds of a period beyond its whole nanoseconds. */
  function Remainder(p: nat): (r: nat)
    requires p > 0
    ensures r <= 999
  {
    QuotientDigits(p);
    (NSEC_PER_SEC * 1000) / p - 1000 * (NSEC_PER_SEC / p)
  }

  function Frequency(fine: bool, ptpClock: nat): nat {
    if fine then ptpClock else COARSE_CLOCK
  }

  /** The wrapping subtraction gives the remainder for every clock. */
  lemma SubperiodIsRemainder(fine: bool, ptpClock: nat)
    requires ptpClock > 0
    ensures PtpSubperiod(fine, ptpClock) == Remainder(Frequency(fine, ptpClock))
  {
    var p := Frequency(fine, ptpClock);
    QuotientDigits(p);
    WrappedDifference((NSEC_PER_SEC * 1000) / p, PtpPeriod(fine, ptpClock) * 1000);
  }

  lemma WrappedDifference(a: nat, b: nat)
    requires b <= a < b + TWO_32
    ensures (a - b % TWO_32) % TWO_32 == a - b
  {
    assert a - b % TWO_32 == (a - b) + (b / TWO_32) * TWO_32;
  }

  // ----- the increment register -----

  /** Rollover mode and update mode of the timestamp control register. */
  datatype TimeControl = TimeControl(digitalRollover: bool, fine: bool)

  /** Nanoseconds and 1/256 nanoseconds (or, in binary rollover mode, units and 1/256 units of
      0.465 ns), before they are cut to 8 bits. */
  function Increment(tc: TimeControl, ptpClock: nat): (nat, nat)
    requires ptpClock > 0
  {
    var p := Frequency(tc.fine, ptpClock);
    if tc.digitalRollover then DigitalIncrement(NSEC_PER_SEC / p, Remainder(p)) else BinaryIncrement(NSEC_PER_SEC / p)
  }

  function DigitalIncrement(ns: nat, ps: nat): (nat, nat) {
    (ns, DivRoundClosest(ps * 256, 1000))
  }

  /** The binary mode in the arithmetic of a 64-bit build, where the products with `ns` are 32-bit
      and the others 64-bit. */
  function BinaryIncrement(ns: nat): (nat, nat) {
    var tmp := (ns * 1000) % TWO_32;
    var units := tmp / 465;
    (units, DivRoundClosest(tmp * 256 - (465 * units * 256) % TWO_32, 465) % TWO_32)
  }

  /** The longest period, in nanoseconds, whose products fit 32 bits. */
  const LONGEST_PERIOD := 16777

  /** Whole units of 0.465 ns and the rounded rest in 1/256 units come out exactly if the products
      fit 32 bits. */
  lemma BinaryRightIff(ns: nat)
    requires ns <= NSEC_PER_SEC
    ensures BinaryIncrement(ns) == (ns * 1000 / 465, DivRoundClosest((ns * 1000 % 465) * 256, 465))
            <==> ns <= LONGEST_PERIOD
  {
    var x := ns * 1000;
    hide BinaryIncrement, DivRoundClosest;
    if ns <= LONGEST_PERIOD {
      BinaryFits(ns);
    } else if x < TWO_32 {
      BinaryRestWraps(ns);
    } else {
      BinaryUnitsWrap(ns);
    }
  }

  lemma BinaryFits(ns: nat)
    requires ns <= LONGEST_PERIOD
    ensures BinaryIncrement(ns) == (ns * 1000 / 465, DivRoundClosest((ns * 1000 % 465) * 256, 465))
  {
    var x := ns * 1000;
    var q, r := x / 465, x % 465;
    RestBounded(r);
    SmallMod(x);
    assert x == 465 * q + r;
    hide DivRoundClosest;
    SmallMod(465 * q * 256);
    SmallMod(DivRoundClosest(r * 256, 465));
    assert x * 256 - 465 * q * 256 == r * 256;
  }

  lemma SmallMod(x: nat)
    requires x < TWO_32
    ensures x % TWO_32 == x
  {
  }

  lemma RestBounded(r: nat)
    requires r < 465
    ensures DivRoundClosest(r * 256, 465) <= 256
  {
  }

  lemma BinaryRestWraps(ns: nat)
    requires ns > LONGEST_PERIOD && ns * 1000 < TWO_32
    ensures BinaryIncrement(ns).1 > 256 >= DivRoundClosest((ns * 1000 % 465) * 256, 465)
  {
    hide DivRoundClosest;
    var x := ns * 1000;
    var q := x / 465;
    assert x - 465 < 465 * q <= x;
    var y := 465 * q * 256;
    assert y >= TWO_32;
    assert y % TWO_32 <= y - TWO_32;
  }

  lemma BinaryUnitsWrap(ns: nat)
    requires TWO_32 <= ns * 1000
    ensures BinaryIncrement(ns).0 < ns * 1000 / 465
  {
    hide DivRoundClosest;
    var x := ns * 1000;
    assert x % TWO_32 <= x - TWO_32;
  }

  /** In the coarse mode the period is that of 250 MHz, whatever the clock. */
  lemma CoarsePeriod(ptpClock: nat)
    requires ptpClock > 0
    ensures PtpPeriod(false, ptpClock) == 4 && PtpSubperiod(false, ptpClock) == 0
    ensures PtpPeriod(true, ptpClock) == NSEC_PER_SEC / ptpClock
  {
    SubperiodIsRemainder(false, ptpClock);
  }

  /** What the increment stands for.  In digital rollover mode: the nanoseconds of a period, and its
      picoseconds rounded to 1/256 ns.  In binary rollover mode: in units of 0.465 ns, the whole
      nanoseconds of a period within half of 1/256 unit, for periods whose products fit. */
  lemma IncrementMeaning(tc: TimeControl, ptpClock: nat)
    requires ptpClock > 0
    ensures var (ns, subns) := Increment(tc, ptpClock);
            var p := Frequency(tc.fine, ptpClock);
            && (tc.digitalRollover ==>
                  && ns == NSEC_PER_SEC / p
                  && 256 * Remainder(p) - 500 < 1000 * subns <= 256 * Remainder(p) + 500)
            && (!tc.digitalRollover && NSEC_PER_SEC / p <= LONGEST_PERIOD ==>
                  && 465 * ns <= 1000 * (NSEC_PER_SEC / p) < 465 * (ns + 1)
                  && var scaled := 512_000 * (NSEC_PER_SEC / p);
                  && scaled - 465 < 2 * 465 * (256 * ns + subns) <= scaled + 465)
  {
    var p := Frequency(tc.fine, ptpClock);
    var q, r := NSEC_PER_SEC / p, Remainder(p);
    assert Increment(tc, ptpClock) == if tc.digitalRollover then DigitalIncrement(q, r) else BinaryIncrement(q);
    hide Increment, Frequency, Remainder, BinaryIncrement;
    if tc.digitalRollover {
      DigitalParts(q, r);
    } else if q <= LONGEST_PERIOD {
      BinaryFits(q);
      hide DivRoundClosest;
      BinaryParts(q);
    }
  }

  lemma DigitalParts(q: nat, r: nat)
    ensures var (ns, subns) := DigitalIncrement(q, r); ns == q && 256 * r - 500 < 1000 * subns <= 256 * r + 500
  {
  }

  lemma BinaryParts(q: nat)
    ensures var units, rest := q * 1000 / 465, DivRoundClosest((q * 1000 % 465) * 256, 465);
            && 465 * units <= 1000 * q < 465 * (units + 1)
            && 512_000 * q - 465 < 2 * 465 * (256 * units + rest) <= 512_000 * q + 465
  {
    var x := q * 1000;
    var units, r := x / 465, x % 465;
    assert x == 465 * units + r;
    assert 2 * (r * 256) - 465 < 2 * (465 * DivRoundClosest(r * 256, 465)) <= 2 * (r * 256) + 465;
  }

  /** config_sub_second_increment: the value written to the increment register, and the reported
      whole increment. */
  method ConfigSubSecondIncrement(tc: TimeControl, ptpClock: nat, ip: bool) returns (reg: nat, ssinc: nat)
    requires ptpClock > 0
    ensures var (ns, subns) := Increment(tc, ptpClock);
            && ssinc == ns % 256
            && reg == if ip then (ns % 256) * 0x1_0000 + (subns % 256) * 0x100 else ns % 256
  {
    hide DivRoundClosest;
    var ns, subns := PtpPeriod(tc.fine, ptpClock), PtpSubperiod(tc.fine, ptpClock);
    SubperiodIsRemainder(tc.fine, ptpClock);
    if !tc.digitalRollover {
      var tmp := (ns * 1000) % TWO_32;
      ns := DivRoundClosest(tmp - tmp % 465, 465);
      WholeUnits(tmp);
      subns := DivRoundClosest(tmp * 256 - (465 * ns * 256) % TWO_32, 465) % TWO_32;
    } else {
      subns := DivRoundClosest(subns * 256, 1000);
    }
    ns := ns % 256;
    subns := subns % 256;
    reg := ns;
    if ip {
      reg := reg * 0x1_0000;
      reg := reg + subns * 0x100;
    }
    ssinc := ns;
  }

  lemma WholeUnits(x: nat)
    ensures x - x % 465 >= 0 && DivRoundClosest(x - x % 465, 465) == x / 465
  {
    var q := x / 465;
    assert x - x % 465 == 465 * q;
  }

  // ----- how good the encoding is -----

  /** The period that a register value stands for, in nanoseconds. */
  function Decoded(reg: nat): real {
    NsField(reg) as real + SubnsField(reg) as real / 256.0
  }

  function NsField(reg: nat): nat {
    (reg / 0x1_0000) % 256
  }

  function SubnsField(reg: nat): nat {
    (reg / 0x100) % 256
  }

  function Packed(inc: (nat, nat)): nat {
    (inc.0 % 256) * 0x1_0000 + (inc.1 % 256) * 0x100
  }

  /** The slowest clock whose period fits the register. */
  const SLOWEST_CLOCK := 3_906_250

  lemma PeriodFitsIff(p: nat)
    requires p > 0
    ensures NSEC_PER_SEC / p < 256 <==> p > SLOWEST_CLOCK
  {
    var q := NSEC_PER_SEC / p;
    assert q * p <= NSEC_PER_SEC < (q + 1) * p;
    if p > SLOWEST_CLOCK {
      Cancel(q, 256, p);
    } else {
      Cancel(256, q + 1, p);
    }
  }

  /** Neither field is cut exactly for clocks above the slowest whose picosecond remainder is not
      999; that one rounds to 256 and is cut to zero. */
  lemma NotCutIff(ptpClock: nat, fine: bool)
    requires ptpClock > 0
    ensures var p, (ns, subns) := Frequency(fine, ptpClock), Increment(TimeControl(true, fine), ptpClock);
            && ((ns < 256 && subns < 256) <==> (p > SLOWEST_CLOCK && Remainder(p) != 999))
            && (Remainder(p) == 999 ==> subns % 256 == 0)
  {
    PeriodFitsIff(Frequency(fine, ptpClock));
  }

  /** The register value stands for the clock's period, within a rounding step of each stage. */
  predicate Accurate(ptpClock: nat, fine: bool)
    requires ptpClock > 0
  {
    var period := NSEC_PER_SEC as real / Frequency(fine, ptpClock) as real;
    var d := Decoded(Packed(Increment(TimeControl(true, fine), ptpClock)));
    period - (1.0 / 512.0 + 1.0 / 1000.0) <= d <= period + 1.0 / 512.0
  }

  /** The encoding is accurate exactly for clocks above the slowest whose picosecond remainder is
      not 999: a field that is cut breaks the bound. */
  lemma EncodingAccurateIff(ptpClock: nat, fine: bool)
    requires ptpClock > 0
    ensures Accurate(ptpClock, fine) <==>
            Frequency(fine, ptpClock) > SLOWEST_CLOCK && Remainder(Frequency(fine, ptpClock)) != 999
  {
    var p := Frequency(fine, ptpClock);
    PeriodFitsIff(p);
    PeriodDigits(p);
    var ns, subns := NSEC_PER_SEC / p, DivRoundClosest(Remainder(p) * 256, 1000);
    assert Increment(TimeControl(true, fine), ptpClock) == (ns, subns);
    PackedFields(ns, subns);
    hide Increment, Frequency, NsField, SubnsField, Packed, Remainder;
    FieldsAccurateIff(ns, Remainder(p), subns, NSEC_PER_SEC as real / p as real);
  }

  /** A period of `ns` nanoseconds and `r` picoseconds, and its two fields. */
  lemma FieldsAccurateIff(ns: nat, r: nat, subns: nat, period: real)
    requires r <= 999 && 512 * r - 1000 <= 2000 * subns <= 512 * r + 1000
    requires var x := (1000 * ns + r) as real / 1000.0; x <= period <= x + 1.0 / 1000.0
    ensures var d := (ns % 256) as real + (subns % 256) as real / 256.0;
            period - (1.0 / 512.0 + 1.0 / 1000.0) <= d <= period + 1.0 / 512.0 <==> ns < 256 && r != 999
  {
    if ns >= 256 {
      SlowPeriod(ns, r, ns % 256, subns % 256, period);
    } else if r == 999 {
      MissingNanosecond(ns, period);
    } else {
      RoundingError(ns, r, subns, period);
    }
  }

  lemma SlowPeriod(ns: nat, r: nat, nsField: nat, subnsField: nat, period: real)
    requires ns >= 256 && nsField < 256 && subnsField < 256 && (1000 * ns + r) as real / 1000.0 <= period
    ensures period - (1.0 / 512.0 + 1.0 / 1000.0) > nsField as real + subnsField as real / 256.0
  {
    assert nsField as real <= 255.0 && subnsField as real <= 255.0;
    assert (1000 * ns + r) as real >= 256000.0;
  }

  lemma MissingNanosecond(ns: nat, period: real)
    requires (1000 * ns + 999) as real / 1000.0 <= period
    ensures period - (1.0 / 512.0 + 1.0 / 1000.0) > ns as real
  {
    assert (1000 * ns + 999) as real == 1000.0 * (ns as real) + 999.0;
  }

  /** A clock one hertz above 250 MHz is such a clock: its register stands for 3 ns instead of
      nearly 4. */
  lemma RemainderOccurs()
    ensures Remainder(250_000_001) == 999 && !Accurate(250_000_001, true)
    ensures Increment(TimeControl(true, true), 250_000_001) == (3, 256)
  {
    assert NSEC_PER_SEC / 250_000_001 == 3 && (NSEC_PER_SEC * 1000) / 250_000_001 == 3999;
    EncodingAccurateIff(250_000_001, true);
  }

  lemma PackedFields(ns: nat, subns: nat)
    ensures NsField(Packed((ns, subns))) == ns % 256
    ensures SubnsField(Packed((ns, subns))) == subns % 256
  {
  }

  lemma RoundingError(ns: nat, r: nat, subns: nat, period: real)
    requires 512 * r - 1000 <= 2000 * subns <= 512 * r + 1000
    requires var x := (1000 * ns + r) as real / 1000.0; x <= period <= x + 1.0 / 1000.0
    ensures period - (1.0 / 512.0 + 1.0 / 1000.0) <= ns as real + subns as real / 256.0 <= period + 1.0 / 512.0
  {
    var s, t, n := subns as real, r as real, ns as real;
    assert 512.0 * t - 1000.0 <= 2000.0 * s <= 512.0 * t + 1000.0;
    assert (1000 * ns + r) as real == 1000.0 * n + t;
  }

  /** The true period lies in the picosecond that the two quotients name. */
  lemma PeriodDigits(p: nat)
    requires p > 0
    ensures var x := (1000 * (NSEC_PER_SEC / p) + Remainder(p)) as real / 1000.0;
            x <= NSEC_PER_SEC as real / p as real <= x + 1.0 / 1000.0
  {
    var q := (NSEC_PER_SEC * 1000) / p;
    QuotientBounds(NSEC_PER_SEC * 1000, p);
    QuotientOfReals(NSEC_PER_SEC * 1000, p, q);
    ScaledQuotient(p);
  }

  lemma QuotientBounds(x: nat, p: nat)
    requires p > 0
    ensures (x / p) * p <= x < (x / p + 1) * p
  {
  }

  lemma QuotientOfReals(x: nat, p: nat, q: nat)
    requires p > 0 && q * p <= x < (q + 1) * p
    ensures q as real <= x as real / p as real <= q as real + 1.0
  {
    ProductOfReals(q, p);
    ProductOfReals(q + 1, p);
    assert (q * p) as real <= x as real <= ((q + 1) * p) as real;
    QuotientBetween(q as real, x as real, (q + 1) as real, p as real);
  }

  lemma QuotientBetween(lo: real, x: real, hi: real, p: real)
    requires p > 0.0 && lo * p <= x <= hi * p
    ensures lo <= x / p <= hi
  {
    assert (x / p) * p == x;
    CancelReal(lo, x / p, p);
    CancelReal(x / p, hi, p);
  }

  lemma {:induction false} ProductOfReals(a: nat, b: nat)
    ensures (a * b) as real == a as real * b as real
  {
    if a > 0 {
      ProductOfReals(a - 1, b);
      assert a * b == (a - 1) * b + b;
      assert a as real == (a - 1) as real + 1.0;
    }
  }

  lemma ScaledQuotient(p: nat)
    requires p > 0
    ensures (NSEC_PER_SEC * 1000) as real / p as real == 1000.0 * (NSEC_PER_SEC as real / p as real)
  {
  }

  lemma CancelReal(a: real, b: real, p: real)
    requires p > 0.0 && a * p <= b * p
    ensures a <= b
  {
  }
}
