/** Receive-interrupt coalescing: microseconds and watchdog units. */
module Coalesce {
  import opened Numbers

  const SYSCLOCK := 250_000_000
  const MAX_DMA_RIWT := 0xFF
  const MIN_DMA_RIWT := 1
  const RX_MAX_FRAMES := 32
  const TX_MAX_FRAMES := 256
  const MAX_COAL_TX_TICK := 100000

  /** Clock cycles per microsecond; a clock of unknown rate counts as the system clock. */
  function Mhz(clk: nat): nat {
    (if clk == 0 then SYSCLOCK else clk) / 1000000
  }

  /** A clock of unknown rate counts as 250 MHz. */
  lemma UnknownClock()
    ensures Mhz(0) == 250
  {
  }

  /** The watchdog count in units of `mult` clock cycles, as a 32-bit number. */
  function Quotient(usec: nat, mhz: nat, mult: nat): nat
    requires mult > 0
  {
    (usec * mhz / mult) % TWO_32
  }

  predicate IsUnit(mult: nat) {
    mult == 256 || mult == 512 || mult == 1024 || mult == 2048
  }

  /** The count in the least unit in which it fits 8 bits, else in the largest unit. */
  function Chosen(usec: nat, mhz: nat): nat {
    if Quotient(usec, mhz, 256) <= 0xFF then Quotient(usec, mhz, 256)
    else if Quotient(usec, mhz, 512) <= 0xFF then Quotient(usec, mhz, 512)
    else if Quotient(usec, mhz, 1024) <= 0xFF then Quotient(usec, mhz, 1024)
    else Quotient(usec, mhz, 2048)
  }

  /** tc956xmac_usec2riwt: the count in the least of the four units in which it fits 8 bits, and in
      the largest unit if it fits in none. */
  method UsecToRiwt(usec: nat, clk: nat) returns (value: nat, ghost unit: nat)
    ensures IsUnit(unit) && value == Quotient(usec, Mhz(clk), unit)
    ensures forall mult: nat :: IsUnit(mult) && mult < unit ==> Quotient(usec, Mhz(clk), mult) > 0xFF
    ensures value > 0xFF ==> unit == 2048
    ensures value == Chosen(usec, Mhz(clk))
  {
    var mult := 256;
    unit := 256;
    value := Quotient(usec, Mhz(clk), mult);
    while mult <= 2048
      invariant IsUnit(mult) || mult == 4096
      invariant forall u: nat :: IsUnit(u) && u < mult ==> Quotient(usec, Mhz(clk), u) > 0xFF
      invariant if mult == 256 then unit == 256 else 2 * unit == mult && IsUnit(unit)
      invariant value == Quotient(usec, Mhz(clk), unit)
    {
      value := Quotient(usec, Mhz(clk), mult);
      unit := mult;
      if value <= 0xFF {
        break;
      }
      mult := mult * 2;
    }
  }

  /** The unit that tc956xmac_riwt2usec takes a count to be in. */
  function AssumedUnit(riwt: nat): nat {
    if riwt > 1024 * 0xFF then 2048 else if riwt > 512 * 0xFF then 1024 else if riwt > 256 * 0xFF then 512 else 256
  }

  /** A count is taken to be in the least unit of which 255 reach it, and else in the largest. */
  lemma UnitOfCount(riwt: nat)
    ensures var unit := AssumedUnit(riwt);
            && IsUnit(unit)
            && (unit == 2048 || riwt <= 255 * unit)
            && (unit == 256 || riwt > 255 * (unit / 2))
  {
  }

  /** tc956xmac_riwt2usec, for a clock of at least 1 MHz. */
  function RiwtToUsec(riwt: nat, clk: nat): nat
    requires Mhz(clk) > 0
  {
    ((riwt * AssumedUnit(riwt)) % TWO_32) / Mhz(clk)
  }

  lemma QuotientBounds(x: nat, d: nat)
    requires d > 0
    ensures d * (x / d) <= x < d * (x / d) + d
  {
  }

  function CeilDiv(a: nat, b: nat): nat
    requires b > 0
  {
    (a + b - 1) / b
  }

  lemma CancelLess(a: int, b: int, d: nat)
    requires d * a < d * b
    ensures a < b
  {
  }

  /** Whenever the setting fits the smallest unit, reading it back loses at most one unit, rounded
      up to whole microseconds, and never adds time. */
  lemma RoundTripLoss(usec: nat, clk: nat)
    requires Mhz(clk) > 0 && usec * Mhz(clk) / 256 <= 0xFF
    ensures var back := ReadBack(usec, clk); back <= usec <= back + CeilDiv(256, Mhz(clk))
  {
    var mhz := Mhz(clk);
    var x := usec * mhz;
    var r := x / 256;
    FittingCount(x, usec, mhz);
    SmallCount(r, clk);
    QuotientBounds(x, 256);
    QuotientBounds(r * 256, mhz);
    QuotientBounds(256 + mhz - 1, mhz);
    hide Chosen, RiwtToUsec, Quotient;
    LossBound(usec, mhz, r, (r * 256) / mhz, CeilDiv(256, mhz));
  }

  lemma FittingCount(x: nat, usec: nat, mhz: nat)
    requires x == usec * mhz && x / 256 <= 0xFF
    ensures Chosen(usec, mhz) == x / 256
  {
    SmallMod(x / 256);
  }

  /** An 8-bit count is taken to be in the smallest unit. */
  lemma SmallCount(r: nat, clk: nat)
    requires Mhz(clk) > 0 && r <= 0xFF
    ensures RiwtToUsec(r, clk) == (r * 256) / Mhz(clk)
  {
    assert (r * 256) % TWO_32 == r * 256;
  }

  /** What is read back after an accepted setting. */
  function ReadBack(usec: nat, clk: nat): nat
    requires Mhz(clk) > 0
  {
    RiwtToUsec(Chosen(usec, Mhz(clk)), clk)
  }

  lemma LossBound(usec: nat, mhz: nat, r: nat, back: nat, c: nat)
    requires 256 * r <= usec * mhz < 256 * r + 256
    requires mhz * back <= 256 * r < mhz * back + mhz
    requires 256 <= mhz * c
    ensures back <= usec <= back + c
  {
    assert mhz * (usec + 1) == mhz * usec + mhz;
    CancelLess(back, usec + 1, mhz);
    assert mhz * (back + c + 1) == mhz * back + mhz * c + mhz;
    CancelLess(usec, back + c + 1, mhz);
  }

  /** Every setting that is accepted without fitting the smallest unit reads back as at most half
      of it: the unit is not kept, and a count that wrapped around is smaller still. */
  lemma LargerUnitReadsBackShort(usec: nat, clk: nat)
    requires Mhz(clk) > 0 && Chosen(usec, Mhz(clk)) <= 0xFF && usec * Mhz(clk) / 256 > 0xFF
    ensures 2 * ReadBack(usec, clk) <= usec
  {
    var mhz := Mhz(clk);
    var x, r := usec * mhz, Chosen(usec, mhz);
    ChosenIsShort(x, usec, mhz);
    SmallCount(r, clk);
    QuotientBounds(r * 256, mhz);
    hide Chosen, RiwtToUsec, Quotient;
    HalfBound(usec, mhz, r, (r * 256) / mhz);
  }

  lemma HalfBound(usec: nat, mhz: nat, r: nat, back: nat)
    requires mhz > 0 && 512 * r <= usec * mhz && mhz * back <= 256 * r
    ensures 2 * back <= usec
  {
    assert mhz * (2 * back) == 2 * (mhz * back);
    assert mhz * (usec + 1) == mhz * usec + mhz;
    CancelLess(2 * back, usec + 1, mhz);
  }

  /** The count of a setting that does not fit the smallest unit, taken in that unit. */
  lemma ChosenIsShort(x: nat, usec: nat, mhz: nat)
    requires x == usec * mhz && Chosen(usec, mhz) <= 0xFF && x / 256 > 0xFF
    ensures 512 * Chosen(usec, mhz) <= x
  {
    CutQuotient(x, 256);
    CutQuotient(x, 512);
    CutQuotient(x, 1024);
    CutQuotient(x, 2048);
  }

  /** A quotient is itself, or was cut and comes from a number beyond 32 bits. */
  lemma CutQuotient(x: nat, d: nat)
    requires d > 0
    ensures d * (x / d) <= x
    ensures (x / d) % TWO_32 == x / d || TWO_32 <= x / d <= x
  {
    var q := x / d;
    QuotientBounds(x, d);
    assert d * q == q + (d - 1) * q;
    Product(d - 1, q);
    if q < TWO_32 {
      SmallMod(q);
    }
  }

  lemma Product(a: nat, b: nat)
    ensures a * b >= 0
  {
  }

  lemma SmallMod(q: nat)
    requires q < TWO_32
    ensures q % TWO_32 == q
  {
  }

  /** Fast enough for rounding to whole microseconds to hide the missing half. */
  const FASTEST_MHZ := 32_000

  /** An accepted setting reads back within one unit, rounded up, exactly if it fits the smallest
      unit. */
  lemma ReadsBackIff(usec: nat, clk: nat)
    requires 0 < Mhz(clk) <= FASTEST_MHZ && Chosen(usec, Mhz(clk)) <= 0xFF
    ensures var back := ReadBack(usec, clk);
            back <= usec <= back + CeilDiv(256, Mhz(clk)) <==> usec * Mhz(clk) / 256 <= 0xFF
  {
    var mhz, back := Mhz(clk), ReadBack(usec, clk);
    if usec * mhz / 256 <= 0xFF {
      RoundTripLoss(usec, clk);
    } else {
      LargerUnitReadsBackShort(usec, clk);
      QuotientBounds(usec * mhz, 256);
      QuotientBounds(256 + mhz - 1, mhz);
      var c := CeilDiv(256, mhz);
      assert mhz * (2 * c) == 2 * (mhz * c) <= 2 * (256 + mhz);
      CancelLess(2 * c, usec, mhz);
      hide CeilDiv, ReadBack;
      assert 2 * (back + c) < 2 * usec;
    }
  }

  /** Such settings are accepted: 400 microseconds at 250 MHz need the unit 512. */
  lemma LargerUnitOccurs()
    ensures Chosen(400, Mhz(250_000_000)) == 195 && ReadBack(400, 250_000_000) == 199
  {
    assert Mhz(250_000_000) == 250;
    assert Quotient(400, 250, 256) == 390 && Quotient(400, 250, 512) == 195;
    assert RiwtToUsec(195, 250_000_000) == 195 * 256 / 250;
  }

  // ----- setting -----

  datatype Settings = Settings(unsupported: bool, rxUsecs: nat, rxFrames: nat, txUsecs: nat, txFrames: nat)

  datatype Status = Done | Invalid | Unsupported

  /** The private fields that the setting changes, and the watchdog register. */
  class Private {
    const useRiwt: bool
    const clk: nat
    var rxRiwt: nat
    var watchdog: nat
    var txFrames: nat
    var txTimer: nat
    var rxFrames: nat

    constructor (useRiwt: bool, clk: nat)
      ensures this.useRiwt == useRiwt && this.clk == clk
    {
      this.useRiwt, this.clk := useRiwt, clk;
      rxRiwt, watchdog, txFrames, txTimer, rxFrames := 0, 0, 0, 0, 0;
    }

    predicate LimitsOk(ec: Settings) {
      && ec.rxFrames <= RX_MAX_FRAMES && !(ec.txUsecs == 0 && ec.txFrames == 0)
      && ec.txUsecs <= MAX_COAL_TX_TICK && ec.txFrames <= TX_MAX_FRAMES
    }

    /** The limits in numbers. */
    lemma LimitsMeaning(ec: Settings)
      ensures LimitsOk(ec) <==>
              ec.rxFrames <= 32 && ec.txFrames <= 256 && ec.txUsecs <= 100_000 && (ec.txUsecs > 0 || ec.txFrames > 0)
      ensures CountOk(ec) <==> 1 <= Chosen(ec.rxUsecs, Mhz(clk)) <= 255
    {
      hide Chosen, Mhz;
    }

    predicate SetsWatchdog(ec: Settings) {
      !ec.unsupported && useRiwt && ec.rxUsecs > 0
    }

    predicate CountOk(ec: Settings) {
      MIN_DMA_RIWT <= Chosen(ec.rxUsecs, Mhz(clk)) <= MAX_DMA_RIWT
    }

    /** tc956xmac_set_coalesce: the frame and timer fields change only if everything is valid, but
        a valid receive time is already in force when a later check refuses the rest. */
    method SetCoalesce(ec: Settings) returns (status: Status)
      modifies this
      ensures status == Unsupported <==> ec.unsupported
      ensures status == Done <==>
              && !ec.unsupported && LimitsOk(ec) && (SetsWatchdog(ec) ==> CountOk(ec))
      ensures status == Done ==>
                && ec.rxFrames <= 32 && ec.txFrames <= 256 && ec.txUsecs <= 100_000 && ec.txFrames + ec.txUsecs > 0
                && (useRiwt && ec.rxUsecs > 0 ==> 1 <= rxRiwt <= 255)
      ensures if SetsWatchdog(ec) && CountOk(ec)
              then rxRiwt == watchdog == Chosen(ec.rxUsecs, Mhz(clk))
              else rxRiwt == old(rxRiwt) && watchdog == old(watchdog)
      ensures if status == Done
              then txFrames == ec.txFrames && txTimer == ec.txUsecs && rxFrames == ec.rxFrames
              else txFrames == old(txFrames) && txTimer == old(txTimer) && rxFrames == old(rxFrames)
    {
      if ec.unsupported {
        return Unsupported;
      }
      if useRiwt && ec.rxUsecs > 0 {
        var riwt;
        ghost var unit;
        riwt, unit := UsecToRiwt(ec.rxUsecs, clk);
        if riwt > MAX_DMA_RIWT || riwt < MIN_DMA_RIWT {
          return Invalid;
        }
        rxRiwt := riwt;
        watchdog := riwt;
      }
      if ec.rxFrames > RX_MAX_FRAMES {
        return Invalid;
      }
      if ec.txUsecs == 0 && ec.txFrames == 0 {
        return Invalid;
      }
      if ec.txUsecs > MAX_COAL_TX_TICK || ec.txFrames > TX_MAX_FRAMES {
        return Invalid;
      }
      txFrames, txTimer, rxFrames := ec.txFrames, ec.txUsecs, ec.rxFrames;
      status := Done;
    }
  }
}
