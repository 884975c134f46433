/** Setting up a time-aware schedule: filling the configuration in place and writing it to the
    hardware. */
module GateSchedule {
  import opened GateList
  import opened Numbers
  import opened Waits

  const EST_GCL := 1024

  datatype Request = Request(enable: bool, baseTime: int, cycleTime: nat, entries: seq<GateEntry>)

  /** What the hardware supports. */
  datatype Capabilities = Capabilities(estsel: bool, estwid: nat, estdep: nat, fpesel: bool)

  /** Base time, cycle time, time extension and list length, as the hardware has them. */
  datatype Registers = Registers(btrLow: nat, btrHigh: nat, ter: nat, llr: nat, ctrLow: nat, ctrHigh: nat)

  /** Seconds and nanoseconds as the pair (nanoseconds, 32-bit seconds). */
  function SplitTime(t: int): (p: (nat, nat))
    ensures p.0 < NSEC_PER_SEC && p.1 < TWO_32
    ensures (t - (p.1 * NSEC_PER_SEC + p.0)) % SPAN == 0
  {
    SplitTimeWraps(t);
    (t % NSEC_PER_SEC, (t / NSEC_PER_SEC) % TWO_32)
  }

  /** 2^32 seconds. */
  const SPAN := 4_294_967_296_000_000_000

  /** The pair is the time but for whole multiples of 2^32 seconds. */
  lemma SplitTimeWraps(t: int)
    ensures (t - ((t / NSEC_PER_SEC) % TWO_32 * NSEC_PER_SEC + t % NSEC_PER_SEC)) % SPAN == 0
  {
    var q, r := t / NSEC_PER_SEC, t % NSEC_PER_SEC;
    var k := q / TWO_32;
    assert q == k * TWO_32 + q % TWO_32;
    assert t - (q % TWO_32 * NSEC_PER_SEC + r) == k * SPAN;
    MultipleOfSpan(k);
  }

  lemma MultipleOfSpan(k: int)
    ensures (k * SPAN) % SPAN == 0
  {
  }

  /** The pair stands for the time exactly if it is not negative and its seconds fit 32 bits. */
  lemma SplitTimeExactIff(t: int)
    ensures SplitTime(t).1 * NSEC_PER_SEC + SplitTime(t).0 == t <==> 0 <= t < TWO_32 * NSEC_PER_SEC
  {
  }

  /** The schedule engine: its registers and its list memory, written through one window. */
  class Engine {
    var registers: Registers
    var list: seq<nat>
    var enabled: bool
    var preemption: bool

    /** Whether the n-th write times out. */
    const timesOut: nat -> bool
    var writes: nat

    predicate Valid()
      reads this
    {
      |list| == EST_GCL
    }

    constructor (timesOut: nat -> bool)
      ensures Valid() && this.timesOut == timesOut && !enabled
    {
      this.timesOut := timesOut;
      registers, list := Registers(0, 0, 0, 0, 0, 0), seq(EST_GCL, _ => 0);
      enabled, preemption, writes := false, false, 0;
    }

    /** dwxgmac3_est_write to a register: `next` is the registers with one of them written. */
    method WriteRegister(next: Registers) returns (ok: bool)
      modifies this`registers, this`writes
      ensures registers == next && writes == old(writes) + 1 && ok == !timesOut(old(writes))
    {
      registers := next;
      ok := !timesOut(writes);
      writes := writes + 1;
    }

    /** dwxgmac3_est_write to the list. */
    method WriteEntry(i: nat, val: nat) returns (ok: bool)
      requires Valid() && i < EST_GCL
      modifies this`list, this`writes
      ensures Valid() && list == old(list)[i := val] && writes == old(writes) + 1 && ok == !timesOut(old(writes))
    {
      list := list[i := val];
      ok := !timesOut(writes);
      writes := writes + 1;
    }
  }

  /** plat->est */
  class Config {
    var enable: bool
    const gcl: array<nat>
    var gclSize: nat
    var btr: (nat, nat)
    var ctr: (nat, nat)
    var ter: nat

    predicate Valid()
      reads this
    {
      gcl.Length == EST_GCL && gclSize <= EST_GCL
    }

    constructor ()
      ensures Valid() && fresh(gcl) && gcl.Length == 1024
    {
      gcl := new nat[EST_GCL](_ => 0);
      enable, gclSize, btr, ctr, ter := false, 0, (0, 0), (0, 0), 0;
    }

    /** memset */
    method Clear()
      requires Valid()
      modifies this, gcl
      ensures Valid() && !enable && gclSize == 0 && btr == (0, 0) && ctr == (0, 0) && ter == 0
      ensures forall i :: 0 <= i < 1024 ==> gcl[i] == 0
    {
      enable, gclSize, btr, ctr, ter := false, 0, (0, 0), (0, 0), 0;
      for i := 0 to EST_GCL
        invariant Valid() && !enable && gclSize == 0 && btr == (0, 0) && ctr == (0, 0) && ter == 0
        invariant forall j :: 0 <= j < i ==> gcl[j] == 0
      {
        gcl[i] := 0;
      }
    }
  }

  /** The hardware holds the configuration. */
  predicate Holds(dev: Engine, est: Config)
    reads dev, est, est.gcl
  {
    && dev.Valid() && est.Valid() && dev.enabled == est.enable
    && dev.registers == Registers(est.btr.0, est.btr.1, est.ter, est.gclSize, est.ctr.0, est.ctr.1)
    && dev.list[..est.gclSize] == est.gcl[..est.gclSize]
  }

  /** The register writes of dwxgmac3_est_configure: all are made, and only then checked. */
  method WriteRegisters(dev: Engine, est: Config) returns (ok: bool)
    modifies dev`registers, dev`writes
    ensures dev.registers == Registers(est.btr.0, est.btr.1, est.ter, est.gclSize, est.ctr.0, est.ctr.1)
    ensures dev.writes == old(dev.writes) + 6 && ok == NoTimeout(dev.timesOut, old(dev.writes), dev.writes)
  {
    var ok0 := dev.WriteRegister(dev.registers.(btrLow := est.btr.0));
    var ok1 := dev.WriteRegister(dev.registers.(btrHigh := est.btr.1));
    var ok2 := dev.WriteRegister(dev.registers.(ter := est.ter));
    var ok3 := dev.WriteRegister(dev.registers.(llr := est.gclSize));
    var ok4 := dev.WriteRegister(dev.registers.(ctrLow := est.ctr.0));
    var ok5 := dev.WriteRegister(dev.registers.(ctrHigh := est.ctr.1));
    ok := ok0 && ok1 && ok2 && ok3 && ok4 && ok5;
  }

  /** dwxgmac3_est_configure */
  method EstConfigure(dev: Engine, est: Config) returns (ok: bool)
    requires dev.Valid() && est.Valid()
    modifies dev
    ensures dev.Valid() && dev.preemption == old(dev.preemption)
    ensures ok ==> Holds(dev, est)
    ensures !ok ==> dev.enabled == old(dev.enabled)
    ensures ok == NoTimeout(dev.timesOut, old(dev.writes), dev.writes) && dev.writes > old(dev.writes)
  {
    ok := WriteRegisters(dev, est);
    if !ok {
      return;
    }
    ghost var regs := dev.registers;
    for i := 0 to est.gclSize
      invariant dev.Valid() && dev.registers == regs && ok
      invariant dev.enabled == old(dev.enabled) && dev.preemption == old(dev.preemption)
      invariant dev.writes > old(dev.writes) && NoTimeout(dev.timesOut, old(dev.writes), dev.writes)
      invariant forall j :: 0 <= j < i ==> dev.list[j] == est.gcl[j]
    {
      ok := dev.WriteEntry(i, est.gcl[i]);
      if !ok {
        return;
      }
    }
    dev.enabled := est.enable;
  }

  /** The packed words of a list. */
  function PackedList(es: seq<GateEntry>, wid: nat): (words: seq<nat>)
    requires Width(wid)
    ensures |words| == |es|
  {
    seq(|es|, i requires 0 <= i < |es| => Pack(es[i].interval, AdjustedGates(es[i]), wid))
  }

  /** The loop over the entries: checks each one and stores its packed word.  `fpe` tells whether
      there was a preemption command. */
  method FillList(est: Config, es: seq<GateEntry>, wid: nat) returns (status: Status, fpe: bool)
    requires est.Valid() && Width(wid) && |es| <= EST_GCL
    modifies est.gcl
    ensures status == CheckEntries(es, wid, false)
    ensures status == Accepted ==> && est.gcl[..|es|] == PackedList(es, wid)
                                   && (fpe <==> exists i :: 0 <= i < |es| && IsPreemption(es[i]))
  {
    hide InRange, Pack, AdjustedGates;
    fpe := false;
    for i := 0 to |es|
      invariant CheckEntries(es, wid, false) == CheckEntries(es[i..], wid, fpe)
      invariant fpe <==> exists j :: 0 <= j < i && IsPreemption(es[j])
      invariant est.gcl[..i] == PackedList(es, wid)[..i]
    {
      assert es[i..] == [es[i]] + es[i + 1..];
      var e := es[i];
      var gates := e.gates;
      if !InRange(e, wid) {
        return OutOfRange, fpe;
      }
      match e.command {
        case SetGates =>
          if fpe {
            return Misplaced, fpe;
          }
        case SetAndHold =>
          gates := gates - gates % 2 + 1;
          fpe := true;
        case SetAndRelease =>
          gates := gates - gates % 2;
          fpe := true;
        case OtherCommand =>
          return Unsupported, fpe;
      }
      assert gates == AdjustedGates(e) by { GatesAdjusted(e); }
      est.gcl[i] := Pack(e.interval, gates, wid);
    }
    status := Accepted;
  }

  lemma GatesAdjusted(e: GateEntry)
    ensures AdjustedGates(e) == if e.command == SetAndHold then e.gates - e.gates % 2 + 1
                                else if e.command == SetAndRelease then e.gates - e.gates % 2 else e.gates
  {
  }

  /** The checks before the list is looked at. */
  function CheckRequest(req: Request, cap: Capabilities): Status {
    if !cap.estsel || DecodeWidth(cap.estwid).None? || DecodeDepth(cap.estdep).None? then Unsupported
    else if !req.enable then Accepted
    else if |req.entries| >= DecodeDepth(cap.estdep).value then TooLong
    else if req.baseTime == 0 || req.cycleTime == 0 then OutOfRange
    else Accepted
  }

  /** Why a request is refused before the hardware is touched, or Accepted. */
  function Refusal(req: Request, cap: Capabilities): Status {
    if CheckRequest(req, cap) != Accepted || !req.enable then CheckRequest(req, cap)
    else
      var wid := DecodeWidth(cap.estwid).value;
      if CheckEntries(req.entries, wid, false) != Accepted then CheckEntries(req.entries, wid, false)
      else if !cap.fpesel && exists i :: 0 <= i < |req.entries| && IsPreemption(req.entries[i]) then Unsupported
      else Accepted
  }

  /** The refusals one by one, with the sizes that the hardware reports decoded. */
  lemma RefusalMeaning(req: Request, cap: Capabilities)
    ensures var known := cap.estsel && 1 <= cap.estwid <= 3 && 1 <= cap.estdep <= 5;
            var r := Refusal(req, cap);
            && (!known ==> r == Unsupported)
            && (known && !req.enable ==> r == Accepted)
            && (known && req.enable && |req.entries| >= 32 * Pow2(cap.estdep) ==> r == TooLong)
            && var fits := known && req.enable && |req.entries| < 32 * Pow2(cap.estdep);
            && (fits && (req.baseTime == 0 || req.cycleTime == 0) ==> r == OutOfRange)
            && (fits && req.baseTime != 0 && req.cycleTime != 0 ==>
                  var listed := CheckEntries(req.entries, 12 + 4 * cap.estwid, false);
                  r == if listed != Accepted then listed
                       else if !cap.fpesel && exists i :: 0 <= i < |req.entries| && IsPreemption(req.entries[i])
                       then Unsupported else Accepted)
  {
    hide CheckEntries, Pow2;
  }

  /** tc_setup_taprio.  A schedule that is set up is one that passes the checks, and the hardware
      then holds it: its packed list, its times and, for preemption commands, preemption.
      Switching off always reports success, but leaves the schedule on if a write timed out. */
  method SetupTaprio(dev: Engine, est: Config, req: Request, cap: Capabilities) returns (status: Status)
    requires dev.Valid() && est.Valid()
    modifies dev, est, est.gcl
    ensures dev.Valid() && est.Valid()
    ensures Refusal(req, cap) != Accepted ==> status == Refusal(req, cap) && unchanged(dev)
    ensures Refusal(req, cap) == Accepted && req.enable ==>
              status == if NoTimeout(dev.timesOut, old(dev.writes), dev.writes) then Accepted else TimedOut
    ensures Refusal(req, cap) == Accepted && !req.enable ==>
              && status == Accepted && !est.enable
              && dev.enabled == (old(dev.enabled) && !NoTimeout(dev.timesOut, old(dev.writes), dev.writes))
    ensures dev.enabled && !old(dev.enabled) ==> status == Accepted && req.enable
    ensures status == Accepted && req.enable ==>
              && CheckRequest(req, cap) == Accepted
              && var wid := DecodeWidth(cap.estwid).value;
                 && CheckEntries(req.entries, wid, false) == Accepted
                 && dev.registers.llr == |req.entries| && dev.registers.ter == 0
                 && Holds(dev, est) && dev.enabled && est.gclSize == |req.entries| < DecodeDepth(cap.estdep).value
                 && dev.list[..|req.entries|] == PackedList(req.entries, wid)
                 && (dev.registers.ctrLow, dev.registers.ctrHigh) == SplitTime(req.cycleTime)
                 && (dev.registers.btrLow, dev.registers.btrHigh) == SplitTime(req.baseTime)
                 && (dev.preemption <==> exists i :: 0 <= i < |req.entries| && IsPreemption(req.entries[i]))
                 && (dev.preemption ==> cap.fpesel)
  {
    status := CheckRequest(req, cap);
    if status != Accepted {
      return;
    }
    var ok;
    if !req.enable {
      est.enable := false;
      ok := EstConfigure(dev, est);
      return;
    }
    est.Clear();
    est.gclSize := |req.entries|;
    est.enable := req.enable;
    var fpe;
    status, fpe := FillList(est, req.entries, DecodeWidth(cap.estwid).value);
    if status != Accepted {
      return;
    }
    est.btr := SplitTime(req.baseTime);
    est.ctr := SplitTime(req.cycleTime);
    if fpe && !cap.fpesel {
      return Unsupported;
    }
    dev.preemption := fpe;
    ok := EstConfigure(dev, est);
    if !ok {
      est.enable := false;
      ghost var writes := dev.writes;
      ok := EstConfigure(dev, est);
      NoTimeoutSplit(dev.timesOut, old(dev.writes), writes, dev.writes);
      status := TimedOut;
    }
  }
}
