/** Time-aware schedules (IEEE 802.1Q-2018, section 8.6.8.4): checking a requested gate control
    list and packing it into the words the hardware takes. */
module GateList {
  import opened Numbers
  import opened Wrappers

  datatype Command = SetGates | SetAndHold | SetAndRelease | OtherCommand

  /** Interval in nanoseconds and gate mask, both 32-bit. */
  datatype GateEntry = GateEntry(interval: nat, gates: nat, command: Command)

  datatype Status = Accepted | OutOfRange | Misplaced | Unsupported | TooLong | TimedOut

  /** The interval widths the hardware comes in: 16, 20 and 24 bits. */
  function DecodeWidth(estwid: nat): (r: Option<nat>)
    ensures r.Some? <==> 1 <= estwid <= 3
    ensures r.Some? ==> r.value == 12 + 4 * estwid
  {
    match estwid case 1 => Some(16) case 2 => Some(20) case 3 => Some(24) case _ => None
  }

  /** The list depths the hardware comes in: 64 to 1024 entries. */
  function DecodeDepth(estdep: nat): (r: Option<nat>)
    ensures r.Some? <==> 1 <= estdep <= 5
    ensures r.Some? ==> r.value == 32 * Pow2(estdep)
  {
    match estdep
    case 1 => Some(64)
    case 2 => Some(128)
    case 3 => Some(256)
    case 4 => Some(512)
    case 5 => Some(1024)
    case _ => None
  }

  predicate Width(wid: nat) {
    wid == 16 || wid == 20 || wid == 24
  }

  /** 2^wid: the interval field takes the values below. */
  function FieldSize(wid: nat): nat
    requires Width(wid)
  {
    if wid == 16 then 0x1_0000 else if wid == 20 then 0x10_0000 else 0x100_0000
  }

  /** 2^(32 - wid): the gate field takes the values below. */
  function GateLimit(wid: nat): nat
    requires Width(wid)
  {
    if wid == 16 then 0x1_0000 else if wid == 20 then 0x1000 else 0x100
  }

  /** The two fields of a word as powers of two. */
  lemma FieldSizes(wid: nat)
    requires Width(wid)
    ensures FieldSize(wid) == Pow2(wid) && GateLimit(wid) == Pow2(32 - wid) && 2 * FieldSize(wid) == Pow2(wid + 1)
  {
    ByteShifts();
    ShiftsAdd(16, 4);
    ShiftsAdd(8, 4);
    assert Pow2(4) == 16;
  }

  // ----- checking -----

  /** The range checks as they are: one bit more than the interval field has. */
  predicate InRange(e: GateEntry, wid: nat)
    requires Width(wid)
  {
    e.interval < 2 * FieldSize(wid) && e.gates < GateLimit(wid)
  }

  /** In range: an interval of at most `wid + 1` bits, and gates of at most `32 - wid`. */
  lemma {:induction false} InRangeMeaning(e: GateEntry, wid: nat)
    requires Width(wid)
    ensures InRange(e, wid) <==> e.interval < Pow2(wid + 1) && e.gates < Pow2(32 - wid)
  {
    FieldSizes(wid);
    hide Pow2;
  }

  predicate IsPreemption(e: GateEntry) {
    e.command == SetAndHold || e.command == SetAndRelease
  }

  /** The checks on one entry, after a preemption command or not. */
  function CheckEntry(e: GateEntry, wid: nat, fpe: bool): Status
    requires Width(wid)
  {
    if !InRange(e, wid) then OutOfRange
    else if e.command == OtherCommand then Unsupported
    else if e.command == SetGates && fpe then Misplaced
    else Accepted
  }

  /** The checks of the whole loop: the first entry that fails decides. */
  function CheckEntries(es: seq<GateEntry>, wid: nat, fpe: bool): Status
    requires Width(wid)
  {
    if es == [] then Accepted
    else if CheckEntry(es[0], wid, fpe) != Accepted then CheckEntry(es[0], wid, fpe)
    else CheckEntries(es[1..], wid, fpe || IsPreemption(es[0]))
  }

  /** The first entry that fails decides the status: out of range first, then an unknown command, then
      SET_GATES after a preemption command. */
  lemma {:induction false} FirstFailure(es: seq<GateEntry>, wid: nat, fpe: bool, i: nat)
    requires Width(wid) && i < |es|
    requires CheckEntries(es[..i], wid, fpe) == Accepted
    ensures var after := fpe || exists j :: 0 <= j < i && IsPreemption(es[j]);
            var inRange := InRange(es[i], wid);
            && (!inRange ==> CheckEntries(es, wid, fpe) == OutOfRange)
            && (inRange && es[i].command == OtherCommand ==> CheckEntries(es, wid, fpe) == Unsupported)
            && (inRange && es[i].command == SetGates && after ==> CheckEntries(es, wid, fpe) == Misplaced)
    decreases i
  {
    hide InRange;
    if i > 0 {
      var rest, fpe' := es[1..], fpe || IsPreemption(es[0]);
      assert es[..i][0] == es[0] && es[..i][1..] == rest[..i - 1];
      FirstFailure(rest, wid, fpe', i - 1);
      assert rest[i - 1] == es[i];
      PreemptionBefore(es, i);
    }
  }

  lemma PreemptionBefore(es: seq<GateEntry>, i: nat)
    requires 0 < i < |es|
    ensures (exists j :: 0 <= j < i && IsPreemption(es[j]))
            <==> IsPreemption(es[0]) || exists j :: 0 <= j < i - 1 && IsPreemption(es[1..][j])
  {
    if j :| 0 < j < i && IsPreemption(es[j]) { assert IsPreemption(es[1..][j - 1]); }
    if j :| 0 <= j < i - 1 && IsPreemption(es[1..][j]) { assert IsPreemption(es[j + 1]); }
  }

  /** SET_GATES* (HOLD | RELEASE)*, with the preemption commands from `k` on. */
  predicate ShapeFrom(es: seq<GateEntry>, k: nat) {
    && k <= |es|
    && (forall i :: 0 <= i < k ==> es[i].command == SetGates)
    && (forall i :: k <= i < |es| ==> IsPreemption(es[i]))
  }

  /** A list is accepted exactly if every entry is in range and its commands are of the form
      SET_GATES* (HOLD | RELEASE)*. */
  lemma {:induction false} AcceptedIff(es: seq<GateEntry>, wid: nat, fpe: bool)
    requires Width(wid)
    ensures CheckEntries(es, wid, fpe) == Accepted <==>
            && (forall i :: 0 <= i < |es| ==> InRange(es[i], wid))
            && (if fpe then ShapeFrom(es, 0) else exists k: nat :: ShapeFrom(es, k))
    decreases |es|
  {
    hide InRange;
    if es == [] {
      assert ShapeFrom(es, 0);
    } else {
      var rest, fpe' := es[1..], fpe || IsPreemption(es[0]);
      AcceptedIff(rest, wid, fpe');
      assert es == [es[0]] + rest;
      if CheckEntries(es, wid, fpe) == Accepted {
        if fpe' {
          assert ShapeFrom(es, 0);
        } else {
          var k: nat :| ShapeFrom(rest, k);
          assert ShapeFrom(es, k + 1);
        }
      }
      if !fpe && exists k: nat :: ShapeFrom(es, k) {
        var k: nat :| ShapeFrom(es, k);
        assert ShapeFrom(rest, if k == 0 then 0 else k - 1);
      }
    }
  }

  // ----- packing -----

  /** The gate mask after the command's adjustment of gate 0. */
  function AdjustedGates(e: GateEntry): (g: nat)
    ensures g / 2 == e.gates / 2
    ensures e.command == SetAndHold ==> g % 2 == 1
    ensures e.command == SetAndRelease ==> g % 2 == 0
    ensures e.command != SetAndHold && e.command != SetAndRelease ==> g == e.gates
  {
    match e.command
    case SetAndHold => e.gates - e.gates % 2 + 1
    case SetAndRelease => e.gates - e.gates % 2
    case _ => e.gates
  }

  /** interval | (gates << wid), in 32 bits.  A range-checked interval has at most one bit above
      its field, and that bit falls on gate 0. */
  function Pack(interval: nat, gates: nat, wid: nat): nat
    requires Width(wid)
  {
    var m := FieldSize(wid);
    var low, high := interval % m, interval / m;
    low + m * (if high % 2 == 1 && gates % 2 == 0 then gates + 1 else gates)
  }

  function Unpack(word: nat, wid: nat): (nat, nat)
    requires Width(wid)
  {
    var m := FieldSize(wid);
    (word % m, word / m)
  }

  /** A packed word has the interval in its low `wid` bits and the gates above them.  It unpacks to
      its interval and gate mask exactly if the interval fits its field: the range check lets one bit
      more through, which falls on gate 0. */
  lemma PackRoundTripIff(interval: nat, gates: nat, wid: nat)
    requires Width(wid) && interval < Pow2(wid + 1) && gates < Pow2(32 - wid)
    ensures Pack(interval, gates, wid) < TWO_32
    ensures interval < Pow2(wid) ==> Pack(interval, gates, wid) == interval + Pow2(wid) * gates
    ensures Pow2(wid) <= interval ==>
              Pack(interval, gates, wid) == interval - Pow2(wid) + Pow2(wid) * (gates + 1 - gates % 2)
    ensures Unpack(Pack(interval, gates, wid), wid) == (interval, gates) <==> interval < Pow2(wid)
  {
    FieldSizes(wid);
    hide Pow2;
    if interval < FieldSize(wid) {
      PackFits(interval, gates, wid);
    } else {
      PackOverflows(interval, gates, wid);
    }
  }

  lemma PackFits(interval: nat, gates: nat, wid: nat)
    requires Width(wid) && interval < FieldSize(wid) && gates < GateLimit(wid)
    ensures Pack(interval, gates, wid) == interval + FieldSize(wid) * gates < TWO_32
    ensures Unpack(Pack(interval, gates, wid), wid) == (interval, gates)
  {
  }

  lemma PackOverflows(interval: nat, gates: nat, wid: nat)
    requires Width(wid) && FieldSize(wid) <= interval < 2 * FieldSize(wid) && gates < GateLimit(wid)
    ensures Pack(interval, gates, wid) == interval - FieldSize(wid) + FieldSize(wid) * (gates + 1 - gates % 2) < TWO_32
    ensures Unpack(Pack(interval, gates, wid), wid) != (interval, gates)
  {
  }

  /** An entry of an accepted list: its word unpacks to its interval and adjusted gate mask exactly
      if the interval fits the field. */
  lemma EntryRoundTripIff(e: GateEntry, wid: nat)
    requires Width(wid) && InRange(e, wid)
    ensures AdjustedGates(e) < Pow2(32 - wid)
    ensures Unpack(Pack(e.interval, AdjustedGates(e), wid), wid) == (e.interval, AdjustedGates(e))
            <==> e.interval < Pow2(wid)
  {
    FieldSizes(wid);
    AdjustedInRange(e, wid);
    hide AdjustedGates, Pow2;
    PackRoundTripIff(e.interval, AdjustedGates(e), wid);
  }

  lemma AdjustedInRange(e: GateEntry, wid: nat)
    requires Width(wid) && InRange(e, wid)
    ensures AdjustedGates(e) < GateLimit(wid)
  {
  }
}
