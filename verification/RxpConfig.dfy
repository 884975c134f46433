/** dwxgmac3_rxp_config: loading the software table into the parser. */
module RxpConfig {
  import opened FrpRow
  import opened TcTable
  import opened RxpImage
  import opened RxParser
  import opened Waits
  import opened Wrappers

  // ----- rows in memory -----

  /** The first `n` rows of instruction memory, as the hardware reads them. */
  function MemRows(mem: seq<Word>, n: nat): (rows: seq<Row>)
    requires WORDS_PER_ROW * n <= |mem|
    ensures |rows| == n
  {
    if n == 0 then [] else MemRows(mem, n - 1) + [RowOfWords(mem[4 * n - 4..4 * n])]
  }

  lemma {:induction false} MemRowsSame(mem: seq<Word>, mem': seq<Word>, n: nat)
    requires WORDS_PER_ROW * n <= |mem| && WORDS_PER_ROW * n <= |mem'| && mem[..4 * n] == mem'[..4 * n]
    ensures MemRows(mem, n) == MemRows(mem', n)
  {
    if n > 0 {
      assert mem[..4 * n - 4] == mem[..4 * n][..4 * n - 4] == mem'[..4 * n - 4];
      assert mem[4 * n - 4..4 * n] == mem[..4 * n][4 * n - 4..] == mem'[4 * n - 4..4 * n];
      MemRowsSame(mem, mem', n - 1);
    }
  }

  /** Storing the words of a row after the first `n` rows adds that row, and aliases none of them
      as long as there are fewer than 256. */
  lemma MemRowsStored(mem: seq<Word>, n: nat, r: Row)
    requires |mem| == IMEM_WORDS && n < 256
    ensures RowAddr(n) == 4 * n
    ensures MemRows(Stored(mem, 4 * n, Words(r)), n + 1) == MemRows(mem, n) + [r]
  {
    var mem' := Stored(mem, 4 * n, Words(r));
    assert mem'[..4 * n] == mem[..4 * n];
    MemRowsSame(mem, mem', n);
    assert mem'[4 * (n + 1) - 4..4 * (n + 1)] == Words(r);
    RowOfWordsOfRow(r);
  }

  /** Row 256 would overwrite row 0. */
  lemma RowAliasAt256(mem: seq<Word>, r: Row)
    requires |mem| == IMEM_WORDS
    ensures MemRows(Stored(mem, RowAddr(256), Words(r)), 1) == [r]
  {
    MemRowsStored(mem, 0, r);
    assert MemRows(mem, 0) == [];
  }

  // ----- what loading may change in the software table -----

  /** `b` is `a` up to its place in the hardware and, for a main entry with a fragment, the bits
      that turn it into a guard. */
  predicate SameRule(a: Entry, b: Entry) {
    && b == a.(inHw := b.inHw, tablePos := b.tablePos, val := b.val)
    && if IsMain(a) && a.fragPtr.Some? then
         b.val == a.val.(af := b.val.af, rf := b.val.rf, nc := b.val.nc, okIndex := b.val.okIndex)
       else
         b.val == a.val
  }

  predicate SameRules(s: Slots, t: Slots) {
    |s| == |t| && forall k :: 0 <= k < |s| ==> SameRule(s[k], t[k])
  }

  lemma SameRulesWellFormed(s: Slots, t: Slots)
    requires WellFormed(s) && SameRules(s, t)
    ensures WellFormed(t)
  {
    assert forall k: nat, f: nat :: Owns(t, k, f) <==> Owns(s, k, f);
    forall f: nat | f < |t| && IsFragment(t[f])
      ensures exists k: nat :: Owns(t, k, f)
    {
      assert IsFragment(s[f]);
      var k: nat :| Owns(s, k, f);
      assert Owns(t, k, f);
    }
  }

  /** Loading changes no rule. */
  lemma SameRulesHold(s: Slots, m: map<nat, Rule>, t: Slots)
    requires WellFormed(s) && Holds(s, m) && SameRules(s, t)
    ensures WellFormed(t) && Holds(t, m)
  {
    SameRulesWellFormed(s, t);
    assert forall k: nat, h: nat :: MainOf(t, k, h) <==> MainOf(s, k, h);
    forall k: nat, h: nat | MainOf(t, k, h)
      ensures h in m && Stores(t, k, m[h])
    {
      assert MainOf(s, k, h);
      if s[k].fragPtr.Some? { assert Owns(s, k, s[k].fragPtr.value); }
    }
    forall h: nat | h in m
      ensures exists k: nat :: MainOf(t, k, h)
    {
      var k: nat :| MainOf(s, k, h);
      assert MainOf(t, k, h);
    }
  }

  // ----- the search for the next entry -----

  predicate Candidate(e: Entry, currPrio: nat) {
    IsMain(e) && !e.inHw && currPrio <= e.prio < NO_PRIO
  }

  /** dwxgmac3_rxp_get_next_entry: the first candidate in the order of emission. */
  method GetNextEntry(entries: array<Entry>, currPrio: nat) returns (next: Option<nat>)
    ensures next.Some? ==> next.value < entries.Length && Candidate(entries[next.value], currPrio)
    ensures next.Some? ==> forall j: nat :: j < entries.Length && Candidate(entries[j], currPrio) && j != next.value
                                            ==> Before(entries[..], next.value, j)
    ensures next.None? ==> forall j :: 0 <= j < entries.Length ==> !Candidate(entries[j], currPrio)
  {
    var minPrio, minPrioIdx, found := NO_PRIO, 0, false;
    var i := entries.Length;
    while i > 0
      invariant 0 <= i <= entries.Length
      invariant found ==> i <= minPrioIdx < entries.Length && Candidate(entries[minPrioIdx], currPrio)
                          && minPrio == entries[minPrioIdx].prio
      invariant !found ==> minPrio == NO_PRIO
      invariant found ==> forall j: nat :: i <= j < entries.Length && Candidate(entries[j], currPrio) && j != minPrioIdx
                                           ==> Before(entries[..], minPrioIdx, j)
      invariant !found ==> forall j :: i <= j < entries.Length ==> !Candidate(entries[j], currPrio)
    {
      i := i - 1;
      var entry := entries[i];
      if !entry.inUse || entry.inHw || entry.isLast || entry.isFrag || entry.prio < currPrio {
        continue;
      }
      if entry.prio < minPrio {
        minPrio, minPrioIdx, found := entry.prio, i, true;
      }
    }
    next := if found then Some(minPrioIdx) else None;
  }

  // ----- loading -----

  method ClearInHw(entries: array<Entry>)
    modifies entries
    ensures forall k :: 0 <= k < entries.Length ==> entries[k] == old(entries[k]).(inHw := false)
  {
    for i := 0 to entries.Length
      invariant forall k :: 0 <= k < i ==> entries[k] == old(entries[k]).(inHw := false)
      invariant forall k :: i <= k < entries.Length ==> entries[k] == old(entries[k])
    {
      entries[i] := entries[i].(inHw := false);
    }
  }

  /** Writes slot `j` as row `nve` and notes its place. */
  method UpdateRow(entries: array<Entry>, dev: Device, j: nat, nve: nat) returns (ok: bool)
    requires dev.Valid() && j < entries.Length && nve < 256
    modifies entries, dev
    ensures dev.Valid() && dev.SameConfig()
    ensures dev.StoredWith(old(dev.log), dev.rxConfig.receiveEnable, dev.opMode.parserEnable)
    ensures ok == dev.NoTimeoutSince(old(dev.waits)) && dev.waits > old(dev.waits)
    ensures !ok ==> entries[..] == old(entries[..])
    ensures ok ==> entries[..] == old(entries[..])[j := old(entries[j]).(tablePos := nve, inHw := true)]
                   && MemRows(dev.imem, nve + 1) == MemRows(old(dev.imem), nve) + [old(entries[j]).val]
                   && dev.waits == old(dev.waits) + 8
  {
    ghost var n;
    ok, n := dev.UpdateSingleEntry(entries[j].val, nve);
    if ok {
      assert Words(entries[j].val)[..4] == Words(entries[j].val);
      MemRowsStored(old(dev.imem), nve, entries[j].val);
      entries[j] := entries[j].(tablePos := nve, inHw := true);
    }
  }

  /** The table while main entry `k` is being written as row `nve`. */
  function Guarded(s: Slots, k: nat, nve: nat): Slots
    requires k < |s|
  {
    if s[k].fragPtr.Some? then s[k := s[k].(val := GuardRow(s[k].val, nve))] else s
  }

  function Placed(s: Slots, j: nat, pos: nat): Slots
    requires j < |s|
  {
    s[j := s[j].(tablePos := pos, inHw := true)]
  }

  /** The table after main entry `k` has been written from row `nve` on. */
  function Emitted(s: Slots, k: nat, nve: nat): Slots
    requires k < |s| && PointersInTable(s)
  {
    var t := Placed(Guarded(s, k, nve), k, nve);
    match s[k].fragPtr
    case None => t
    case Some(f) => Placed(t, f, nve + 1)
  }

  /** Slot `k`, and then its fragment, if any, from row `nve` on.  `nve'` counts the rows. */
  method EmitEntry(entries: array<Entry>, dev: Device, k: nat, nve: nat) returns (ok: bool, nve': nat)
    requires dev.Valid() && k < entries.Length && IsMain(entries[k]) && PointersInTable(entries[..]) && nve + 2 <= 256
    requires entries[k].fragPtr.Some? ==> entries[k].fragPtr.value != k && !entries[entries[k].fragPtr.value].inHw
    modifies entries, dev
    ensures dev.Valid() && dev.SameConfig()
    ensures dev.StoredWith(old(dev.log), dev.rxConfig.receiveEnable, dev.opMode.parserEnable)
    ensures ok == dev.NoTimeoutSince(old(dev.waits)) && dev.waits > old(dev.waits)
    ensures SameRules(old(entries[..]), entries[..])
    ensures var s, rows := old(entries[..]), RowsOf(old(entries[..]), k, nve);
            ok ==> && nve' == nve + |rows| && dev.waits == old(dev.waits) + 8 * |rows|
                   && MemRows(dev.imem, nve') == MemRows(old(dev.imem), nve) + rows
                   && entries[..] == Emitted(s, k, nve)
  {
    hide MemRows;
    nve' := nve;
    var frag := entries[k].fragPtr;
    if frag.Some? {
      entries[k] := entries[k].(val := GuardRow(entries[k].val, nve));
    }
    assert entries[..] == Guarded(old(entries[..]), k, nve);
    ok := UpdateRow(entries, dev, k, nve);
    if !ok {
      return;
    }
    nve' := nve + 1;
    if frag.Some? && !entries[frag.value].inHw {
      ok := UpdateRow(entries, dev, frag.value, nve');
      if !ok {
        return;
      }
      nve' := nve' + 1;
    }
  }

  // ----- the emission loop -----

  /** The state of the loop: `order` has been emitted, and comes before everything pending. */
  ghost predicate Progress(s: Slots, t: Slots, order: seq<nat>, nve: nat, currPrio: nat) {
    && WellFormed(s) && SameRules(s, t)
    && MainSlots(s, order) && Sorted(s, order) && Distinct(order)
    && nve == |Image(s, order)|
    && HwMarks(s, t, order)
    && PendingLater(s, order, currPrio)
  }

  /** The slots marked as in hardware are those whose rows are in the image. */
  ghost predicate HwMarks(s: Slots, t: Slots, order: seq<nat>)
    requires |s| == |t| && MainSlots(s, order)
  {
    forall k: nat :: k < |s| ==> (t[k].inHw <==> k in EmittedSlots(s, order))
  }

  /** Every main entry still to come passes the priority test, and comes after all of `order`. */
  predicate PendingLater(s: Slots, order: seq<nat>, currPrio: nat)
    requires MainSlots(s, order)
  {
    forall k: nat :: k < |s| && IsMain(s[k]) && k !in order ==>
      currPrio <= s[k].prio && forall i :: 0 <= i < |order| ==> Before(s, order[i], k)
  }

  lemma ProgressInit(s: Slots, t: Slots)
    requires WellFormed(s) && |t| == |s| && forall k :: 0 <= k < |s| ==> t[k] == s[k].(inHw := false)
    ensures Progress(s, t, [], 0, 0)
  {
  }

  lemma PlacedSameRules(s: Slots, t: Slots, j: nat, pos: nat)
    requires SameRules(s, t) && j < |t|
    ensures SameRules(s, Placed(t, j, pos))
  {
  }

  lemma GuardedSameRules(s: Slots, t: Slots, k: nat, nve: nat)
    requires SameRules(s, t) && k < |t| && IsMain(t[k])
    ensures SameRules(s, Guarded(t, k, nve))
  {
  }

  /** The schedule grows by the slot that comes before everything else that is pending. */
  lemma ScheduleGrows(s: Slots, t: Slots, order: seq<nat>, nve: nat, currPrio: nat, k: nat)
    requires Progress(s, t, order, nve, currPrio) && k < |t| && Candidate(t[k], currPrio)
    requires forall j: nat :: j < |t| && Candidate(t[j], currPrio) && j != k ==> Before(t, k, j)
    requires PriosBounded(s)
    ensures k !in order && MainSlots(s, order + [k]) && Sorted(s, order + [k]) && Distinct(order + [k])
    ensures PendingLater(s, order + [k], s[k].prio)
  {
    hide Image, EmittedSlots;
    EmittedMeaning(s, order);
    forall j: nat | j < |s| && IsMain(s[j]) && j !in order + [k]
      ensures s[k].prio <= s[j].prio && Before(s, k, j)
    {
      assert j !in order;
      assert Candidate(t[j], currPrio);
      assert Before(t, k, j);
    }
  }

  /** The next candidate extends the schedule: the `prio < currPrio` test hides nothing. */
  lemma ProgressStep(s: Slots, t: Slots, order: seq<nat>, nve: nat, currPrio: nat, k: nat, t': Slots)
    requires Progress(s, t, order, nve, currPrio) && k < |t| && Candidate(t[k], currPrio)
    requires forall j: nat :: j < |t| && Candidate(t[j], currPrio) && j != k ==> Before(t, k, j)
    requires PriosBounded(s)
    requires PointersInTable(t)
    requires t' == Emitted(t, k, nve)
    ensures Progress(s, t', order + [k], nve + |RowsOf(s, k, nve)|, s[k].prio)
  {
    ScheduleGrows(s, t, order, nve, currPrio, k);
    EmittedRules(s, t, k, nve);
    MarksGrow(s, t, order, nve, k);
    ImageSnoc(s, order, k);
    hide Image, IsMain, WellFormed, Before, PendingLater, HwMarks;
    hide SameRules, Sorted, Distinct, MainSlots, Emitted, RowsOf;
  }

  lemma MarksGrow(s: Slots, t: Slots, order: seq<nat>, nve: nat, k: nat)
    requires SameRules(s, t) && MainSlots(s, order) && HwMarks(s, t, order)
    requires k < |t| && IsMain(t[k]) && PointersInTable(t)
    ensures |Emitted(t, k, nve)| == |s| && MainSlots(s, order + [k]) && HwMarks(s, Emitted(t, k, nve), order + [k])
  {
    hide Emitted;
    EmittedRules(s, t, k, nve);
    assert (order + [k])[..|order|] == order;
    assert EmittedSlots(s, order + [k])
           == EmittedSlots(s, order) + {k} + (if s[k].fragPtr.Some? then {s[k].fragPtr.value} else {});
  }

  lemma EmittedRules(s: Slots, t: Slots, k: nat, nve: nat)
    requires SameRules(s, t) && k < |t| && IsMain(t[k]) && PointersInTable(t)
    ensures SameRules(s, Emitted(t, k, nve))
    ensures forall j: nat :: j < |t| ==>
              (Emitted(t, k, nve)[j].inHw <==> t[j].inHw || j == k || t[k].fragPtr == Some(j))
  {
    GuardedSameRules(s, t, k, nve);
    PlacedSameRules(s, Guarded(t, k, nve), k, nve);
    if t[k].fragPtr.Some? {
      PlacedSameRules(s, Placed(Guarded(t, k, nve), k, nve), t[k].fragPtr.value, nve + 1);
    }
  }

  lemma {:induction false} ImageSnoc(s: Slots, order: seq<nat>, k: nat)
    requires PointersInTable(s) && MainSlots(s, order) && k < |s| && MainSlots(s, order + [k])
    ensures Image(s, order + [k]) == Image(s, order) + RowsOf(s, k, |Image(s, order)|)
  {
    assert (order + [k])[..|order|] == order;
  }

  /** Nothing is pending: the schedule is complete. */
  lemma ProgressDone(s: Slots, t: Slots, order: seq<nat>, nve: nat, currPrio: nat)
    requires Progress(s, t, order, nve, currPrio)
    requires forall j :: 0 <= j < |t| ==> !Candidate(t[j], currPrio)
    requires PriosBounded(s)
    ensures IsSchedule(s, order)
  {
    EmittedMeaning(s, order);
    forall k: nat | k < |s| && IsMain(s[k])
      ensures k in order
    {
      if k !in order { assert Candidate(t[k], currPrio); }
    }
  }

  lemma SameRulesTrans(s: Slots, t: Slots, u: Slots)
    requires SameRules(s, t) && SameRules(t, u)
    ensures SameRules(s, u)
  {
  }

  /** The next candidate's rows fit in the table, and its fragment has not been written yet. */
  lemma StepFits(s: Slots, t: Slots, order: seq<nat>, nve: nat, currPrio: nat, k: nat)
    requires Progress(s, t, order, nve, currPrio) && k < |t| && Candidate(t[k], currPrio)
    requires forall j: nat :: j < |t| && Candidate(t[j], currPrio) && j != k ==> Before(t, k, j)
    requires PriosBounded(s)
    ensures PointersInTable(t) && t[k].prio == s[k].prio
    ensures RowsOf(t, k, nve) == RowsOf(s, k, nve) && nve + 1 <= nve + |RowsOf(s, k, nve)| < |s|
    ensures t[k].fragPtr.Some? ==> t[k].fragPtr.value != k && !t[t[k].fragPtr.value].inHw
  {
    ScheduleGrows(s, t, order, nve, currPrio, k);
    ImageFits(s, order + [k]);
    ImageSnoc(s, order, k);
    EmittedMeaning(s, order);
    hide Image, EmittedSlots, Distinct, Sorted;
    if s[k].fragPtr.Some? {
      assert Owns(s, k, s[k].fragPtr.value);
    }
  }

  /** One turn of the `while (1)` loop. */
  method EmitNext(entries: array<Entry>, dev: Device, ghost s: Slots, ghost order: seq<nat>, nve: nat, currPrio: nat)
    returns (ok: bool, done: bool, nve': nat, currPrio': nat, ghost order': seq<nat>)
    requires dev.Valid() && |s| <= 256 && Progress(s, entries[..], order, nve, currPrio) && PriosBounded(s)
    requires nve < 256 && MemRows(dev.imem, nve) == Image(s, order)
    modifies entries, dev
    ensures dev.Valid() && dev.SameConfig()
    ensures dev.StoredWith(old(dev.log), dev.rxConfig.receiveEnable, dev.opMode.parserEnable)
    ensures ok == dev.NoTimeoutSince(old(dev.waits)) && dev.waits >= old(dev.waits)
    ensures SameRules(s, entries[..])
    ensures ok && done ==> IsSchedule(s, order) && nve' == nve && order' == order && dev.waits == old(dev.waits)
    ensures ok && done ==> dev.imem == old(dev.imem)
    ensures ok && !done ==> Progress(s, entries[..], order', nve', currPrio') && nve < nve' < 256
                            && dev.waits == old(dev.waits) + 8 * (nve' - nve)
                            && MemRows(dev.imem, nve') == Image(s, order')
  {
    hide MemRows, Image, Emitted, Before, RowsOf, IsMain;
    ok, done, nve', currPrio', order' := true, false, nve, currPrio, order;
    var next := GetNextEntry(entries, currPrio);
    if next.None? {
      ProgressDone(s, entries[..], order, nve, currPrio);
      done := true;
      return;
    }
    var k := next.value;
    ghost var t := entries[..];
    StepFits(s, t, order, nve, currPrio, k);
    currPrio' := entries[k].prio;
    ok, nve' := EmitEntry(entries, dev, k, nve);
    SameRulesTrans(s, t, entries[..]);
    if ok {
      ProgressStep(s, t, order, nve, currPrio, k, entries[..]);
      order' := order + [k];
      ImageSnoc(s, order, k);
    }
  }

  ghost predicate PriosBounded(s: Slots) {
    forall j: nat :: j < |s| && IsMain(s[j]) ==> s[j].prio < NO_PRIO
  }

  /** The `while (1)` loop: emits every main entry, in order.  The number of rows that still fit
      decreases. */
  method EmitAll(entries: array<Entry>, dev: Device, ghost s: Slots) returns (ok: bool, nve: nat, ghost order: seq<nat>)
    requires dev.Valid() && |s| <= 256 && Progress(s, entries[..], [], 0, 0) && PriosBounded(s)
    modifies entries, dev
    ensures dev.Valid() && dev.SameConfig()
    ensures dev.StoredWith(old(dev.log), dev.rxConfig.receiveEnable, dev.opMode.parserEnable)
    ensures ok == dev.NoTimeoutSince(old(dev.waits)) && dev.waits >= old(dev.waits)
    ensures SameRules(s, entries[..])
    ensures ok ==> && IsSchedule(s, order) && nve == |Image(s, order)| < 256 && dev.waits == old(dev.waits) + 8 * nve
                   && MemRows(dev.imem, nve) == Image(s, order)
  {
    EmptyImage(s);
    assert MemRows(dev.imem, 0) == [];
    assert dev.StoredWith(old(dev.log), dev.rxConfig.receiveEnable, dev.opMode.parserEnable);
    hide MemRows, Image, SameRules, WellFormed, IsSchedule, Sorted, MainSlots, LogGrew;
    var done, currPrio := false, 0;
    ok, nve, order := true, 0, [];
    while !done
      invariant dev.Valid() && dev.SameConfig() && ok
      invariant dev.StoredWith(old(dev.log), dev.rxConfig.receiveEnable, dev.opMode.parserEnable)
      invariant dev.NoTimeoutSince(old(dev.waits)) && dev.waits == old(dev.waits) + 8 * nve
      invariant !done ==> Progress(s, entries[..], order, nve, currPrio)
      invariant done ==> SameRules(s, entries[..]) && IsSchedule(s, order)
      invariant nve == |Image(s, order)| < 256 && MemRows(dev.imem, nve) == Image(s, order)
      decreases !done, 256 - nve
    {
      ghost var log := dev.log;
      ok, done, nve, currPrio, order := EmitNext(entries, dev, s, order, nve, currPrio);
      LogGrewTrans(old(dev.log), log, dev.log, dev.rxConfig.receiveEnable, dev.opMode.parserEnable);
      if !ok {
        return;
      }
    }
  }

  /** The loop over the entries marked last, which writes the all-pass entry after the others. */
  method EmitLast(entries: array<Entry>, dev: Device, nve: nat) returns (ok: bool, nve': nat)
    requires dev.Valid() && WellFormed(entries[..]) && nve < 256
    modifies entries, dev
    ensures dev.Valid() && dev.SameConfig()
    ensures dev.StoredWith(old(dev.log), dev.rxConfig.receiveEnable, dev.opMode.parserEnable)
    ensures ok == dev.NoTimeoutSince(old(dev.waits)) && dev.waits > old(dev.waits)
    ensures SameRules(old(entries[..]), entries[..])
    ensures ok ==> nve' == nve + 1 && dev.waits == old(dev.waits) + 8
                   && MemRows(dev.imem, nve') == MemRows(old(dev.imem), nve) + [ALL_PASS_ROW]
  {
    hide MemRows;
    ok, nve' := true, nve;
    for i := 0 to entries.Length
      invariant dev.Valid() && dev.SameConfig() && ok
      invariant i < entries.Length ==> entries[..] == old(entries[..]) && nve' == nve && dev.imem == old(dev.imem)
                                       && dev.log == old(dev.log) && dev.waits == old(dev.waits)
      invariant i == entries.Length ==>
                  && dev.StoredWith(old(dev.log), dev.rxConfig.receiveEnable, dev.opMode.parserEnable)
                  && dev.NoTimeoutSince(old(dev.waits)) && dev.waits == old(dev.waits) + 8
                  && SameRules(old(entries[..]), entries[..]) && nve' == nve + 1
                  && MemRows(dev.imem, nve') == MemRows(old(dev.imem), nve) + [ALL_PASS_ROW]
    {
      if !entries[i].isLast {
        continue;
      }
      ok := UpdateLast(entries, dev, i, nve');
      if !ok {
        return;
      }
      nve' := nve' + 1;
    }
  }

  /** Like UpdateRow, but the all-pass entry is not marked as in hardware. */
  method UpdateLast(entries: array<Entry>, dev: Device, j: nat, nve: nat) returns (ok: bool)
    requires dev.Valid() && j < entries.Length && nve < 256
    modifies entries, dev
    ensures dev.Valid() && dev.SameConfig()
    ensures dev.StoredWith(old(dev.log), dev.rxConfig.receiveEnable, dev.opMode.parserEnable)
    ensures ok == dev.NoTimeoutSince(old(dev.waits)) && dev.waits > old(dev.waits)
    ensures !ok ==> entries[..] == old(entries[..])
    ensures ok ==> entries[..] == old(entries[..])[j := old(entries[j]).(tablePos := nve)]
                   && MemRows(dev.imem, nve + 1) == MemRows(old(dev.imem), nve) + [old(entries[j]).val]
                   && dev.waits == old(dev.waits) + 8
  {
    ghost var n;
    ok, n := dev.UpdateSingleEntry(entries[j].val, nve);
    if ok {
      assert Words(entries[j].val)[..4] == Words(entries[j].val);
      MemRowsStored(old(dev.imem), nve, entries[j].val);
      entries[j] := entries[j].(tablePos := nve);
    }
  }

  // ----- the whole load -----

  /** dwxgmac3_rxp_config.  Whatever waits time out: words are stored only while reception and
      the parser are both off, the reception setting is restored, and the parser is on
      afterwards exactly if there are filters and all their rows were written. */
  method Configure(entries: array<Entry>, dev: Device, ghost m: map<nat, Rule>)
    returns (ok: bool, ghost order: seq<nat>)
    requires dev.Valid() && entries.Length <= 256 && WellFormed(entries[..]) && Holds(entries[..], m)
    modifies entries, dev
    ensures dev.Valid() && dev.rxConfig == old(dev.rxConfig) && dev.opMode.other == old(dev.opMode.other)
    ensures dev.StoredWith(old(dev.log), false, false)
    ensures ok == dev.NoTimeoutSince(old(dev.waits))
    ensures SameRules(old(entries[..]), entries[..])
    ensures ok ==> IsSchedule(old(entries[..]), order)
    ensures dev.opMode.parserEnable <==> ok && order != []
    ensures !dev.opMode.parserEnable ==> dev.validEntries == old(dev.validEntries)
    ensures dev.opMode.parserEnable ==>
              var rows := FullImage(old(entries[..]), order);
              && |rows| <= entries.Length && MemRows(dev.imem, |rows|) == rows
              && dev.validEntries == dev.parsableEntries == |rows| % 256
              && (forall i :: 0 <= i < |rows| ==> WrittenRow(MemRows(dev.imem, |rows|)[i]))
              && dev.waits == old(dev.waits) + 8 * |rows|
  {
    hide MemRows, Image, Holds, SameRules, WellFormed, LogGrew, NoTimeout, IsSchedule, ALL_PASS_ROW, WrittenRow;
    ghost var s, log := entries[..], dev.log;
    HoldsBoundsPrios(s, m);
    var oldVal := dev.rxConfig;
    dev.rxConfig := oldVal.(receiveEnable := false);
    dev.opMode := dev.opMode.(parserEnable := false);
    ClearInHw(entries);
    ProgressInit(s, entries[..]);
    var nve;
    ok, nve, order := EmitAll(entries, dev, s);
    assert ok ==> (nve == 0 <==> order == []) && nve < entries.Length by {
      if ok { ImageSize(s, order); }
    }
    if !ok || nve == 0 {
      dev.rxConfig := oldVal;
      return;
    }
    ghost var t, log', waits' := entries[..], dev.log, dev.waits;
    FullImageWritten(s, m, order);
    SameRulesWellFormed(s, t);
    ok, nve := EmitLast(entries, dev, nve);
    SameRulesTrans(s, t, entries[..]);
    LogGrewTrans(log, log', dev.log, false, false);
    NoTimeoutSplit(dev.timesOut, old(dev.waits), waits', dev.waits);
    if !ok {
      dev.rxConfig := oldVal;
      return;
    }
    dev.parsableEntries, dev.validEntries := nve % 256, nve % 256;
    dev.opMode := dev.opMode.(parserEnable := true);
    dev.rxConfig := oldVal;
  }

  lemma FullImageWritten(s: Slots, m: map<nat, Rule>, order: seq<nat>)
    requires WellFormed(s) && Holds(s, m) && IsSchedule(s, order)
    ensures forall i :: 0 <= i < |FullImage(s, order)| ==> WrittenRow(FullImage(s, order)[i])
  {
    ImageWritten(s, m, order);
  }

  lemma {:induction false} ImageSize(s: Slots, order: seq<nat>)
    requires WellFormed(s) && IsSchedule(s, order)
    ensures |Image(s, order)| == 0 <==> order == []
    ensures |Image(s, order)| < |s|
  {
    ImageFits(s, order);
  }

  lemma HoldsBoundsPrios(s: Slots, m: map<nat, Rule>)
    requires WellFormed(s) && Holds(s, m)
    ensures PriosBounded(s)
  {
    forall j: nat | j < |s| && IsMain(s[j])
      ensures s[j].prio < NO_PRIO
    {
      assert MainOf(s, j, s[j].handle);
    }
  }
}
