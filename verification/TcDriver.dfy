/** The u32 classifier of the driver: the slot array updated in place, and the guarantee that the
    hardware enforces the installed rules, passes everything, or, with all 256 slots in use, decides
    no frame. */
module TcDriver {
  import opened FrpRow
  import opened KeySplit
  import opened TcTable
  import opened RxpImage
  import opened RxParser
  import opened RxpConfig
  import opened TcRequests
  import opened Waits
  import opened Wrappers

  // ----- what the hardware does with a frame -----

  /** A disabled parser passes every frame; an enabled one runs its valid rows. */
  function FilterOutcome(parserEnable: bool, rows: seq<Row>, frame: Frame): Outcome {
    if parserEnable then Run(rows, frame, 0) else Decided(Accept)
  }

  /** Some slot is free, or the table is smaller than the 8-bit row count. */
  ghost predicate HasRoom(s: Slots) {
    |s| < 256 || exists k :: 0 <= k < |s| && !s[k].inUse
  }

  /** The rows decide every frame as the rules do; in a table without room no frame is decided. */
  ghost predicate Enforces(rows: seq<Row>, s: Slots, m: Rules) {
    if HasRoom(s) then
      forall frame: Frame :: DecidesLike(rows, s, m, frame)
    else
      forall frame: Frame :: Run(rows, frame, 0) == Stuck
  }

  ghost predicate DecidesLike(rows: seq<Row>, s: Slots, m: Rules, frame: Frame) {
    exists v :: Run(rows, frame, 0) == Decided(v) && IsVerdict(ByRows, s, m, frame, v)
  }

  lemma RoomBoundsImage(s: Slots, order: seq<nat>)
    requires WellFormed(s) && IsSchedule(s, order) && |s| <= 256 && HasRoom(s)
    ensures |FullImage(s, order)| < 256
  {
    if |s| < 256 {
      ImageFits(s, order);
    } else {
      var k: nat :| k < |s| && !s[k].inUse;
      EmittedMeaning(s, order);
      RowPerSlot(s, order);
      SmallSet(EmittedSlots(s, order) + {k}, |s| - 1);
      assert |EmittedSlots(s, order) + {k}| == |EmittedSlots(s, order)| + 1;
    }
  }

  /** With all 256 slots in use the row count overflows to zero. */
  lemma FullTableCount(s: Slots, order: seq<nat>)
    requires WellFormed(s) && IsSchedule(s, order) && |s| == 256 && forall k :: 0 <= k < |s| ==> s[k].inUse
    ensures |FullImage(s, order)| % 256 == 0
  {
    hide Image, EmittedSlots;
    EmittedMeaning(s, order);
    RowPerSlot(s, order);
    forall k: nat | k < |s| - 1
      ensures k in EmittedSlots(s, order)
    {
      if s[k].isFrag { var j: nat :| Owns(s, j, k); }
    }
    InitialSegment(EmittedSlots(s, order), |s| - 1);
  }

  /** With that count the parser is on and has no row: it decides no frame. */
  lemma {:induction false} FullTableStuck(s: Slots, order: seq<nat>, mem: seq<Word>)
    requires WellFormed(s) && IsSchedule(s, order) && |s| == 256 && (forall k :: 0 <= k < |s| ==> s[k].inUse)
    requires |mem| == IMEM_WORDS
    ensures var rows := MemRows(mem, |FullImage(s, order)| % 256);
            rows == [] && forall frame: Frame :: Run(rows, frame, 0) == Stuck
  {
    hide FullImage;
    FullTableCount(s, order);
  }

  /** How that happens: 255 successful aligned requests fill a table of 256 slots, and whatever the
      load then stores, no frame is decided. */
  lemma {:induction false} FullTableOccurs(kns: seq<Knode>, offMax: nat, states: seq<Slots>, order: seq<nat>,
                                           mem: seq<Word>)
    requires |kns| == 255 && offMax <= OFF_MAX_BOUND
    requires AlignedRequests(kns, offMax) && InstallRun(256, kns, offMax, states)
    requires IsSchedule(states[255], order) && |mem| == IMEM_WORDS
    ensures WellFormed(states[255]) && |FullImage(states[255], order)| % 256 == 0
    ensures forall frame: Frame :: Run(MemRows(mem, 0), frame, 0) == Stuck
  {
    var m := InstallFills(256, kns, offMax, states, 255);
    assert states[255][255].inUse by { LastInUse(states[255]); }
    FullTableCount(states[255], order);
    FullTableStuck(states[255], order, mem);
  }

  lemma LastInUse(s: Slots)
    requires WellFormed(s)
    ensures s[|s| - 1].inUse
  {
  }

  lemma {:induction false} InitialSegment(a: set<nat>, n: nat)
    requires forall x: nat :: x in a <==> x < n
    ensures |a| == n
  {
    if n == 0 {
      assert a == {};
    } else {
      InitialSegment(a - {n - 1}, n - 1);
    }
  }

  /** A complete load enforces the rules. */
  lemma LoadEnforces(s: Slots, m: Rules, order: seq<nat>)
    requires WellFormed(s) && Holds(s, m) && IsSchedule(s, order) && |s| <= 256 && HasRoom(s)
    ensures Enforces(FullImage(s, order), s, m)
  {
    RoomBoundsImage(s, order);
    forall frame: Frame
      ensures DecidesLike(FullImage(s, order), s, m, frame)
    {
      var v := ImageCorrect(s, m, order, frame);
    }
  }

  // ----- changes of the table that leave the rules in force -----

  /** The main entries, with their priorities, are the same. */
  predicate SameMains(s: Slots, t: Slots) {
    |s| == |t| && forall k :: 0 <= k < |s| ==>
      IsMain(s[k]) == IsMain(t[k]) && (IsMain(s[k]) ==> s[k].handle == t[k].handle && s[k].prio == t[k].prio)
  }

  lemma VerdictSame(s: Slots, t: Slots, m: Rules, frame: Frame, v: Verdict)
    requires SameMains(s, t) && IsVerdict(ByRows, s, m, frame, v)
    ensures IsVerdict(ByRows, t, m, frame, v)
  {
    hide Asks;
    assert forall k: nat :: Matches(ByRows, t, m, frame, k) <==> Matches(ByRows, s, m, frame, k);
    assert forall k: nat :: Wins(ByRows, s, m, frame, k) ==> Wins(ByRows, t, m, frame, k);
    assert forall k: nat :: Wins(ByRows, t, m, frame, k) ==> Wins(ByRows, s, m, frame, k);
  }

  lemma DecidesSame(rows: seq<Row>, s: Slots, t: Slots, m: Rules, frame: Frame)
    requires SameMains(s, t) && DecidesLike(rows, s, m, frame)
    ensures DecidesLike(rows, t, m, frame)
  {
    hide Run, IsVerdict;
    var v :| Run(rows, frame, 0) == Decided(v) && IsVerdict(ByRows, s, m, frame, v);
    VerdictSame(s, t, m, frame, v);
  }

  lemma EnforcesSame(rows: seq<Row>, s: Slots, t: Slots, m: Rules)
    requires SameMains(s, t) && Enforces(rows, s, m) && (HasRoom(t) <==> HasRoom(s))
    ensures Enforces(rows, t, m)
  {
    hide Run, DecidesLike;
    if HasRoom(t) {
      forall frame: Frame
        ensures DecidesLike(rows, t, m, frame)
      {
        DecidesSame(rows, s, t, m, frame);
      }
    }
  }

  lemma SameRulesSameMains(s: Slots, t: Slots)
    requires SameRules(s, t)
    ensures SameMains(s, t) && (HasRoom(t) <==> HasRoom(s))
  {
    if k :| 0 <= k < |s| && !s[k].inUse { assert !t[k].inUse; }
    if k :| 0 <= k < |t| && !t[k].inUse { assert !s[k].inUse; }
  }

  lemma SameMainsSymmetric(s: Slots, t: Slots)
    requires SameMains(s, t)
    ensures SameMains(t, s)
  {
  }

  /** A refused request changes free slots only. */
  lemma RefusedSameMains(s: Slots, kn: Knode, offMax: nat)
    requires WellFormed(s) && offMax <= OFF_MAX_BOUND && !Fill(s, kn, offMax).1
    ensures SameMains(s, Fill(s, kn, offMax).0) && (HasRoom(Fill(s, kn, offMax).0) <==> HasRoom(s))
  {
    FillTouches(s, kn, offMax);
    hide Fill;
    var t := Fill(s, kn, offMax).0;
    if k :| 0 <= k < |t| && !t[k].inUse { assert !s[k].inUse; }
    if k :| 0 <= k < |s| && !s[k].inUse { assert !t[k].inUse; }
  }

  /** What a complete load leaves behind: memory that enforces the rules on the loaded table. */
  lemma {:induction false} LoadInForce(s: Slots, m: Rules, order: seq<nat>, t: Slots, mem: seq<Word>, valid: nat)
    requires WellFormed(s) && Holds(s, m) && IsSchedule(s, order) && |s| <= 256 && SameRules(s, t)
    requires var rows := FullImage(s, order);
             |mem| == IMEM_WORDS && |rows| <= 256 && MemRows(mem, |rows|) == rows && valid == |rows| % 256
    ensures Enforces(MemRows(mem, valid), t, m)
  {
    hide MemRows, FullImage, Enforces;
    SameRulesSameMains(s, t);
    if HasRoom(s) {
      RoomBoundsImage(s, order);
      LoadEnforces(s, m, order);
      EnforcesSame(FullImage(s, order), s, t, m);
    } else {
      FullTableStuck(s, order, mem);
      assert Enforces(MemRows(mem, valid), t, m) by { StuckEnforces(MemRows(mem, valid), t, m); }
    }
  }

  lemma {:induction false} StuckEnforces(rows: seq<Row>, t: Slots, m: Rules)
    requires !HasRoom(t) && forall frame: Frame :: Run(rows, frame, 0) == Stuck
    ensures Enforces(rows, t, m)
  {
  }

  /** Clearing a handle without a rule frees nothing that was in use. */
  lemma UnfillUnknown(s: Slots, m: Rules, h: nat)
    requires Refines(s, m) && h != 0 && h !in m && LookupSound(s, m, h)
    ensures Unfill(s, h) == s && m - {h} == m
  {
    hide Stores;
    var found := FindHandle(s, h, |s|);
    if found.Some? {
      assert !MainOf(s, found.value, h);
      assert s[found.value].fragPtr.Some? ==> !MainOf(s, s[found.value].fragPtr.value, h);
    }
  }

  lemma EmptySchedule(s: Slots, m: Rules, order: seq<nat>)
    requires WellFormed(s) && Holds(s, m) && IsSchedule(s, order)
    ensures order == [] <==> m == map[]
  {
    if order != [] {
      assert MainOf(s, order[0], s[order[0]].handle);
    }
    if h: nat :| h in m {
      var k: nat :| MainOf(s, k, h);
      assert k in order;
    }
  }

  // ----- the driver -----

  class Driver {
    const entries: array<Entry>
    const offMax: nat
    const dev: Device

    /** The installed rules. */
    ghost var rules: Rules

    /** The slots stand for the rules. */
    ghost predicate Consistent()
      reads this, entries, dev
    {
      && 0 < entries.Length <= 256 && offMax <= OFF_MAX_BOUND && dev.Valid()
      && dev.validEntries <= 256
      && Refines(entries[..], rules)
    }

    /** Moreover, an enabled parser enforces the rules or, with all 256 slots in use, decides no
        frame. */
    ghost predicate Valid()
      reads this, entries, dev
    {
      && Consistent()
      && (dev.opMode.parserEnable ==> Enforces(MemRows(dev.imem, dev.validEntries), entries[..], rules))
    }

    /** tc_init: empty slots, and the all-pass entry at the end. */
    constructor (count: nat, offMax: nat, dev: Device)
      requires 0 < count <= 256 && offMax <= OFF_MAX_BOUND && dev.Valid() && !dev.opMode.parserEnable
      requires dev.validEntries <= 256
      ensures Valid() && fresh(entries) && this.dev == dev && this.offMax == offMax
      ensures entries[..] == InitialSlots(count) && rules == map[]
    {
      entries := new Entry[count](_ => EMPTY_ENTRY);
      this.offMax := offMax;
      this.dev := dev;
      rules := map[];
      new;
      entries[count - 1] := ALL_PASS_ENTRY;
      assert entries[..] == InitialSlots(count);
      InitialRefines(count);
    }

    /** tc_find_entry: with `free`, allots the first free slot; without, finds the last slot that
        carries the handle, in use or not. */
    method FindEntry(handle: nat, free: bool) returns (found: Option<nat>)
      modifies entries
      ensures free ==> && found == FindFree(old(entries[..]))
                       && entries[..] == match found
                                         case None => old(entries[..])
                                         case Some(k) => old(entries[..])[k := Allot(old(entries[..])[k], handle)]
      ensures !free ==> entries[..] == old(entries[..]) && found == FindHandle(entries[..], handle, entries.Length)
    {
      var first: Option<nat>, dup: Option<nat> := None, None;
      ghost var s := entries[..];
      for i := 0 to entries.Length
        invariant entries[..] == s
        invariant free ==> dup.None? && FindFree(s) == if first.Some? then first else FindFree(s, i)
        invariant !free ==> first.None? && dup == FindHandle(s, handle, i)
      {
        var entry := entries[i];
        if !entry.inUse && first.None? && free {
          first := Some(i);
        }
        if entry.handle == handle && !free && !entry.isFrag {
          dup := Some(i);
        }
      }
      if dup.Some? {
        return dup;
      }
      if first.Some? {
        var k := first.value;
        entries[k] := entries[k].(handle := handle, inUse := true, val := ZERO_ROW);
      }
      found := first;
    }

    /** tc_fill_actions: the first action decides the fragment, or the entry without one. */
    method FillActions(k: nat, frag: Option<nat>, actions: seq<Action>) returns (ok: bool)
      requires k < entries.Length && (frag.Some? ==> frag.value < entries.Length)
      modifies entries
      ensures ok <==> actions != [] && (actions[0] == ActAccept || actions[0] == ActDrop)
      ensures !ok ==> entries[..] == old(entries[..])
      ensures ok ==>
                var a := if frag.Some? then frag.value else k;
                var e := old(entries[a]);
                var val := if actions[0] == ActDrop then e.val.(rf := true) else e.val.(af := true);
                entries[..] == old(entries[..])[a := e.(val := val)]
    {
      if actions == [] {
        return false;
      }
      var a := if frag.Some? then frag.value else k;
      match actions[0] {
        case ActAccept => entries[a] := entries[a].(val := entries[a].val.(af := true));
        case ActDrop => entries[a] := entries[a].(val := entries[a].val.(rf := true));
        case ActOther => return false;
      }
      ok := true;
    }

    /** The branch of tc_fill_entry for a word-aligned key, with slot `k` allotted. */
    method FillAligned(k: nat, kn: Knode, key: Key, ghost s: Slots) returns (ok: bool)
      requires k < entries.Length && key.off <= OFF_MAX_BOUND
      requires |s| == entries.Length && entries[..] == s[k := Allot(s[k], kn.handle)]
      modifies entries
      ensures (entries[..], ok) == FillPlain(s, kn, key, k)
    {
      DecisionMeaning(kn.actions);
      hide MainRow, PrioField;
      var val := WithTest(entries[k].val, MainRow(key));
      entries[k] := entries[k].(fragPtr := None, val := val, prio := PrioField(kn.prio));
      assert entries[..] == s[k := FilledMain(s[k], kn, key, None)];
      ok := FillActions(k, None, kn.actions);
      if !ok {
        entries[k] := entries[k].(inUse := false);
      }
      assert entries[..] == FillPlain(s, kn, key, k).0;
    }

    /** The branch of tc_fill_entry for any other key, with slots `k` and `f` allotted. */
    method FillUnaligned(k: nat, f: nat, kn: Knode, key: Key, ghost s: Slots) returns (ok: bool)
      requires k < entries.Length && f < entries.Length && k != f && key.off <= OFF_MAX_BOUND && key.off % 4 != 0
      requires |s| == entries.Length && entries[..] == s[k := Allot(s[k], kn.handle)][f := Allot(s[f], kn.handle)]
      modifies entries
      ensures (entries[..], ok) == FillSplit(s, kn, key, k, f)
    {
      DecisionMeaning(kn.actions);
      hide MainRow, FragRow, PrioField;
      var val, fragVal := WithTest(entries[k].val, MainRow(key)), WithTest(entries[f].val, FragRow(key));
      entries[k] := entries[k].(fragPtr := Some(f), val := val, prio := PrioField(kn.prio));
      entries[f] := entries[f].(val := fragVal, prio := PrioField(kn.prio), isFrag := true);
      assert entries[..] == s[k := FilledMain(s[k], kn, key, Some(f))][f := FilledFrag(s[f], kn, key)];
      ok := FillActions(k, Some(f), kn.actions);
      if !ok {
        entries[f] := entries[f].(inUse := false);
        entries[k] := entries[k].(inUse := false);
      }
      assert entries[..] == FillSplit(s, kn, key, k, f).0;
    }

    /** tc_fill_entry */
    method FillEntry(kn: Knode) returns (ok: bool)
      requires offMax <= OFF_MAX_BOUND
      modifies entries
      ensures (entries[..], ok) == Fill(old(entries[..]), kn, offMax)
    {
      hide CheckedKey, FillPlain, FillSplit;
      ok := false;
      var key := CheckedKey(kn, offMax);
      if key.None? {
        return;
      }
      var entry := FindEntry(kn.handle, true);
      if entry.None? {
        return;
      }
      if key.value.off % 4 != 0 {
        var frag := FindEntry(kn.handle, true);
        if frag.None? {
          entries[entry.value] := entries[entry.value].(inUse := false);
          return;
        }
        ok := FillUnaligned(entry.value, frag.value, kn, key.value, old(entries[..]));
      } else {
        ok := FillAligned(entry.value, kn, key.value, old(entries[..]));
      }
    }

    /** tc_unfill_entry */
    method UnfillEntry(handle: nat)
      requires PointersInTable(entries[..])
      modifies entries
      ensures entries[..] == Unfill(old(entries[..]), handle)
    {
      var found := FindEntry(handle, false);
      if found.None? {
        return;
      }
      var k := found.value;
      entries[k] := entries[k].(inUse := false);
      if entries[k].fragPtr.Some? {
        var f := entries[k].fragPtr.value;
        entries[f] := entries[f].(isFrag := false, inUse := false);
      }
    }

    /** tc_config_knode: fill, load, and clear again if the load fails.  A refused request does not
        touch the hardware; after a failed load everything is right exactly if the roll-back found
        the new entry. */
    method ConfigKnode(kn: Knode) returns (status: Status)
      requires Consistent() && NewHandle(rules, kn)
      modifies this, entries, dev
      ensures dev.Valid() && dev.rxConfig == old(dev.rxConfig)
      ensures ConfigStep(old(entries[..]), kn, offMax, status, entries[..])
      ensures rules == ConfiguredRules(old(rules), kn, offMax, status)
      ensures status == Success ==> rules.Keys == old(rules).Keys + {kn.handle}
      ensures status != Success ==> rules == old(rules)
      ensures Consistent() <==> old(ConfigSound(entries[..], rules, kn, offMax, status))
      ensures status == Invalid <==> !old(Takes(entries[..], kn, offMax))
      ensures status == Invalid ==> unchanged(dev)
      ensures status == LoadFailed <==> !dev.NoTimeoutSince(old(dev.waits))
      ensures status == LoadFailed ==> !dev.opMode.parserEnable
      ensures status == Success ==> Valid() && dev.opMode.parserEnable
    {
      hide Fill, CheckedKey, Decision, Holds, MemRows, Enforces;
      hide SameRules, RuleOf, Unfill, SpoilsTable, LookupSound, LogGrew;
      hide WellFormed;
      ghost var s, m := entries[..], rules;
      FillCorrect(s, m, kn, offMax);
      FillTakenIff(s, kn, offMax);
      hide Takes;
      var ok := FillEntry(kn);
      if !ok {
        return Invalid;
      }
      TakenNeverSpoils(s, kn, offMax);
      rules := m[kn.handle := RuleOf(kn, offMax)];
      assert kn.handle in rules;
      ok := Load();
      if !ok {
        ghost var filled, t := Fill(s, kn, offMax).0, entries[..];
        WellFormedPointers(filled);
        WellFormedPointers(t);
        LookupSame(filled, t, rules, kn.handle);
        UnfillCorrectIffSound(t, rules, kn.handle);
        UnfillEntry(kn.handle);
        assert rules - {kn.handle} == m;
        rules := m;
        return LoadFailed;
      }
      status := Success;
    }

    /** A load of the table through tc956xmac_rxp_config. */
    method Load() returns (ok: bool)
      requires Consistent()
      modifies entries, dev
      ensures Valid() && dev.rxConfig == old(dev.rxConfig)
      ensures SameRules(old(entries[..]), entries[..])
      ensures ok == dev.NoTimeoutSince(old(dev.waits))
      ensures dev.opMode.parserEnable <==> ok && rules != map[]
    {
      ghost var s := entries[..];
      ghost var order;
      hide Holds, WellFormed, MemRows, Enforces, SameRules, Image, IsSchedule, LogGrew, NoTimeout;
      ok, order := Configure(entries, dev, rules);
      SameRulesHold(s, rules, entries[..]);
      if ok {
        EmptySchedule(s, rules, order);
      }
      if dev.opMode.parserEnable {
        LoadInForce(s, rules, order, entries[..], dev.imem, dev.validEntries);
      }
    }

    /** tc_delete_knode */
    method RemoveKnode(handle: nat) returns (status: Status)
      requires Valid() && handle != 0 && LookupSound(entries[..], rules, handle)
      modifies this, entries, dev
      ensures Valid() && dev.rxConfig == old(dev.rxConfig)
      ensures SameRules(Unfill(old(entries[..]), handle), entries[..])
      ensures rules == old(rules) - {handle}
      ensures status == Success || (status == LoadFailed && !dev.opMode.parserEnable)
      ensures status == LoadFailed <==> !dev.NoTimeoutSince(old(dev.waits))
      ensures status == Success ==> dev.opMode.parserEnable == (rules != map[])
    {
      hide Holds, MemRows, Enforces, SameRules, Unfill, LookupSound, LogGrew;
      UnfillCorrectIffSound(entries[..], rules, handle);
      UnfillEntry(handle);
      rules := rules - {handle};
      var ok := Load();
      status := if ok then Success else LoadFailed;
    }

    /** A replacement that is refused has already cleared the old entry, but nothing is loaded: an
        enabled parser goes on enforcing the old rule, which does no harm exactly if it is
        redundant. */
    ghost predicate StaysInStep(req: Request)
      requires Valid()
      reads this, entries, dev
    {
      req.ReplaceKnode? && req.kn.handle in rules && dev.opMode.parserEnable ==>
        HasRoom(entries[..]) && Redundant(entries[..], rules, req.kn.handle)
    }

    /** Exactly when a request is refused before anything is loaded. */
    predicate Refused(req: Request)
      requires PointersInTable(entries[..])
      reads entries
    {
      match req
      case NewKnode(kn) => !Takes(entries[..], kn, offMax)
      case ReplaceKnode(kn) => !Takes(Unfill(entries[..], kn.handle), kn, offMax)
      case DeleteKnode(_) => false
    }

    /** tc_setup_cls_u32: after every request that is ready, the slots refine the rules that the
        requests so far call for, and the hardware enforces exactly these or, after a failed load,
        passes everything, if and only if the outcome is sound and a refused replacement stays in
        step. */
    method SetupClsU32(req: Request) returns (status: Status)
      requires Valid() && Ready(entries[..], rules, req)
              && (req.DeleteKnode? ==> LookupSound(entries[..], rules, req.handle))
      modifies this, entries, dev
      ensures dev.rxConfig == old(dev.rxConfig)
      ensures Step(old(entries[..]), req, offMax, status, entries[..])
      ensures rules == RulesAfter(old(rules), req, offMax, status)
      ensures rules.Keys == if status == Success && !req.DeleteKnode? then old(rules).Keys + {HandleOf(req)}
                            else old(rules).Keys - {HandleOf(req)}
      ensures Valid() <==>
              && old(Sound(entries[..], rules, req, offMax, status))
              && (status == Invalid ==> old(StaysInStep(req)))
      ensures status == Invalid <==> old(Refused(req))
      ensures status == LoadFailed <==> !dev.NoTimeoutSince(old(dev.waits))
      ensures status == LoadFailed ==> !dev.opMode.parserEnable
      ensures status == Success ==> dev.opMode.parserEnable == (rules != map[])
    {
      hide Fill, CheckedKey, Decision, Holds, MemRows, Enforces;
      hide SameRules, Unfill, LookupSound, ConfigSound, ConfigStep;
      WellFormedPointers(entries[..]);
      hide Redundant, WellFormed, Takes;
      match req {
        case NewKnode(kn) =>
          status := NewRule(kn);
        case ReplaceKnode(kn) =>
          status := ReplaceRule(kn);
        case DeleteKnode(h) =>
          status := RemoveKnode(h);
      }
    }

    /** The request for a rule whose handle is not installed. */
    method NewRule(kn: Knode) returns (status: Status)
      requires Valid() && NewHandle(rules, kn)
      modifies this, entries, dev
      ensures dev.rxConfig == old(dev.rxConfig)
      ensures ConfigStep(old(entries[..]), kn, offMax, status, entries[..])
      ensures rules == ConfiguredRules(old(rules), kn, offMax, status)
      ensures rules.Keys == if status == Success then old(rules).Keys + {kn.handle} else old(rules).Keys - {kn.handle}
      ensures Valid() <==> old(ConfigSound(entries[..], rules, kn, offMax, status))
      ensures status == Invalid <==> !old(Takes(entries[..], kn, offMax))
      ensures status == LoadFailed <==> !dev.NoTimeoutSince(old(dev.waits))
      ensures status == LoadFailed ==> !dev.opMode.parserEnable
      ensures status == Success ==> dev.opMode.parserEnable
    {
      hide Fill, CheckedKey, Decision, Holds, MemRows, Enforces;
      hide SameRules, Unfill, LookupSound, ConfigSound, WellFormed;
      ghost var s := entries[..];
      FillTakenIff(s, kn, offMax);
      hide Takes;
      status := ConfigKnode(kn);
      if status == Invalid {
        RefusedSameMains(s, kn, offMax);
        if dev.opMode.parserEnable {
          EnforcesSame(MemRows(dev.imem, dev.validEntries), s, entries[..], rules);
        }
      }
    }

    /** The request that replaces a rule, if it is installed. */
    method ReplaceRule(kn: Knode) returns (status: Status)
      requires Valid() && kn.handle != 0 && LookupSound(entries[..], rules, kn.handle)
      modifies this, entries, dev
      ensures dev.rxConfig == old(dev.rxConfig)
      ensures ConfigStep(Unfill(old(entries[..]), kn.handle), kn, offMax, status, entries[..])
      ensures rules == ConfiguredRules(old(rules) - {kn.handle}, kn, offMax, status)
      ensures rules.Keys == if status == Success then old(rules).Keys + {kn.handle} else old(rules).Keys - {kn.handle}
      ensures Valid() <==>
              && ConfigSound(Unfill(old(entries[..]), kn.handle), old(rules) - {kn.handle}, kn, offMax, status)
              && (status == Invalid ==> old(StaysInStep(ReplaceKnode(kn))))
      ensures status == Invalid <==> !Takes(Unfill(old(entries[..]), kn.handle), kn, offMax)
      ensures status == LoadFailed <==> !dev.NoTimeoutSince(old(dev.waits))
      ensures status == LoadFailed ==> !dev.opMode.parserEnable
      ensures status == Success ==> dev.opMode.parserEnable
    {
      hide Fill, CheckedKey, Decision, Holds, MemRows, Enforces;
      hide SameRules, Unfill, LookupSound, ConfigSound, WellFormed;
      hide Redundant;
      ghost var s, m := entries[..], rules;
      WellFormedPointers(s);
      UnfillCorrectIffSound(s, m, kn.handle);
      UnfillEntry(kn.handle);
      FillTakenIff(entries[..], kn, offMax);
      hide Takes;
      rules := m - {kn.handle};
      status := ConfigKnode(kn);
      if status == Invalid && dev.opMode.parserEnable {
        ghost var rows := MemRows(dev.imem, dev.validEntries);
        if kn.handle in m {
          RefusedReplacementIff(s, m, kn, offMax, rows);
        } else {
          UnfillUnknown(s, m, kn.handle);
          RefusedSameMains(s, kn, offMax);
          EnforcesSame(rows, s, entries[..], m);
        }
      }
    }

    /** What every frame gets between requests: acceptance while the parser is off; with it on, the
        verdict of the first rule whose rows match (which is that of the first whose key matches,
        where all splits are exact), or, with all 256 slots in use, no decision. */
    lemma FrameVerdict(frame: Frame) returns (v: Verdict)
      requires Valid()
      ensures var outcome := FilterOutcome(dev.opMode.parserEnable, MemRows(dev.imem, dev.validEntries), frame);
              outcome == if dev.opMode.parserEnable && !HasRoom(entries[..]) then Stuck else Decided(v)
      ensures if (dev.opMode.parserEnable && HasRoom(entries[..])) || rules == map[]
              then IsVerdict(ByRows, entries[..], rules, frame, v)
                  && (AllExact(rules) ==> IsVerdict(ByKeys, entries[..], rules, frame, v))
              else v == Accept
    {
      hide Run, MemRows, Asks, Holds;
      ghost var s := entries[..];
      v := Accept;
      if dev.opMode.parserEnable && HasRoom(s) {
        assert DecidesLike(MemRows(dev.imem, dev.validEntries), s, rules, frame);
        v :| Run(MemRows(dev.imem, dev.validEntries), frame, 0) == Decided(v) && IsVerdict(ByRows, s, rules, frame, v);
      } else if rules == map[] {
        assert forall k: nat :: !Matches(ByRows, s, rules, frame, k);
      }
      if AllExact(rules) && IsVerdict(ByRows, s, rules, frame, v) {
        ReadingsAgree(s, rules, frame, v);
      }
    }
  }

  // ----- refused replacements -----

  /** Without the rule of `h` every frame has the verdict that it has with it. */
  ghost predicate Redundant(s: Slots, m: Rules, h: nat)
    requires PointersInTable(s)
  {
    forall frame: Frame, v :: IsVerdict(ByRows, s, m, frame, v) ==> IsVerdict(ByRows, Unfill(s, h), m - {h}, frame, v)
  }

  lemma {:induction false} RunDecidesOnce(rows: seq<Row>, s: Slots, m: Rules, frame: Frame, v: Verdict)
    requires DecidesLike(rows, s, m, frame) && IsVerdict(ByRows, s, m, frame, v)
    ensures Run(rows, frame, 0) == Decided(v)
  {
    hide Run, IsVerdict;
    var w :| Run(rows, frame, 0) == Decided(w) && IsVerdict(ByRows, s, m, frame, w);
    VerdictUnique(ByRows, s, m, frame, v, w);
  }

  /** Hardware that enforces the old rules enforces those without `h` exactly if `h` is redundant. */
  lemma DecidesWithoutIff(rows: seq<Row>, s: Slots, m: Rules, h: nat)
    requires PointersInTable(s) && forall frame: Frame :: DecidesLike(rows, s, m, frame)
    ensures (forall frame: Frame :: DecidesLike(rows, Unfill(s, h), m - {h}, frame)) <==> Redundant(s, m, h)
  {
    hide Run, IsVerdict, Unfill;
    var u, m' := Unfill(s, h), m - {h};
    if forall frame: Frame :: DecidesLike(rows, u, m', frame) {
      forall frame: Frame, v | IsVerdict(ByRows, s, m, frame, v)
        ensures IsVerdict(ByRows, u, m', frame, v)
      {
        RunDecidesOnce(rows, s, m, frame, v);
        assert DecidesLike(rows, u, m', frame);
      }
    }
    if Redundant(s, m, h) {
      forall frame: Frame
        ensures DecidesLike(rows, u, m', frame)
      {
        assert DecidesLike(rows, s, m, frame);
        var v :| Run(rows, frame, 0) == Decided(v) && IsVerdict(ByRows, s, m, frame, v);
        assert IsVerdict(ByRows, u, m', frame, v);
      }
    }
  }

  /** After a refused replacement of an installed rule, hardware that enforced the rules enforces
      those that are left exactly if the table had room and the old rule was redundant. */
  lemma RefusedReplacementIff(s: Slots, m: Rules, kn: Knode, offMax: nat, rows: seq<Row>)
    requires Refines(s, m) && kn.handle in m && LookupSound(s, m, kn.handle) && offMax <= OFF_MAX_BOUND
    requires Enforces(rows, s, m) && !Fill(Unfill(s, kn.handle), kn, offMax).1
    ensures Enforces(rows, Fill(Unfill(s, kn.handle), kn, offMax).0, m - {kn.handle})
            <==> HasRoom(s) && Redundant(s, m, kn.handle)
  {
    hide Run, Fill, Unfill, LookupSound, Redundant, DecidesLike, Holds;
    var h := kn.handle;
    var u, m' := Unfill(s, h), m - {h};
    UnfillCorrectIffSound(s, m, h);
    UnfillMakesRoom(s, m, h);
    RefusedSameMains(u, kn, offMax);
    var t := Fill(u, kn, offMax).0;
    SameMainsSymmetric(u, t);
    forall frame: Frame
      ensures DecidesLike(rows, t, m', frame) <==> DecidesLike(rows, u, m', frame)
    {
      if DecidesLike(rows, u, m', frame) { DecidesSame(rows, u, t, m', frame); }
      if DecidesLike(rows, t, m', frame) { DecidesSame(rows, t, u, m', frame); }
    }
    if HasRoom(s) {
      DecidesWithoutIff(rows, s, m, h);
    } else {
      var frame: Frame := _ => 0;
      assert !DecidesLike(rows, t, m', frame) by { StuckDecidesNothing(rows, t, m', frame); }
    }
  }

  lemma {:induction false} StuckDecidesNothing(rows: seq<Row>, t: Slots, m: Rules, frame: Frame)
    requires Run(rows, frame, 0) == Stuck
    ensures !DecidesLike(rows, t, m, frame)
  {
  }

  /** Clearing an installed rule frees its slot. */
  lemma UnfillMakesRoom(s: Slots, m: Rules, h: nat)
    requires Refines(s, m) && h in m && LookupSound(s, m, h)
    ensures HasRoom(Unfill(s, h))
  {
    hide Stores;
    var k: nat :| MainOf(s, k, h);
    assert CarriesHandle(s[k], h);
    var j := FindHandle(s, h, |s|).value;
    assert !Unfill(s, h)[j].inUse;
  }

  /** A run that gets out of step: a drop rule is installed, and a request to replace it is
      refused.  The table is empty, and the hardware goes on dropping. */
  lemma RefusedReplacementOccurs(count: nat, kn: Knode, kn': Knode, offMax: nat, s1: Slots, s2: Slots, rows: seq<Row>)
    requires count >= 2 && offMax <= OFF_MAX_BOUND && PlainRequest(kn, offMax)
            && Decision(kn.actions) == Some(FrpRow.Drop)
    requires kn'.handle == kn.handle != 0 && CheckedKey(kn', offMax).None?
    requires PointersInTable(s1)
    requires Step(InitialSlots(count), NewKnode(kn), offMax, Success, s1)
    requires Enforces(rows, s1, map[kn.handle := RuleOf(kn, offMax)])
    requires Step(s1, ReplaceKnode(kn'), offMax, Invalid, s2)
    ensures Refines(s2, map[]) && !Enforces(rows, s2, map[])
  {
    hide CheckedKey, Decision, WellFormed, Holds, LookupSound, Unfill, Enforces, Redundant;
    var s0, h, rule := InitialSlots(count), kn.handle, RuleOf(kn, offMax);
    var m := map[h := rule];
    InitialRefines(count);
    assert FindFree(s0) == Some(0);
    AlignedFill(s0, kn, offMax, 0, s1);
    StepKeeps(s0, map[], NewKnode(kn), offMax, Success, s1);
    assert HasRoom(s1) by { assert |s1| > 2 ==> !s1[1].inUse; }
    assert m == RulesAfter(map[], NewKnode(kn), offMax, Success);
    LastCarrier(s1, h, 0);
    FoundSound(s1, m, h, 0);
    StepKeeps(s1, m, ReplaceKnode(kn'), offMax, Invalid, s2);
    assert m - {h} == map[];
    RefusedReplacementIff(s1, m, kn', offMax, rows);
    OnlyDropRule(s1, h, rule, 0);
  }

  /** A drop rule that is alone is not redundant. */
  lemma OnlyDropRule(s: Slots, h: nat, rule: Rule, k: nat)
    requires Refines(s, map[h := rule]) && MainOf(s, k, h) && rule.verdict == FrpRow.Drop && rule.key.off % 4 == 0
    ensures !Redundant(s, map[h := rule], h)
  {
    hide KeyMatches, RowsHit, Unfill, SplitExact;
    var m := map[h := rule];
    var frame := OwnFrame(rule.key);
    assert SplitExact(rule.key) by { AlignedExact(rule.key); }
    SplitCorrectIffExact(rule.key);
    assert Matches(ByRows, s, m, frame, k);
    assert forall j: nat :: Matches(ByRows, s, m, frame, j) ==> j == k by {
      forall j: nat | Matches(ByRows, s, m, frame, j) ensures j == k { assert MainOf(s, j, h); }
    }
    assert IsVerdict(ByRows, s, m, frame, FrpRow.Drop) by { assert Wins(ByRows, s, m, frame, k); }
    assert m - {h} == map[];
    assert forall j: nat :: !Matches(ByRows, Unfill(s, h), map[], frame, j);
    assert !IsVerdict(ByRows, Unfill(s, h), map[], frame, FrpRow.Drop);
  }

  lemma AlignedExact(key: Key)
    requires key.off % 4 == 0
    ensures SplitExact(key)
  {
  }

  lemma OwnFrame(key: Key) returns (frame: Frame)
    ensures KeyMatches(key, frame)
  {
    hide ByteAgrees, FrameWith;
    var w := key.data;
    frame := FrameWith(key.off, w);
    FrameWithWord(key.off, w);
    OwnByteAgrees(w.b0, key.mask.b0);
    OwnByteAgrees(w.b1, key.mask.b1);
    OwnByteAgrees(w.b2, key.mask.b2);
    OwnByteAgrees(w.b3, key.mask.b3);
  }

  // ----- runs on the hardware -----

  /** What a caller can find out before a request: the look-ups it may need are sound, it does not
      spoil the table, and it does not end in the refused replacement of a rule that an enabled
      parser enforces. */
  predicate Acceptable(s: Slots, m: Rules, req: Request, offMax: nat, parserOn: bool)
    requires offMax <= OFF_MAX_BOUND
  {
    && PointersInTable(s)
    && match req
       case NewKnode(kn) => NewHandle(m, kn) && ConfigAcceptable(s, m, kn, offMax)
       case ReplaceKnode(kn) =>
         && kn.handle != 0 && LookupSound(s, m, kn.handle)
         && ConfigAcceptable(Unfill(s, kn.handle), m - {kn.handle}, kn, offMax)
         && (kn.handle in m && parserOn ==> Fill(Unfill(s, kn.handle), kn, offMax).1)
       case DeleteKnode(h) => h != 0 && LookupSound(s, m, h)
  }

  predicate ConfigAcceptable(s: Slots, m: Rules, kn: Knode, offMax: nat)
    requires offMax <= OFF_MAX_BOUND
  {
    !SpoilsTable(s, kn, offMax) && RollbackSound(s, m, kn, offMax)
  }

  lemma AcceptableSound(s: Slots, m: Rules, req: Request, offMax: nat, parserOn: bool)
    requires offMax <= OFF_MAX_BOUND && Acceptable(s, m, req, offMax, parserOn)
    ensures PointersInTable(s) && Ready(s, m, req) && (forall status :: Sound(s, m, req, offMax, status))
    ensures req.DeleteKnode? ==> LookupSound(s, m, req.handle)
  {
    hide SpoilsTable, RollbackSound, LookupSound, Unfill;
  }

  /** One request of a run, passed on if it is acceptable. */
  method ServeNext(d: Driver, req: Request, rules: Rules) returns (outcome: Option<Status>, rules': Rules)
    requires d.Valid() && rules == d.rules
    modifies d, d.entries, d.dev
    ensures d.Valid() && rules' == d.rules
    ensures outcome.None? <==> !Acceptable(old(d.entries[..]), rules, req, d.offMax, old(d.dev.opMode.parserEnable))
    ensures match outcome
            case None => d.entries[..] == old(d.entries[..]) && d.dev.opMode == old(d.dev.opMode) && rules' == rules
            case Some(status) =>
              && PointersInTable(old(d.entries[..]))
              && Step(old(d.entries[..]), req, d.offMax, status, d.entries[..])
              && rules' == RulesAfter(rules, req, d.offMax, status)
  {
    hide WellFormed, Holds, LookupSound, Enforces, MemRows, CheckedKey;
    hide Decision, Fill, Unfill, RulesAfter, Redundant, SameRules;
    hide SpoilsTable, RollbackSound;
    if !Acceptable(d.entries[..], rules, req, d.offMax, d.dev.opMode.parserEnable) {
      return None, rules;
    }
    AcceptableSound(d.entries[..], rules, req, d.offMax, d.dev.opMode.parserEnable);
    var status := d.SetupClsU32(req);
    outcome, rules' := Some(status), RulesAfter(rules, req, d.offMax, status);
  }

  /** The slots and the parser between two requests. */
  datatype Snapshot = Snapshot(slots: Slots, parserOn: bool)

  /** The rules after the first `n` requests of a run; those without an outcome were not passed
      on. */
  function RulesServed(offMax: nat, reqs: seq<Request>, outcomes: seq<Option<Status>>, n: nat): Rules
    requires n <= |outcomes| <= |reqs|
  {
    if n == 0 then map[]
    else
      var m := RulesServed(offMax, reqs, outcomes, n - 1);
      match outcomes[n - 1]
      case None => m
      case Some(status) => RulesAfter(m, reqs[n - 1], offMax, status)
  }

  lemma {:induction false} RulesServedPrefix(offMax: nat, reqs: seq<Request>, outcomes: seq<Option<Status>>,
                                             next: Option<Status>, n: nat)
    requires n <= |outcomes| < |reqs|
    ensures RulesServed(offMax, reqs, outcomes + [next], n) == RulesServed(offMax, reqs, outcomes, n)
  {
    if n > 0 {
      RulesServedPrefix(offMax, reqs, outcomes, next, n - 1);
    }
  }

  /** One request with its outcome, between two snapshots: passed on exactly if it is acceptable. */
  ghost predicate ServedStep(offMax: nat, m: Rules, req: Request, outcome: Option<Status>, x: Snapshot, y: Snapshot)
    requires offMax <= OFF_MAX_BOUND
  {
    && (outcome.None? <==> !Acceptable(x.slots, m, req, offMax, x.parserOn))
    && match outcome
       case None => y == x
       case Some(status) => PointersInTable(x.slots) && Step(x.slots, req, offMax, status, y.slots)
  }

  ghost predicate Served(offMax: nat, reqs: seq<Request>, outcomes: seq<Option<Status>>, snaps: seq<Snapshot>)
    requires offMax <= OFF_MAX_BOUND
  {
    && |outcomes| <= |reqs| && |snaps| == |outcomes| + 1
    && forall i :: 0 <= i < |outcomes| ==>
         ServedStep(offMax, RulesServed(offMax, reqs, outcomes, i), reqs[i], outcomes[i], snaps[i], snaps[i + 1])
  }

  lemma {:induction false} ServedNext(offMax: nat, reqs: seq<Request>, outcomes: seq<Option<Status>>,
                                      snaps: seq<Snapshot>, outcome: Option<Status>, snap: Snapshot)
    requires offMax <= OFF_MAX_BOUND && Served(offMax, reqs, outcomes, snaps) && |outcomes| < |reqs|
    requires var i := |outcomes|;
             ServedStep(offMax, RulesServed(offMax, reqs, outcomes, i), reqs[i], outcome, snaps[i], snap)
    ensures Served(offMax, reqs, outcomes + [outcome], snaps + [snap])
    ensures RulesServed(offMax, reqs, outcomes + [outcome], |outcomes|)
            == RulesServed(offMax, reqs, outcomes, |outcomes|)
  {
    hide ServedStep;
    forall i | 0 <= i <= |outcomes|
      ensures RulesServed(offMax, reqs, outcomes + [outcome], i) == RulesServed(offMax, reqs, outcomes, i)
    {
      RulesServedPrefix(offMax, reqs, outcomes, outcome, i);
    }
  }

  /** Any run of requests, whatever they are and whatever loads fail, of which the acceptable ones are
      passed on: between any two requests the hardware enforces exactly the rules that the outcomes
      so far call for; after a failed load it passes everything, and with all 256 slots in use it
      decides no frame. */
  method Serve(d: Driver, reqs: seq<Request>)
    returns (outcomes: seq<Option<Status>>, rules: Rules, ghost snaps: seq<Snapshot>)
    requires d.Valid() && d.rules == map[]
    modifies d, d.entries, d.dev
    ensures d.Valid() && |outcomes| == |reqs|
    ensures rules == d.rules == RulesServed(d.offMax, reqs, outcomes, |reqs|)
    ensures Served(d.offMax, reqs, outcomes, snaps) && snaps[0].slots == old(d.entries[..])
    ensures snaps[|reqs|] == Snapshot(d.entries[..], d.dev.opMode.parserEnable)
    ensures d.dev.opMode.parserEnable && HasRoom(d.entries[..]) ==>
              forall frame: Frame :: DecidesLike(MemRows(d.dev.imem, d.dev.validEntries), d.entries[..], rules, frame)
  {
    hide WellFormed, Holds, MemRows, Step, Acceptable, DecidesLike;
    outcomes, rules, snaps := [], map[], [Snapshot(d.entries[..], d.dev.opMode.parserEnable)];
    while |outcomes| < |reqs|
      invariant d.Valid() && |outcomes| <= |reqs| && rules == d.rules
      invariant Served(d.offMax, reqs, outcomes, snaps) && snaps[0].slots == old(d.entries[..])
      invariant rules == RulesServed(d.offMax, reqs, outcomes, |outcomes|)
      invariant snaps[|outcomes|] == Snapshot(d.entries[..], d.dev.opMode.parserEnable)
    {
      var outcome;
      outcome, rules := ServeNext(d, reqs[|outcomes|], rules);
      ghost var snap := Snapshot(d.entries[..], d.dev.opMode.parserEnable);
      ServedNext(d.offMax, reqs, outcomes, snaps, outcome, snap);
      outcomes, snaps := outcomes + [outcome], snaps + [snap];
    }
  }

  // ----- runs with fresh handles -----

  /** The handles that the first `n` requests introduce. */
  function NewHandles(reqs: seq<Request>, n: nat): set<nat>
    requires n <= |reqs|
  {
    if n == 0 then {} else NewHandles(reqs, n - 1) + (if reqs[n - 1].DeleteKnode? then {} else {HandleOf(reqs[n - 1])})
  }

  /** New rules have new, nonzero handles, and none is refused after its key has been split. */
  predicate FreshHandles(reqs: seq<Request>, used: set<nat>, offMax: nat) {
    forall i :: 0 <= i < |reqs| && !reqs[i].DeleteKnode? ==>
      HandleOf(reqs[i]) != 0 && HandleOf(reqs[i]) !in used + NewHandles(reqs, i) && NeverSpoils(reqs[i].kn, offMax)
  }

  lemma DisciplinedAcceptable(s: Slots, m: Rules, used: set<nat>, req: Request, offMax: nat, parserOn: bool)
    requires Refines(s, m) && Tracked(s, m, used) && offMax <= OFF_MAX_BOUND && Disciplined(req, m, used, offMax)
    ensures Acceptable(s, m, req, offMax, parserOn)
  {
    DisciplinedSafe(s, m, used, req, offMax);
    assert req.DeleteKnode? ==> req.handle != 0;
    hide SpoilsTable, RollbackSound, LookupSound, Unfill, Fill, Tracked, NeverSpoils, Holds;
    assert Sound(s, m, req, offMax, Invalid) && Sound(s, m, req, offMax, LoadFailed);
  }

  /** In a run with fresh handles every request is passed on, except deletions of rules that are not
      installed. */
  lemma {:induction false} FreshServed(offMax: nat, reqs: seq<Request>, outcomes: seq<Option<Status>>,
                                       snaps: seq<Snapshot>, used: set<nat>, n: nat)
    requires offMax <= OFF_MAX_BOUND && Served(offMax, reqs, outcomes, snaps) && n <= |outcomes|
    requires Refines(snaps[0].slots, map[]) && Tracked(snaps[0].slots, map[], used) && FreshHandles(reqs, used, offMax)
    ensures Refines(snaps[n].slots, RulesServed(offMax, reqs, outcomes, n))
    ensures Tracked(snaps[n].slots, RulesServed(offMax, reqs, outcomes, n), used + NewHandles(reqs, n))
    ensures forall i :: 0 <= i < n && outcomes[i].None? ==>
              reqs[i].DeleteKnode? && reqs[i].handle !in RulesServed(offMax, reqs, outcomes, i)
  {
    hide Refines, Tracked, ServedStep, NeverSpoils;
    if n == 0 {
      assert used + NewHandles(reqs, 0) == used;
    } else {
      FreshServed(offMax, reqs, outcomes, snaps, used, n - 1);
      FreshRequest(offMax, reqs, outcomes, snaps, used, n - 1);
      hide Served, FreshHandles;
      FreshStep(offMax, RulesServed(offMax, reqs, outcomes, n - 1), used + NewHandles(reqs, n - 1), reqs[n - 1],
                outcomes[n - 1], snaps[n - 1], snaps[n]);
    }
  }

  lemma FreshRequest(offMax: nat, reqs: seq<Request>, outcomes: seq<Option<Status>>, snaps: seq<Snapshot>,
                     used: set<nat>, i: nat)
    requires offMax <= OFF_MAX_BOUND && Served(offMax, reqs, outcomes, snaps) && i < |outcomes|
    requires FreshHandles(reqs, used, offMax)
    ensures ServedStep(offMax, RulesServed(offMax, reqs, outcomes, i), reqs[i], outcomes[i], snaps[i], snaps[i + 1])
    ensures !reqs[i].DeleteKnode? ==>
              && HandleOf(reqs[i]) != 0 && HandleOf(reqs[i]) !in used + NewHandles(reqs, i)
              && NeverSpoils(reqs[i].kn, offMax)
    ensures used + NewHandles(reqs, i + 1)
            == used + NewHandles(reqs, i) + (if reqs[i].DeleteKnode? then {} else {HandleOf(reqs[i])})
  {
    hide ServedStep, NeverSpoils;
  }

  lemma FreshStep(offMax: nat, m: Rules, known: set<nat>, req: Request, outcome: Option<Status>,
                  x: Snapshot, y: Snapshot)
    requires offMax <= OFF_MAX_BOUND && Refines(x.slots, m) && Tracked(x.slots, m, known)
    requires ServedStep(offMax, m, req, outcome, x, y)
    requires !req.DeleteKnode? ==> HandleOf(req) != 0 && HandleOf(req) !in known && NeverSpoils(req.kn, offMax)
    ensures var m' := if outcome.None? then m else RulesAfter(m, req, offMax, outcome.value);
            && Refines(y.slots, m')
            && Tracked(y.slots, m', known + (if req.DeleteKnode? then {} else {HandleOf(req)}))
    ensures outcome.None? ==> req.DeleteKnode? && req.handle !in m
  {
    hide WellFormed, Holds, Tracked, LookupSound, SpoilsTable, RollbackSound;
    hide Unfill, Fill, NeverSpoils, SameRules, Sound, Step;
    if Disciplined(req, m, known, offMax) {
      DisciplinedAcceptable(x.slots, m, known, req, offMax, x.parserOn);
      DisciplinedSafe(x.slots, m, known, req, offMax);
      StepKeeps(x.slots, m, req, offMax, outcome.value, y.slots);
      DisciplinedStep(x.slots, m, known, req, offMax, outcome.value, y.slots);
      if req.DeleteKnode? { assert known + {HandleOf(req)} == known == known + {}; }
    } else if outcome.Some? {
      UnknownDelete(offMax, m, known, req, outcome.value, x.slots, y.slots);
    } else {
      assert known + {} == known;
    }
  }

  lemma UnknownDelete(offMax: nat, m: Rules, known: set<nat>, req: Request, status: Status, s: Slots, s': Slots)
    requires offMax <= OFF_MAX_BOUND && Refines(s, m) && Tracked(s, m, known)
    requires req.DeleteKnode? && req.handle !in m && req.handle != 0 && LookupSound(s, m, req.handle)
    requires Step(s, req, offMax, status, s')
    ensures Refines(s', m) && Tracked(s', m, known + {}) && RulesAfter(m, req, offMax, status) == m
  {
    hide WellFormed, Holds, Tracked, LookupSound, Unfill, SameRules;
    UnfillUnknown(s, m, req.handle);
    RefinesSame(s, s', m);
    TrackedSame(s, s', m, known);
    assert known + {} == known;
  }
}
