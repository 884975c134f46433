/** The L3/L4 flow table: hardware filter slots found by the cookie of the flow they carry. */
module FlowTable {
  import opened Wrappers

  /** `drop` asks for the inverse match. */
  datatype FlowEntry = FlowEntry(cookie: nat, inUse: bool, isL4: bool, drop: bool)

  const EMPTY := FlowEntry(0, false, false, false)

  /** A flow: whether it has actions and one of them drops, and which of the three parsers (basic,
      IPv4 addresses, ports) take it. */
  datatype Flow = Flow(cookie: nat, hasActions: bool, drops: bool, basic: bool, ip4: bool, ports: bool)

  datatype Status = Done | NoEntry | Invalid

  type Slots = seq<FlowEntry>

  /** tc_find_flow: the first slot from `i` on with the cookie, or, if asked, not in use. */
  function FindFlow(s: Slots, cookie: nat, getFree: bool, i: nat): (r: Option<nat>)
    requires i <= |s|
    ensures r.Some? ==> i <= r.value < |s| && (s[r.value].cookie == cookie || (getFree && !s[r.value].inUse))
    ensures forall j :: i <= j < (if r.Some? then r.value else |s|) ==>
            s[j].cookie != cookie && (getFree ==> s[j].inUse)
    decreases |s| - i
  {
    if i == |s| then None
    else if s[i].cookie == cookie || (getFree && !s[i].inUse) then Some(i)
    else FindFlow(s, cookie, getFree, i + 1)
  }

  /** The slot for a flow to add: its own, else the first free one. */
  function SlotFor(s: Slots, cookie: nat): Option<nat> {
    if FindFlow(s, cookie, false, 0).Some? then FindFlow(s, cookie, false, 0) else FindFlow(s, cookie, true, 0)
  }

  /** What the parsers leave in the slot. */
  function Parsed(e: FlowEntry, f: Flow): FlowEntry {
    e.(drop := e.drop || f.drops, inUse := e.inUse || f.basic || f.ip4 || f.ports, isL4 := e.isL4 || f.ports)
  }

  /** tc_add_flow */
  function Add(s: Slots, f: Flow): (Slots, Status) {
    match SlotFor(s, f.cookie)
    case None => (s, NoEntry)
    case Some(i) =>
      if !f.hasActions then (s, Invalid)
      else
        var e := Parsed(s[i], f);
        if e.inUse then (s[i := e.(cookie := f.cookie)], Done) else (s[i := e], Invalid)
  }

  function Freed(e: FlowEntry): FlowEntry {
    e.(inUse := false, cookie := 0, isL4 := false)
  }

  /** tc_del_flow */
  function Delete(s: Slots, cookie: nat): (Slots, Status) {
    match FindFlow(s, cookie, false, 0)
    case None => (s, NoEntry)
    case Some(i) =>
      if !s[i].inUse then (s, NoEntry) else (s[i := Freed(s[i])], Done)
  }

  /** When a flow is installed, and what its slot then says: it has its own slot or a free one, it has
      actions, and the slot is in use already or one of the three parsers takes the flow. */
  lemma AddMeaning(s: Slots, f: Flow)
    ensures var (s', status) := Add(s, f);
            var slot := SlotFor(s, f.cookie);
            && |s'| == |s|
            && (status == NoEntry <==> slot.None?)
            && (status == Done <==> slot.Some? && f.hasActions && (s[slot.value].inUse || f.basic || f.ip4 || f.ports))
            && (status == Done ==>
                  var e, e' := s[slot.value], s'[slot.value];
                  e'.inUse && e'.cookie == f.cookie && (e'.isL4 <==> e.isL4 || f.ports))
            && forall j :: 0 <= j < |s| && slot != Some(j) ==> s'[j] == s[j]
  {
  }

  /** No free slot is marked as a port filter. */
  predicate L4Clean(s: Slots) {
    forall i :: 0 <= i < |s| && s[i].isL4 ==> s[i].inUse
  }

  /** Every operation keeps that, so a flow in a slot that was free is a port filter exactly if it has
      ports. */
  lemma L4Kept(s: Slots, op: Op)
    requires L4Clean(s)
    ensures L4Clean(Apply(s, op))
    ensures op.AddFlow? && Add(s, op.flow).1 == Done ==>
              var i := SlotFor(s, op.flow.cookie).value;
              !s[i].inUse ==> (Apply(s, op)[i].isL4 <==> op.flow.ports)
  {
    hide FindFlow;
  }

  // ----- what the table stands for -----

  /** The flows installed, each with its slot. */
  type Flows = map<nat, nat>

  predicate InSlot(s: Slots, i: nat, cookie: nat) {
    i < |s| && cookie != 0 && s[i].cookie == cookie
  }

  ghost predicate Represents(s: Slots, m: Flows) {
    && (forall i :: 0 <= i < |s| ==> s[i].inUse == (s[i].cookie != 0))
    && (forall c: nat :: c in m ==> InSlot(s, m[c], c))
    && (forall c: nat, i: nat :: InSlot(s, i, c) ==> c in m && m[c] == i)
  }

  /** Putting a flow in a slot that is free or its own. */
  lemma PutKeeps(s: Slots, m: Flows, i: nat, e: FlowEntry)
    requires Represents(s, m) && i < |s| && e.cookie != 0 && e.inUse
    requires s[i].cookie == 0 || s[i].cookie == e.cookie
    requires forall j :: 0 <= j < |s| && j != i ==> s[j].cookie != e.cookie
    ensures Represents(s[i := e], m[e.cookie := i])
  {
    var s' := s[i := e];
    assert forall j: nat, c: nat :: j != i ==> (InSlot(s', j, c) <==> InSlot(s, j, c));
    assert forall c: nat :: InSlot(s', i, c) <==> c == e.cookie;
  }

  /** The slot for a flow is its own if it has one, and otherwise a free one if there is one. */
  lemma SlotForIs(s: Slots, m: Flows, cookie: nat)
    requires Represents(s, m) && cookie != 0
    ensures var slot := SlotFor(s, cookie);
            && (cookie in m ==> slot == Some(m[cookie]))
            && (slot.None? <==> cookie !in m && forall i :: 0 <= i < |s| ==> s[i].inUse)
            && (slot.Some? ==> slot.value < |s| && (s[slot.value].cookie == 0 || s[slot.value].cookie == cookie)
                               && forall j :: 0 <= j < |s| && j != slot.value ==> s[j].cookie != cookie)
  {
    var own := FindFlow(s, cookie, false, 0);
    assert own.Some? ==> InSlot(s, own.value, cookie);
    assert forall j: nat :: j < |s| && s[j].cookie == cookie ==> InSlot(s, j, cookie);
  }

  /** Adding a flow with a nonzero cookie: it gets its own slot or the first free one, every other
      flow keeps its slot, and the table is full exactly when there is no slot for it. */
  lemma AddKeeps(s: Slots, m: Flows, f: Flow)
    requires Represents(s, m) && f.cookie != 0
    ensures var (s', status) := Add(s, f);
            && |s'| == |s|
            && Represents(s', if status == Done then m[f.cookie := SlotFor(s, f.cookie).value] else m)
            && (f.cookie in m ==> SlotFor(s, f.cookie) == Some(m[f.cookie]))
            && (status == NoEntry <==> f.cookie !in m && forall i :: 0 <= i < |s| ==> s[i].inUse)
  {
    hide SlotFor;
    SlotForIs(s, m, f.cookie);
    var slot := SlotFor(s, f.cookie);
    var (s', status) := Add(s, f);
    if status == Done {
      assert s' == s[slot.value := s'[slot.value]];
      PutKeeps(s, m, slot.value, s'[slot.value]);
    } else if slot.Some? && f.hasActions {
      assert s' == s[slot.value := s'[slot.value]];
      RefusedKeeps(s, m, slot.value, s'[slot.value]);
    }
  }

  /** A refused flow leaves its free slot free. */
  lemma RefusedKeeps(s: Slots, m: Flows, i: nat, e: FlowEntry)
    requires Represents(s, m) && i < |s| && !e.inUse && !s[i].inUse && e.cookie == s[i].cookie
    ensures Represents(s[i := e], m)
  {
    var s' := s[i := e];
    assert forall j: nat, c: nat :: InSlot(s', j, c) <==> InSlot(s, j, c);
  }

  /** With any cookie: the table goes on standing for the flows exactly unless a flow with cookie
      zero is installed, which no look-up can tell from a free slot. */
  lemma AddKeepsIff(s: Slots, m: Flows, f: Flow)
    requires Represents(s, m)
    ensures var (s', status) := Add(s, f);
            && |s'| == |s| && (status == Done ==> SlotFor(s, f.cookie).Some?)
            && (Represents(s', if status == Done then m[f.cookie := SlotFor(s, f.cookie).value] else m)
                <==> f.cookie != 0 || status != Done)
  {
    var (s', status) := Add(s, f);
    if f.cookie != 0 {
      AddKeeps(s, m, f);
    } else if SlotFor(s, 0).Some? {
      var i := SlotFor(s, 0).value;
      assert s[i].cookie == 0;
      hide SlotFor;
      if status == Done {
        assert s'[i].inUse && s'[i].cookie == 0;
      } else if f.hasActions {
        RefusedKeeps(s, m, i, s'[i]);
      }
    }
  }

  /** The deletion of cookie zero finds a free slot, if any. */
  lemma NothingToDelete(s: Slots, m: Flows)
    requires Represents(s, m)
    ensures Delete(s, 0) == (s, NoEntry) && 0 !in m && m - {0} == m
  {
    assert forall c: nat :: c in m ==> InSlot(s, m[c], c);
    assert m - {0} == m;
  }

  /** Deleting a flow frees its slot and no other. */
  lemma DeleteKeeps(s: Slots, m: Flows, cookie: nat)
    requires Represents(s, m) && cookie != 0
    ensures var (s', status) := Delete(s, cookie);
            |s'| == |s| && Represents(s', m - {cookie}) && (status == Done <==> cookie in m)
  {
    var found := FindFlow(s, cookie, false, 0);
    if found.Some? {
      var k, s' := found.value, Delete(s, cookie).0;
      assert InSlot(s, k, cookie);
      assert forall i: nat, c: nat :: InSlot(s', i, c) <==> InSlot(s, i, c) && i != k;
      assert forall c: nat :: InSlot(s, k, c) ==> c == cookie;
    } else {
      assert m - {cookie} == m;
    }
  }

  // ----- runs -----

  datatype Op = AddFlow(flow: Flow) | DelFlow(cookie: nat)

  function CookieOf(op: Op): nat {
    match op case AddFlow(f) => f.cookie case DelFlow(c) => c
  }

  function Apply(s: Slots, op: Op): Slots {
    match op case AddFlow(f) => Add(s, f).0 case DelFlow(c) => Delete(s, c).0
  }

  /** The flows after an operation. */
  function FlowsAfter(s: Slots, m: Flows, op: Op): Flows {
    match op
    case AddFlow(f) => if Add(s, f).1 == Done then m[f.cookie := SlotFor(s, f.cookie).value] else m
    case DelFlow(c) => m - {c}
  }

  function RunSlots(s: Slots, ops: seq<Op>): Slots
    decreases |ops|
  {
    if ops == [] then s else RunSlots(Apply(s, ops[0]), ops[1..])
  }

  function RunFlows(s: Slots, m: Flows, ops: seq<Op>): Flows
    decreases |ops|
  {
    if ops == [] then m else RunFlows(Apply(s, ops[0]), FlowsAfter(s, m, ops[0]), ops[1..])
  }

  /** Over every run with nonzero cookies, the slots carry exactly the flows added and not yet
      deleted. */
  lemma {:induction false} RunKeeps(s: Slots, m: Flows, ops: seq<Op>)
    requires Represents(s, m) && forall i :: 0 <= i < |ops| ==> CookieOf(ops[i]) != 0
    ensures Represents(RunSlots(s, ops), RunFlows(s, m, ops)) && |RunSlots(s, ops)| == |s|
    decreases |ops|
  {
    if ops != [] {
      assert CookieOf(ops[0]) != 0;
      match ops[0] {
        case AddFlow(f) => AddKeeps(s, m, f);
        case DelFlow(c) => DeleteKeeps(s, m, c);
      }
      hide Represents, Add, Delete;
      RunKeeps(Apply(s, ops[0]), FlowsAfter(s, m, ops[0]), ops[1..]);
    }
  }

  /** A flow keeps its slot over every run that does not delete it. */
  lemma {:induction false} SlotStable(s: Slots, m: Flows, ops: seq<Op>, cookie: nat)
    requires Represents(s, m) && cookie in m
    requires forall i :: 0 <= i < |ops| ==> CookieOf(ops[i]) != 0 && ops[i] != DelFlow(cookie)
    ensures cookie in RunFlows(s, m, ops) && RunFlows(s, m, ops)[cookie] == m[cookie]
    decreases |ops|
  {
    if ops != [] {
      assert CookieOf(ops[0]) != 0 && ops[0] != DelFlow(cookie);
      match ops[0] {
        case AddFlow(f) => AddKeeps(s, m, f);
        case DelFlow(c) => DeleteKeeps(s, m, c);
      }
      hide Represents, Add, Delete, SlotFor;
      SlotStable(Apply(s, ops[0]), FlowsAfter(s, m, ops[0]), ops[1..], cookie);
    }
  }

  // ----- cookie zero -----

  lemma {:induction false} FirstZero(s: Slots, i: nat)
    requires i < |s| && s[i].cookie == 0 && forall j :: 0 <= j < i ==> s[j].cookie != 0
    ensures FindFlow(s, 0, false, 0) == Some(i)
  {
  }

  /** A flow with cookie zero in slot `i` is what a deletion frees exactly if every earlier slot has
      a nonzero cookie: a free slot has cookie zero, too. */
  lemma ZeroCookieFreedIff(s: Slots, i: nat)
    requires i < |s| && s[i].inUse && s[i].cookie == 0
    ensures Delete(s, 0) == (s[i := Freed(s[i])], Done) <==> forall j :: 0 <= j < i ==> s[j].cookie != 0
  {
    if forall j :: 0 <= j < i ==> s[j].cookie != 0 {
      FirstZero(s, i);
    } else {
      var k := FindFlow(s, 0, false, 0).value;
      assert k < i;
      assert Delete(s, 0).0[i] == s[i] != Freed(s[i]);
    }
  }

  function EmptySlots(count: nat): Slots {
    seq(count, _ => EMPTY)
  }

  predicate TakenWithoutDrop(f: Flow) {
    f.hasActions && !f.drops && f.basic
  }

  /** A run that leaves such a flow behind for good: two flows, the second with cookie zero, and the
      deletion of the first. */
  lemma ZeroCookieStays(count: nat, f: Flow, z: Flow)
    requires count >= 2 && TakenWithoutDrop(f) && f.cookie != 0 && TakenWithoutDrop(z) && z.cookie == 0
    ensures var s := RunSlots(EmptySlots(count), [AddFlow(f), AddFlow(z), DelFlow(f.cookie)]);
            |s| == count && s[1].inUse && s[1].cookie == 0 && Delete(s, 0) == (s, NoEntry)
  {
    var s0 := EmptySlots(count);
    var s1 := Add(s0, f).0;
    FirstFit(s0, f.cookie);
    assert s1 == s0[0 := Parsed(EMPTY, f).(cookie := f.cookie)];
    FirstZero(s1, 1);
    var s2 := Add(s1, z).0;
    assert s2 == s1[1 := Parsed(EMPTY, z)];
    assert FindFlow(s2, f.cookie, false, 0) == Some(0);
    var s3 := Delete(s2, f.cookie).0;
    assert s3 == s2[0 := Freed(s2[0])];
    RunOfThree(s0, AddFlow(f), AddFlow(z), DelFlow(f.cookie));
    FirstZero(s3, 0);
  }

  lemma {:induction false} RunOfThree(s: Slots, a: Op, b: Op, c: Op)
    ensures RunSlots(s, [a, b, c]) == Apply(Apply(Apply(s, a), b), c)
  {
    hide Apply;
    assert [a, b, c][1..] == [b, c] && [b, c][1..] == [c] && [c][1..] == [];
    assert RunSlots(s, [a, b, c]) == RunSlots(Apply(s, a), [b, c]);
    assert RunSlots(Apply(s, a), [b, c]) == RunSlots(Apply(Apply(s, a), b), [c]);
  }

  /** A new flow goes to the first slot if that is free. */
  lemma FirstFit(s: Slots, cookie: nat)
    requires 0 < |s| && !s[0].inUse && forall j :: 0 <= j < |s| ==> s[j].cookie != cookie
    ensures SlotFor(s, cookie) == Some(0)
  {
    assert FindFlow(s, cookie, false, 0).None?;
  }

  // ----- the drop mark -----

  /** The drop mark of a slot is never cleared, by no operation of any run. */
  lemma {:induction false} DropMarksGrow(s: Slots, ops: seq<Op>, i: nat)
    requires i < |s| && s[i].drop
    ensures |RunSlots(s, ops)| == |s| && RunSlots(s, ops)[i].drop
    decreases |ops|
  {
    if ops != [] {
      hide SlotFor, FindFlow;
      DropMarksGrow(Apply(s, ops[0]), ops[1..], i);
    }
  }

  /** A flow that is added is installed with its own decision exactly if the slot it gets has no
      drop mark, or it drops. */
  lemma DropMarkRightIff(s: Slots, f: Flow)
    requires Add(s, f).1 == Done
    ensures var i := SlotFor(s, f.cookie).value;
            Add(s, f).0[i].drop == f.drops <==> (s[i].drop ==> f.drops)
  {
  }

  /** The operation adds a flow that drops, and the flow gets slot `i`. */
  predicate MarksDrop(s: Slots, op: Op, i: nat) {
    op.AddFlow? && op.flow.hasActions && op.flow.drops && SlotFor(s, op.flow.cookie) == Some(i)
  }

  /** Some operation of the run does. */
  predicate EverMarked(s: Slots, ops: seq<Op>, i: nat)
    decreases |ops|
  {
    ops != [] && (MarksDrop(s, ops[0], i) || EverMarked(Apply(s, ops[0]), ops[1..], i))
  }

  /** Over every run a slot has the drop mark exactly if it had it before, or some flow that got that
      slot, accepted or not, deleted since or not, drops. */
  lemma {:induction false} DropMarkIff(s: Slots, ops: seq<Op>, i: nat)
    requires i < |s|
    ensures |RunSlots(s, ops)| == |s|
    ensures RunSlots(s, ops)[i].drop <==> s[i].drop || EverMarked(s, ops, i)
    decreases |ops|
  {
    if ops != [] {
      OpMarks(s, ops[0], i);
      hide Apply, MarksDrop;
      DropMarkIff(Apply(s, ops[0]), ops[1..], i);
    }
  }

  lemma OpMarks(s: Slots, op: Op, i: nat)
    requires i < |s|
    ensures |Apply(s, op)| == |s|
    ensures Apply(s, op)[i].drop <==> s[i].drop || MarksDrop(s, op, i)
  {
    hide FindFlow;
  }

  /** A run that installs a flow without a drop action as a drop flow, in the slot of a deleted
      one. */
  lemma DropMarkStays(count: nat, dropped: Flow, f: Flow)
    requires count > 0 && dropped.hasActions && dropped.drops && dropped.basic && dropped.cookie != 0
    requires TakenWithoutDrop(f) && f.cookie != 0
    ensures var s := RunSlots(EmptySlots(count), [AddFlow(dropped), DelFlow(dropped.cookie), AddFlow(f)]);
            |s| == count && s[0].inUse && s[0].cookie == f.cookie && s[0].drop && !f.drops
    ensures forall i :: 0 <= i < count ==> !EmptySlots(count)[i].inUse && !EmptySlots(count)[i].drop
  {
    var s0 := EmptySlots(count);
    FirstFit(s0, dropped.cookie);
    var s1 := Add(s0, dropped).0;
    assert s1 == s0[0 := Parsed(EMPTY, dropped).(cookie := dropped.cookie)];
    assert FindFlow(s1, dropped.cookie, false, 0) == Some(0);
    var s2 := Delete(s1, dropped.cookie).0;
    assert s2 == s1[0 := Freed(s1[0])];
    FirstFit(s2, f.cookie);
    RunOfThree(s0, AddFlow(dropped), DelFlow(dropped.cookie), AddFlow(f));
  }

  // ----- the driver -----

  class Table {
    const entries: array<FlowEntry>
    ghost var flows: Flows

    ghost predicate Valid()
      reads this, entries
    {
      Represents(entries[..], flows)
    }

    constructor (count: nat)
      ensures Valid() && fresh(entries) && entries.Length == count && flows == map[]
      ensures forall i :: 0 <= i < count ==> entries[i] == FlowEntry(0, false, false, false)
    {
      entries := new FlowEntry[count](_ => EMPTY);
      flows := map[];
      new;
      assert forall i :: 0 <= i < count ==> entries[i] == EMPTY;
    }

    /** tc_find_flow */
    method Find(cookie: nat, getFree: bool) returns (found: Option<nat>)
      ensures found == FindFlow(entries[..], cookie, getFree, 0)
    {
      for i := 0 to entries.Length
        invariant FindFlow(entries[..], cookie, getFree, 0) == FindFlow(entries[..], cookie, getFree, i)
      {
        var entry := entries[i];
        if entry.cookie == cookie {
          return Some(i);
        }
        if getFree && !entry.inUse {
          return Some(i);
        }
      }
      found := None;
    }

    /** tc_parse_flow_actions and the three parsers, on the slot of the flow. */
    method Parse(i: nat, f: Flow)
      requires i < entries.Length
      modifies entries
      ensures entries[..] == old(entries[..])[i := Parsed(old(entries[i]), f)]
    {
      if f.drops {
        entries[i] := entries[i].(drop := true);
      }
      if f.basic {
        entries[i] := entries[i].(inUse := true);
      }
      if f.ip4 {
        entries[i] := entries[i].(inUse := true);
      }
      if f.ports {
        entries[i] := entries[i].(isL4 := true, inUse := true);
      }
    }

    /** tc_add_flow: table and flows stay in step unless a flow with cookie zero is installed. */
    method AddFlow(f: Flow) returns (status: Status)
      requires Valid()
      modifies this, entries
      ensures (entries[..], status) == Add(old(entries[..]), f)
      ensures Valid() <==> f.cookie != 0 || status != Done
      ensures flows == if status == Done then old(flows)[f.cookie := SlotFor(old(entries[..]), f.cookie).value]
              else old(flows)
    {
      ghost var s := entries[..];
      AddKeepsIff(s, flows, f);
      hide Represents, FindFlow, Parsed;
      var entry := Find(f.cookie, false);
      if entry.None? {
        entry := Find(f.cookie, true);
        if entry.None? {
          return NoEntry;
        }
      }
      var i := entry.value;
      if !f.hasActions {
        return Invalid;
      }
      assert SlotFor(s, f.cookie) == Some(i);
      Parse(i, f);
      if !entries[i].inUse {
        return Invalid;
      }
      entries[i] := entries[i].(cookie := f.cookie);
      assert entries[..] == s[i := Parsed(s[i], f).(cookie := f.cookie)];
      flows := flows[f.cookie := i];
      status := Done;
    }

    /** tc_del_flow */
    method DelFlow(cookie: nat) returns (status: Status)
      requires Valid()
      modifies this, entries
      ensures Valid() && (entries[..], status) == Delete(old(entries[..]), cookie)
      ensures flows == old(flows) - {cookie} && (status == Done <==> cookie in old(flows))
    {
      if cookie != 0 {
        DeleteKeeps(entries[..], flows, cookie);
      } else {
        NothingToDelete(entries[..], flows);
      }
      hide Represents;
      var entry := Find(cookie, false);
      flows := flows - {cookie};
      if entry.None? || !entries[entry.value].inUse {
        return NoEntry;
      }
      entries[entry.value] := entries[entry.value].(inUse := false, cookie := 0, isL4 := false);
      status := Done;
    }
  }
}
