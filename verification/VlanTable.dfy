/** The shared VLAN filter table: 16 slots, each with a reference count for each of four owners
    (virtual functions 1 to 3 and the driver itself, 4), and the VLAN hash register. */
module VlanTable {
  import opened HashIndex
  import opened Owners
  import opened Wrappers

  const VLAN_SLOTS := 16

  /** One owner's entry; `vf` is zero when the entry is free. */
  datatype VfStatus = VfStatus(vf: nat, count: nat)

  datatype Slot = Slot(vid: nat, occupied: bool, total: nat, vfs: seq<VfStatus>)

  const FREE_VF := VfStatus(0, 0)
  const VACANT_SLOT := Slot(0, false, 0, [FREE_VF, FREE_VF, FREE_VF, FREE_VF])

  // ----- one slot -----

  /** The entry of an owner: the first of the first `OWNERS - i` that carries it. */
  function FindVf(vfs: seq<VfStatus>, vf: nat, i: nat): (r: Option<nat>)
    requires i <= |vfs|
    ensures r.Some? ==> && i <= r.value < |vfs| && vfs[r.value].vf == vf
                        && forall j :: i <= j < r.value ==> vfs[j].vf != vf
    ensures r.None? ==> forall j :: i <= j < |vfs| ==> vfs[j].vf != vf
    decreases |vfs| - i
  {
    if i == |vfs| then None else if vfs[i].vf == vf then Some(i) else FindVf(vfs, vf, i + 1)
  }

  /** The last free entry of the first `n`, or 0. */
  function LastFree(vfs: seq<VfStatus>, n: nat): (r: nat)
    requires n <= |vfs|
    ensures n > 0 ==> r < n
    ensures (exists j :: 0 <= j < n && vfs[j].vf == 0) ==> vfs[r].vf == 0
    ensures forall j :: r < j < n ==> vfs[j].vf != 0
  {
    if n == 0 then 0 else if vfs[n - 1].vf == 0 then n - 1 else LastFree(vfs, n - 1)
  }

  /** tc956x_vlan_duplication_helper */
  function AddOwner(s: Slot, vf: nat): Slot
    requires |s.vfs| == OWNERS
  {
    var found := FindVf(s.vfs, vf, 0);
    var j := if found.Some? then found.value else LastFree(s.vfs, OWNERS);
    s.(vfs := s.vfs[j := VfStatus(vf, Inc8(s.vfs[j].count))], total := Inc8(s.total))
  }

  /** tc956x_del_sw_vlan_helper */
  function DropOwner(s: Slot, vf: nat): Slot
    requires |s.vfs| == OWNERS
  {
    match FindVf(s.vfs, vf, 0)
    case None => s
    case Some(j) =>
      var count, total := Dec8(s.vfs[j].count), Dec8(s.total);
      s.(vfs := s.vfs[j := VfStatus(if count == 0 then 0 else s.vfs[j].vf, count)], total := total,
         occupied := s.occupied && total != 0)
  }

  function CountIn(e: VfStatus, vf: nat): nat {
    if e.vf == vf then e.count else 0
  }

  /** How often an owner has added this VLAN and not yet deleted it. */
  function Count(vfs: seq<VfStatus>, vf: nat): nat
    requires |vfs| == OWNERS
  {
    CountIn(vfs[0], vf) + CountIn(vfs[1], vf) + CountIn(vfs[2], vf) + CountIn(vfs[3], vf)
  }

  function SumCounts(vfs: seq<VfStatus>): nat
    requires |vfs| == OWNERS
  {
    vfs[0].count + vfs[1].count + vfs[2].count + vfs[3].count
  }

  predicate OwnerOk(e: VfStatus) {
    if e.vf == 0 then e.count == 0 else e.vf <= OWNERS && e.count > 0
  }

  /** The total is the sum of the owners' counts, the slot is occupied exactly if that sum is
      positive, and no owner has two entries. */
  predicate SlotOk(s: Slot) {
    && |s.vfs| == OWNERS
    && (forall j :: 0 <= j < OWNERS ==> OwnerOk(s.vfs[j]))
    && (forall i, j :: 0 <= i < j < OWNERS && s.vfs[i].vf != 0 ==> s.vfs[i].vf != s.vfs[j].vf)
    && s.total == SumCounts(s.vfs) < 256
    && s.occupied == (s.total > 0)
    && (s.occupied ==> s.vid != 0)
  }

  /** Pigeonhole: an owner without an entry finds one free, so none is overwritten. */
  lemma {:induction false} FreeEntryExists(s: Slot, vf: nat)
    requires SlotOk(s) && IsOwner(vf) && FindVf(s.vfs, vf, 0).None?
    ensures s.vfs[LastFree(s.vfs, OWNERS)] == FREE_VF
  {
  }

  /** An owner's count is that of its only entry. */
  lemma {:induction false} CountIsEntry(s: Slot, vf: nat)
    requires SlotOk(s) && IsOwner(vf)
    ensures Count(s.vfs, vf) == match FindVf(s.vfs, vf, 0) case None => 0 case Some(j) => s.vfs[j].count
  {
  }

  /** Changing one entry changes the counts of its old and its new owner only. */
  lemma ChangeEntry(s: Slot, j: nat, e: VfStatus)
    requires |s.vfs| == OWNERS && j < OWNERS
    ensures SumCounts(s.vfs[j := e]) == SumCounts(s.vfs) - s.vfs[j].count + e.count
    ensures forall v: nat :: Count(s.vfs[j := e], v) == Count(s.vfs, v) - CountIn(s.vfs[j], v) + CountIn(e, v)
  {
  }

  lemma AddOwnerCounts(s: Slot, vf: nat)
    requires SlotOk(s) && IsOwner(vf) && s.total < 255 && s.vid != 0
    ensures var s' := AddOwner(s, vf).(occupied := true);
            && SlotOk(s') && s'.vid == s.vid
            && forall v: nat :: IsOwner(v) ==> Count(s'.vfs, v) == Count(s.vfs, v) + if v == vf then 1 else 0
  {
    hide Count, SumCounts, LastFree;
    var found := FindVf(s.vfs, vf, 0);
    var j := if found.Some? then found.value else LastFree(s.vfs, OWNERS);
    if found.None? { FreeEntryExists(s, vf); }
    CountBounded(s);
    ChangeEntry(s, j, VfStatus(vf, s.vfs[j].count + 1));
  }

  lemma CountBounded(s: Slot)
    requires |s.vfs| == OWNERS
    ensures forall j :: 0 <= j < OWNERS ==> s.vfs[j].count <= SumCounts(s.vfs)
  {
  }

  lemma DropOwnerCounts(s: Slot, vf: nat)
    requires SlotOk(s) && IsOwner(vf)
    ensures var s' := DropOwner(s, vf);
            && SlotOk(s') && s'.vid == s.vid
            && forall v: nat :: IsOwner(v) ==>
                 Count(s'.vfs, v) == if v == vf && Count(s.vfs, v) > 0 then Count(s.vfs, v) - 1 else Count(s.vfs, v)
  {
    hide Count, SumCounts;
    CountBounded(s);
    CountIsEntry(s, vf);
    var found := FindVf(s.vfs, vf, 0);
    if found.Some? {
      var j := found.value;
      var count := s.vfs[j].count - 1;
      ChangeEntry(s, j, VfStatus(if count == 0 then 0 else vf, count));
    }
  }

  // ----- the table -----

  type Table = seq<Slot>

  predicate Carries(t: Table, i: nat, vid: nat) {
    i < |t| && t[i].occupied && t[i].vid == vid
  }

  /** The first slot from `i` on that carries the VLAN. */
  function FindVid(t: Table, vid: nat, i: nat): (r: Option<nat>)
    requires i <= |t|
    ensures r.Some? ==> i <= r.value && Carries(t, r.value, vid)
    ensures forall j: nat :: i <= j < (if r.Some? then r.value else |t|) ==> !Carries(t, j, vid)
    decreases |t| - i
  {
    if i == |t| then None else if t[i].occupied && t[i].vid == vid then Some(i) else FindVid(t, vid, i + 1)
  }

  function FirstVacant(t: Table, i: nat): (r: Option<nat>)
    requires i <= |t|
    ensures r.Some? ==> i <= r.value < |t| && !t[r.value].occupied
    ensures forall j :: i <= j < (if r.Some? then r.value else |t|) ==> t[j].occupied
    decreases |t| - i
  {
    if i == |t| then None else if !t[i].occupied then Some(i) else FirstVacant(t, i + 1)
  }

  ghost predicate TableOk(t: Table) {
    && |t| == VLAN_SLOTS
    && (forall i :: 0 <= i < |t| ==> SlotOk(t[i]))
    && (forall i: nat, j: nat, vid: nat :: Carries(t, i, vid) && Carries(t, j, vid) ==> i == j)
  }

  /** ZeroVid: no VLAN.  Modified: one more reference.  Added: a new slot.  Refused: not admitted. */
  datatype Admission = ZeroVid | Modified | Added | Refused

  /** tc956x_check_vlan_duplication: a VLAN that no slot carries counts as new exactly when the
      last slot that the loop looks at is vacant. */
  function Admit(t: Table, vid: nat): Admission
    requires |t| == VLAN_SLOTS
  {
    if vid == 0 then ZeroVid
    else if FindVid(t, vid, 0).Some? then Modified
    else if t[VLAN_SLOTS - 1].occupied then Refused
    else Added
  }

  /** What tc956x_add_actual_vlan_table puts in a vacant slot. */
  function NewOwner(s: Slot, vid: nat, vf: nat): Slot
    requires |s.vfs| == OWNERS
  {
    Slot(vid, true, Inc8(s.total), s.vfs[0 := VfStatus(vf, Inc8(s.vfs[0].count))])
  }

  /** dwxgmac2_update_vlan_hash, as far as the table goes. */
  function Add(t: Table, vid: nat, vf: nat): Table
    requires |t| == VLAN_SLOTS && forall i :: 0 <= i < |t| ==> |t[i].vfs| == OWNERS
  {
    match Admit(t, vid)
    case Modified => var i := FindVid(t, vid, 0).value; t[i := AddOwner(t[i], vf)]
    case Added =>
      (match FirstVacant(t, 0)
       case None => t
       case Some(i) => t[i := NewOwner(t[i], vid, vf)])
    case _ => t
  }

  /** tc956x_del_sw_vlan_table, as far as the table goes. */
  function Delete(t: Table, vid: nat, vf: nat): Table
    requires |t| == VLAN_SLOTS && forall i :: 0 <= i < |t| ==> |t[i].vfs| == OWNERS
  {
    match FindVid(t, vid, 0)
    case None => t
    case Some(i) => t[i := DropOwner(t[i], vf)]
  }

  // ----- what the table stands for -----

  /** References as (VLAN, owner) pairs. */
  type Contents = multiset<(nat, nat)>

  function Held(t: Table, vid: nat, vf: nat): nat
    requires forall i :: 0 <= i < |t| ==> |t[i].vfs| == OWNERS
  {
    match FindVid(t, vid, 0)
    case None => 0
    case Some(i) => if IsOwner(vf) then Count(t[i].vfs, vf) else 0
  }

  ghost predicate Represents(t: Table, c: Contents) {
    && TableOk(t)
    && forall vid: nat, vf: nat :: c[(vid, vf)] == Held(t, vid, vf)
  }

  /** References to a VLAN by all owners together. */
  function Outstanding(c: Contents, vid: nat): nat {
    c[(vid, 1)] + c[(vid, 2)] + c[(vid, 3)] + c[(vid, 4)]
  }

  lemma {:induction false} HeldAt(t: Table, i: nat, vid: nat, vf: nat)
    requires TableOk(t) && Carries(t, i, vid) && IsOwner(vf)
    ensures FindVid(t, vid, 0) == Some(i) && Held(t, vid, vf) == Count(t[i].vfs, vf)
  {
  }

  lemma EntryTotal(e: VfStatus)
    requires OwnerOk(e)
    ensures CountIn(e, 1) + CountIn(e, 2) + CountIn(e, 3) + CountIn(e, 4) == e.count
  {
  }

  lemma SlotTotal(s: Slot)
    requires SlotOk(s)
    ensures s.total == Count(s.vfs, 1) + Count(s.vfs, 2) + Count(s.vfs, 3) + Count(s.vfs, 4)
  {
    EntryTotal(s.vfs[0]);
    EntryTotal(s.vfs[1]);
    EntryTotal(s.vfs[2]);
    EntryTotal(s.vfs[3]);
    hide CountIn, OwnerOk;
  }

  /** A slot is occupied exactly if its VLAN has references. */
  lemma OccupiedIffOutstanding(t: Table, c: Contents, vid: nat)
    requires Represents(t, c)
    ensures (exists i: nat :: Carries(t, i, vid)) <==> Outstanding(c, vid) > 0
    ensures forall i: nat :: Carries(t, i, vid) ==> t[i].total == Outstanding(c, vid)
  {
    hide Count, SumCounts;
    if i: nat :| Carries(t, i, vid) {
      SlotTotal(t[i]);
      HeldAt(t, i, vid, 1);
      HeldAt(t, i, vid, 2);
      HeldAt(t, i, vid, 3);
      HeldAt(t, i, vid, 4);
    }
  }

  lemma {:induction false} FindVidIs(t: Table, i: nat, vid: nat)
    requires TableOk(t) && Carries(t, i, vid)
    ensures FindVid(t, vid, 0) == Some(i)
  {
  }

  lemma {:induction false} SameFind(t: Table, t': Table, vid: nat)
    requires TableOk(t) && TableOk(t')
    requires forall j: nat :: Carries(t', j, vid) <==> Carries(t, j, vid)
    ensures FindVid(t', vid, 0) == FindVid(t, vid, 0)
  {
  }

  /** Changing the slot of one VLAN leaves the others' references alone. */
  lemma ChangeSlot(t: Table, i: nat, s: Slot, vid: nat)
    requires TableOk(t) && i < |t| && SlotOk(s) && s.vid == vid
    requires t[i].occupied ==> t[i].vid == vid
    requires !t[i].occupied ==> forall j: nat :: !Carries(t, j, vid)
    ensures TableOk(t[i := s])
    ensures forall v: nat, vf: nat :: v != vid ==> Held(t[i := s], v, vf) == Held(t, v, vf)
    ensures forall vf: nat :: Held(t[i := s], vid, vf) == if s.occupied && IsOwner(vf) then Count(s.vfs, vf) else 0
  {
    hide Count, SumCounts, OwnerOk;
    var t' := t[i := s];
    assert forall j: nat, v: nat :: v != vid ==> (Carries(t', j, v) <==> Carries(t, j, v));
    forall j: nat
      ensures Carries(t', j, vid) <==> j == i && s.occupied
    {
      assert j != i && Carries(t', j, vid) ==> Carries(t, j, vid);
      assert t[i].occupied ==> Carries(t, i, vid);
    }
    assert TableOk(t') by {
      forall a: nat, b: nat, v: nat | Carries(t', a, v) && Carries(t', b, v)
        ensures a == b
      {
        if v != vid { assert Carries(t, a, v) && Carries(t, b, v); }
      }
    }
    forall v: nat, vf: nat | v != vid
      ensures Held(t', v, vf) == Held(t, v, vf)
    {
      SameFind(t, t', v);
      assert !Carries(t', i, v);
    }
    if s.occupied {
      FindVidIs(t', i, vid);
    } else {
      assert FindVid(t', vid, 0).None?;
      assert forall vf: nat :: Held(t', vid, vf) == 0;
    }
  }

  // ----- steps -----

  predicate Admitted(a: Admission) {
    a == Modified || a == Added
  }

  /** Adding a reference: admitted, it is one more reference of that owner to that VLAN and nothing
      else; otherwise nothing changes. */
  lemma AddKeeps(t: Table, c: Contents, vid: nat, vf: nat)
    requires Represents(t, c) && IsOwner(vf) && Outstanding(c, vid) < 255
    ensures Represents(Add(t, vid, vf), if Admitted(Admit(t, vid)) then c + multiset{(vid, vf)} else c)
    ensures !Admitted(Admit(t, vid)) ==> Add(t, vid, vf) == t
  {
    hide Count, SumCounts, OwnerOk, AddOwner;
    match Admit(t, vid)
    case Modified =>
      var i := FindVid(t, vid, 0).value;
      OccupiedIffOutstanding(t, c, vid);
      AddOwnerCounts(t[i], vf);
      ChangeSlot(t, i, AddOwner(t[i], vf).(occupied := true), vid);
      assert AddOwner(t[i], vf).occupied by { OwnerKeepsSlot(t[i], vf); }
    case Added =>
      var i := FirstVacant(t, 0).value;
      NewOwnerCounts(t[i], vid, vf);
      ChangeSlot(t, i, NewOwner(t[i], vid, vf), vid);
    case _ =>
  }

  /** One reference more than the 8-bit counter holds: the total wraps to zero on an occupied slot.
      Below that an addition keeps the table right. */
  lemma AddKeepsIff(t: Table, c: Contents, vid: nat, vf: nat)
    requires Represents(t, c) && IsOwner(vf)
    ensures |t| == VLAN_SLOTS && forall i :: 0 <= i < |t| ==> |t[i].vfs| == OWNERS
    ensures Represents(Add(t, vid, vf), if Admitted(Admit(t, vid)) then c + multiset{(vid, vf)} else c)
            <==> Outstanding(c, vid) < 255
  {
    SlotsHaveOwners(t);
    if Outstanding(c, vid) < 255 {
      AddKeeps(t, c, vid, vf);
    } else {
      OccupiedIffOutstanding(t, c, vid);
      var i: nat :| Carries(t, i, vid);
      assert SlotOk(t[i]);
      FindVidIs(t, i, vid);
      hide Represents, Outstanding, Count, SumCounts, Held;
      TotalWraps(t[i], vf);
      assert Add(t, vid, vf)[i] == AddOwner(t[i], vf);
      assert !TableOk(Add(t, vid, vf));
      NotTable(Add(t, vid, vf), if Admitted(Admit(t, vid)) then c + multiset{(vid, vf)} else c);
    }
  }

  lemma NotTable(t: Table, c: Contents)
    requires !TableOk(t)
    ensures !Represents(t, c)
  {
  }

  lemma TotalWraps(s: Slot, vf: nat)
    requires |s.vfs| == OWNERS && s.occupied && s.total == 255
    ensures !SlotOk(AddOwner(s, vf))
  {
    hide SumCounts;
  }

  lemma OwnerKeepsSlot(s: Slot, vf: nat)
    requires |s.vfs| == OWNERS
    ensures AddOwner(s, vf).occupied == s.occupied
  {
  }

  lemma NewOwnerCounts(s: Slot, vid: nat, vf: nat)
    requires SlotOk(s) && !s.occupied && IsOwner(vf) && vid != 0
    ensures var s' := NewOwner(s, vid, vf);
            SlotOk(s') && forall v: nat :: Count(s'.vfs, v) == if v == vf then 1 else 0
  {
  }

  /** Deleting a reference removes it if there is one, and changes nothing else. */
  lemma DeleteKeeps(t: Table, c: Contents, vid: nat, vf: nat)
    requires Represents(t, c) && IsOwner(vf)
    ensures Represents(Delete(t, vid, vf), c - multiset{(vid, vf)})
  {
    hide Count, SumCounts, OwnerOk, DropOwner;
    var found := FindVid(t, vid, 0);
    if found.Some? {
      DropOwnerCounts(t[found.value], vf);
      ChangeSlot(t, found.value, DropOwner(t[found.value], vf), vid);
      if !DropOwner(t[found.value], vf).occupied {
        VacantCounts(DropOwner(t[found.value], vf));
      }
    }
  }

  lemma VacantCounts(s: Slot)
    requires SlotOk(s) && !s.occupied
    ensures forall v: nat :: IsOwner(v) ==> Count(s.vfs, v) == 0
  {
  }

  // ----- runs -----

  datatype Op = AddVlan(vid: nat, vf: nat) | DelVlan(vid: nat, vf: nat)

  function Apply(t: Table, op: Op): Table
    requires |t| == VLAN_SLOTS && forall i :: 0 <= i < |t| ==> |t[i].vfs| == OWNERS
  {
    match op
    case AddVlan(vid, vf) => Add(t, vid, vf)
    case DelVlan(vid, vf) => Delete(t, vid, vf)
  }

  /** A request by one of the four owners, with fewer than 256 references to each VLAN. */
  predicate Within(c: Contents, op: Op) {
    IsOwner(op.vf) && (op.AddVlan? ==> Outstanding(c, op.vid) < 255)
  }

  /** The references after a request that is admitted or not. */
  function After(c: Contents, op: Op, admitted: bool): Contents {
    match op
    case AddVlan(vid, vf) => if admitted then c + multiset{(vid, vf)} else c
    case DelVlan(vid, vf) => c - multiset{(vid, vf)}
  }

  ghost predicate IsRun(t: Table, c: Contents, ops: seq<Op>, t': Table, c': Contents)
    decreases |ops|
  {
    if ops == [] then
      t' == t && c' == c
    else
      && |t| == VLAN_SLOTS && (forall i :: 0 <= i < |t| ==> |t[i].vfs| == OWNERS)
      && Within(c, ops[0])
      && IsRun(Apply(t, ops[0]), After(c, ops[0], Admitted(Admit(t, ops[0].vid))), ops[1..], t', c')
  }

  /** Over every run, the table holds exactly the references admitted and not yet deleted. */
  lemma {:induction false} RunKeeps(t: Table, c: Contents, ops: seq<Op>, t': Table, c': Contents)
    requires Represents(t, c) && IsRun(t, c, ops, t', c')
    ensures Represents(t', c')
    decreases |ops|
  {
    if ops != [] {
      StepKeeps(t, c, ops[0]);
      RunKeeps(Apply(t, ops[0]), After(c, ops[0], Admitted(Admit(t, ops[0].vid))), ops[1..], t', c');
    }
  }

  lemma StepKeeps(t: Table, c: Contents, op: Op)
    requires Represents(t, c) && Within(c, op)
    ensures Represents(Apply(t, op), After(c, op, Admitted(Admit(t, op.vid))))
  {
    match op
    case AddVlan(vid, vf) => AddKeeps(t, c, vid, vf);
    case DelVlan(vid, vf) => DeleteKeeps(t, c, vid, vf);
  }

  // ----- admission -----

  function LiveVids(c: Contents): set<nat> {
    set p | p in c :: p.0
  }

  function VidsBelow(t: Table, n: nat): set<nat>
    requires n <= |t|
  {
    if n == 0 then {} else VidsBelow(t, n - 1) + {t[n - 1].vid}
  }

  lemma {:induction false} VidsBelowMeaning(t: Table, n: nat)
    requires n <= |t| && forall i :: 0 <= i < n ==> t[i].occupied
    ensures forall v :: v in VidsBelow(t, n) ==> exists i: nat :: i < n && Carries(t, i, v)
  {
    if n > 0 {
      VidsBelowMeaning(t, n - 1);
      assert Carries(t, n - 1, t[n - 1].vid);
    }
  }

  lemma {:induction false} DistinctVids(t: Table, c: Contents, n: nat)
    requires Represents(t, c) && n <= |t| && forall i :: 0 <= i < n ==> t[i].occupied
    ensures |VidsBelow(t, n)| == n && VidsBelow(t, n) <= LiveVids(c)
  {
    hide Outstanding, Held, SlotOk, LiveVids, Count;
    if n > 0 {
      DistinctVids(t, c, n - 1);
      VidsBelowMeaning(t, n - 1);
      assert Carries(t, n - 1, t[n - 1].vid);
      CarriedIsLive(t, c, n - 1, t[n - 1].vid);
      assert t[n - 1].vid !in VidsBelow(t, n - 1);
    }
  }

  lemma CarriedIsLive(t: Table, c: Contents, i: nat, vid: nat)
    requires Represents(t, c) && Carries(t, i, vid)
    ensures vid in LiveVids(c)
  {
    OccupiedIffOutstanding(t, c, vid);
    if (vid, 1) in c {
    } else if (vid, 2) in c {
    } else if (vid, 3) in c {
    } else {
      assert (vid, 4) in c;
    }
  }

  /** First-fit placement takes the last slot only when it makes the 16th live VLAN. */
  lemma LastSlotVacant(t: Table, c: Contents, op: Op)
    requires Represents(t, c) && Within(c, op) && !t[VLAN_SLOTS - 1].occupied
    requires |LiveVids(After(c, op, op.vid != 0))| < VLAN_SLOTS
    ensures op.AddVlan? ==> Admitted(Admit(t, op.vid)) == (op.vid != 0)
    ensures !Apply(t, op)[VLAN_SLOTS - 1].occupied
  {
    hide AddOwner, DropOwner, NewOwner, SlotOk, Held, LiveVids, Apply, Admit, After, Count, Within, Carries;
    assert forall i :: 0 <= i < |t| ==> |t[i].vfs| == OWNERS by { SlotsHaveOwners(t); }
    var c' := After(c, op, op.vid != 0);
    AdmittedIffNonzero(t, c, op);
    StepKeeps(t, c, op);
    if Apply(t, op)[VLAN_SLOTS - 1].occupied {
      AllOccupied(t, op);
      SixteenLive(Apply(t, op), c');
    }
  }

  lemma SlotsHaveOwners(t: Table)
    requires TableOk(t)
    ensures forall i :: 0 <= i < |t| ==> |t[i].vfs| == OWNERS
  {
  }

  lemma AdmittedIffNonzero(t: Table, c: Contents, op: Op)
    requires |t| == VLAN_SLOTS && !t[VLAN_SLOTS - 1].occupied
    ensures op.AddVlan? ==> Admitted(Admit(t, op.vid)) == (op.vid != 0)
    ensures After(c, op, Admitted(Admit(t, op.vid))) == After(c, op, op.vid != 0)
  {
  }

  lemma SixteenLive(t: Table, c: Contents)
    requires Represents(t, c) && forall i :: 0 <= i < VLAN_SLOTS ==> t[i].occupied
    ensures |LiveVids(c)| >= VLAN_SLOTS
  {
    DistinctVids(t, c, VLAN_SLOTS);
    SubsetSize(VidsBelow(t, VLAN_SLOTS), LiveVids(c));
  }

  lemma SubsetSize(a: set<nat>, b: set<nat>)
    requires a <= b
    ensures |a| <= |b|
  {
    assert b == a + (b - a);
  }

  lemma AllOccupied(t: Table, op: Op)
    requires TableOk(t) && !t[VLAN_SLOTS - 1].occupied && Apply(t, op)[VLAN_SLOTS - 1].occupied
    ensures forall i :: 0 <= i < VLAN_SLOTS ==> Apply(t, op)[i].occupied
  {
  }

  /** What a caller expects: every addition of a nonzero VLAN counts. */
  function Expected(c: Contents, ops: seq<Op>): Contents
    decreases |ops|
  {
    if ops == [] then c else Expected(After(c, ops[0], ops[0].vid != 0), ops[1..])
  }

  /** A run that never has more than 15 live VLANs. */
  ghost predicate FewLive(c: Contents, ops: seq<Op>)
    decreases |ops|
  {
    |LiveVids(c)| <= 15 &&
    (ops == [] || (Within(c, ops[0]) && FewLive(After(c, ops[0], ops[0].vid != 0), ops[1..])))
  }

  function RunTable(t: Table, ops: seq<Op>): Table
    requires |t| == VLAN_SLOTS && forall i :: 0 <= i < |t| ==> |t[i].vfs| == OWNERS
    decreases |ops|
  {
    if ops == [] then t else RunTable(Apply(t, ops[0]), ops[1..])
  }

  /** On every such run every nonzero VLAN is admitted, so the table holds what the caller
      expects. */
  lemma {:induction false} AllAdmitted(t: Table, c: Contents, ops: seq<Op>)
    requires Represents(t, c) && !t[VLAN_SLOTS - 1].occupied && FewLive(c, ops)
    ensures |t| == VLAN_SLOTS && (forall i :: 0 <= i < |t| ==> |t[i].vfs| == OWNERS)
    ensures Represents(RunTable(t, ops), Expected(c, ops))
    decreases |ops|
  {
    SlotsHaveOwners(t);
    if ops != [] {
      var op := ops[0];
      hide Represents, LiveVids, Apply, After, Within, Admit;
      LastSlotVacant(t, c, op);
      AdmittedIffNonzero(t, c, op);
      StepKeeps(t, c, op);
      AllAdmitted(Apply(t, op), After(c, op, op.vid != 0), ops[1..]);
    }
  }

  /** A VLAN without references gets its first one, or is turned away, exactly as the last slot is
      vacant or occupied, whatever the other slots. */
  lemma RefusedIffLastOccupied(t: Table, c: Contents, vid: nat, vf: nat)
    requires Represents(t, c) && IsOwner(vf) && vid != 0 && Outstanding(c, vid) == 0
    ensures |t| == 16 && forall i :: 0 <= i < |t| ==> |t[i].vfs| == OWNERS
    ensures Represents(Add(t, vid, vf), c) <==> t[15].occupied
    ensures Represents(Add(t, vid, vf), c + multiset{(vid, vf)}) <==> !t[15].occupied
  {
    SlotsHaveOwners(t);
    OccupiedIffOutstanding(t, c, vid);
    assert FindVid(t, vid, 0).None?;
    AddKeeps(t, c, vid, vf);
    assert (c + multiset{(vid, vf)})[(vid, vf)] == c[(vid, vf)] + 1;
    hide Add, Held, TableOk, Outstanding;
  }

  function EmptyTable(): Table {
    seq(VLAN_SLOTS, _ => VACANT_SLOT)
  }

  predicate DistinctNonzero(vids: seq<nat>) {
    0 !in vids && forall i, j :: 0 <= i < j < |vids| ==> vids[i] != vids[j]
  }

  /** The table after the additions of the first `n` VLANs. */
  function Filled(vids: seq<nat>, vf: nat, n: nat): (t: Table)
    requires n <= |vids|
    ensures |t| == VLAN_SLOTS && forall i :: 0 <= i < |t| ==> |t[i].vfs| == OWNERS
  {
    seq(VLAN_SLOTS, i requires 0 <= i < VLAN_SLOTS => if i < n then NewOwner(VACANT_SLOT, vids[i], vf) else VACANT_SLOT)
  }

  /** The additions of the VLANs from the `n`-th on. */
  function Adds(vids: seq<nat>, vf: nat, n: nat): seq<Op>
    requires n <= |vids|
    decreases |vids| - n
  {
    if n == |vids| then [] else [AddVlan(vids[n], vf)] + Adds(vids, vf, n + 1)
  }

  lemma AddNext(vids: seq<nat>, vf: nat, n: nat)
    requires DistinctNonzero(vids) && n < |vids| <= VLAN_SLOTS
    ensures Add(Filled(vids, vf, n), vids[n], vf) == Filled(vids, vf, n + 1)
  {
    var t := Filled(vids, vf, n);
    hide NewOwner;
    assert forall i: nat :: Carries(t, i, vids[n]) ==> i < n && NewOwner(VACANT_SLOT, vids[i], vf).vid != vids[n] by {
      NewOwnerVids(vids, vf);
    }
    assert FindVid(t, vids[n], 0).None?;
    assert !t[VLAN_SLOTS - 1].occupied;
    NewOwnerVids(vids, vf);
    assert FirstVacant(t, 0) == Some(n);
  }

  lemma NewOwnerVids(vids: seq<nat>, vf: nat)
    ensures forall i :: 0 <= i < |vids| ==>
              NewOwner(VACANT_SLOT, vids[i], vf).vid == vids[i] && NewOwner(VACANT_SLOT, vids[i], vf).occupied
  {
  }

  lemma {:induction false} AddsFill(vids: seq<nat>, vf: nat, n: nat, rest: seq<Op>)
    requires DistinctNonzero(vids) && n <= |vids| <= VLAN_SLOTS
    ensures RunTable(Filled(vids, vf, n), Adds(vids, vf, n) + rest) == RunTable(Filled(vids, vf, |vids|), rest)
    decreases |vids| - n
  {
    var ops := Adds(vids, vf, n) + rest;
    if n == |vids| {
      assert ops == rest;
    } else {
      AddNext(vids, vf, n);
      assert ops[0] == AddVlan(vids[n], vf) && ops[1..] == Adds(vids, vf, n + 1) + rest;
      hide Add, Filled;
      AddsFill(vids, vf, n + 1, rest);
    }
  }

  /** From the empty table: after sixteen VLANs have been added and any one but the last deleted,
      its slot is vacant, and still neither it nor any other VLAN that is not in the table is
      admitted. */
  lemma {:induction false} RefusedWithVacantSlot(vids: seq<nat>, vf: nat, k: nat, vid: nat)
    requires DistinctNonzero(vids) && |vids| == 16 && IsOwner(vf) && k < 15
    requires vid != 0 && (vid in vids ==> vid == vids[k])
    ensures var t := RunTable(EmptyTable(), Adds(vids, vf, 0) + [DelVlan(vids[k], vf)]);
            && |t| == VLAN_SLOTS && (forall i :: 0 <= i < |t| ==> |t[i].vfs| == OWNERS)
            && !t[k].occupied && Admit(t, vid) == Refused && Add(t, vid, vf) == t
  {
    var full, del := Filled(vids, vf, VLAN_SLOTS), DelVlan(vids[k], vf);
    assert EmptyTable() == Filled(vids, vf, 0);
    AddsFill(vids, vf, 0, [del]);
    hide Filled, Adds, Admit, Add, Delete, DistinctNonzero;
    assert RunTable(full, [del]) == Delete(full, vids[k], vf) by { assert [del][1..] == []; }
    RefusedAfterDelete(vids, vf, k, vid);
  }

  lemma RefusedAfterDelete(vids: seq<nat>, vf: nat, k: nat, vid: nat)
    requires DistinctNonzero(vids) && |vids| == VLAN_SLOTS && IsOwner(vf) && k < VLAN_SLOTS - 1
    requires vid != 0 && (vid in vids ==> vid == vids[k])
    ensures var t := Delete(Filled(vids, vf, VLAN_SLOTS), vids[k], vf);
            && |t| == VLAN_SLOTS && (forall i :: 0 <= i < |t| ==> |t[i].vfs| == OWNERS)
            && !t[k].occupied && Admit(t, vid) == Refused && Add(t, vid, vf) == t
  {
    var full := Filled(vids, vf, VLAN_SLOTS);
    NewOwnerVids(vids, vf);
    OnlyOwnerLeaves(vids[k], vf);
    FilledFind(vids, vf, k);
    hide NewOwner, DropOwner;
    var t := full[k := DropOwner(full[k], vf)];
    assert forall i: nat :: !Carries(t, i, vid);
    assert FindVid(t, vid, 0).None?;
  }

  lemma FilledFind(vids: seq<nat>, vf: nat, k: nat)
    requires DistinctNonzero(vids) && k < |vids| <= VLAN_SLOTS
    ensures FindVid(Filled(vids, vf, |vids|), vids[k], 0) == Some(k)
  {
    var t := Filled(vids, vf, |vids|);
    NewOwnerVids(vids, vf);
    hide NewOwner;
    assert Carries(t, k, vids[k]);
    var found := FindVid(t, vids[k], 0);
    assert found.Some? && found.value <= k;
    assert t[found.value].vid == vids[found.value];
  }

  lemma OnlyOwnerLeaves(vid: nat, vf: nat)
    requires IsOwner(vf)
    ensures !DropOwner(NewOwner(VACANT_SLOT, vid, vf), vf).occupied
  {
  }

  // ----- what the wrap-around of a counter costs -----

  /** The same addition, `n` times. */
  function Again(vid: nat, vf: nat, n: nat): seq<Op> {
    if n == 0 then [] else [AddVlan(vid, vf)] + Again(vid, vf, n - 1)
  }

  /** A slot that one owner has added `n` times, counted in 8 bits. */
  function CountedSlot(vid: nat, vf: nat, n: nat): Slot {
    Slot(vid, true, n % 256, [VfStatus(vf, n % 256), FREE_VF, FREE_VF, FREE_VF])
  }

  /** The table with that slot only. */
  function Counted(vid: nat, vf: nat, n: nat): (t: Table)
    ensures |t| == VLAN_SLOTS && forall i :: 0 <= i < |t| ==> |t[i].vfs| == OWNERS
  {
    EmptyTable()[0 := CountedSlot(vid, vf, n)]
  }

  lemma IncWraps(n: nat)
    ensures Inc8(n % 256) == (n + 1) % 256
  {
  }

  lemma CountOneMore(vid: nat, vf: nat, n: nat)
    requires vid != 0 && IsOwner(vf)
    ensures Add(Counted(vid, vf, n), vid, vf) == Counted(vid, vf, n + 1)
  {
    var t := Counted(vid, vf, n);
    assert FindVid(t, vid, 0) == Some(0);
    assert FindVf(t[0].vfs, vf, 0) == Some(0);
    IncWraps(n);
    hide Inc8;
    var vfs := t[0].vfs[0 := VfStatus(vf, Inc8(n % 256))];
    assert vfs == [VfStatus(vf, (n + 1) % 256), FREE_VF, FREE_VF, FREE_VF];
    assert AddOwner(t[0], vf) == CountedSlot(vid, vf, n + 1);
    assert t[0 := CountedSlot(vid, vf, n + 1)] == Counted(vid, vf, n + 1);
  }

  lemma {:induction false} CountAgain(vid: nat, vf: nat, n: nat, k: nat, rest: seq<Op>)
    requires vid != 0 && IsOwner(vf)
    ensures RunTable(Counted(vid, vf, n), Again(vid, vf, k) + rest) == RunTable(Counted(vid, vf, n + k), rest)
    decreases k
  {
    hide Add, Delete, Counted;
    if k == 0 {
      assert Again(vid, vf, k) + rest == rest;
    } else {
      CountOneMore(vid, vf, n);
      CountAgain(vid, vf, n + 1, k - 1, rest);
      RunFirst(Counted(vid, vf, n), vid, vf, k, rest);
      hide RunTable, Again;
    }
  }

  lemma RunFirst(t: Table, vid: nat, vf: nat, k: nat, rest: seq<Op>)
    requires k > 0 && |t| == VLAN_SLOTS && forall i :: 0 <= i < |t| ==> |t[i].vfs| == OWNERS
    ensures forall i :: 0 <= i < |Add(t, vid, vf)| ==> |Add(t, vid, vf)[i].vfs| == OWNERS
    ensures |Add(t, vid, vf)| == VLAN_SLOTS
    ensures RunTable(t, Again(vid, vf, k) + rest) == RunTable(Add(t, vid, vf), Again(vid, vf, k - 1) + rest)
  {
    var ops := Again(vid, vf, k) + rest;
    assert ops[0] == AddVlan(vid, vf) && ops[1..] == Again(vid, vf, k - 1) + rest;
    assert Apply(t, ops[0]) == Add(t, vid, vf);
    hide Add;
  }

  lemma NoMore<T>(c: multiset<T>, p: T)
    ensures c[p := c[p] + 0] == c
  {
  }

  lemma OneMore<T>(c: multiset<T>, p: T, k: nat)
    requires k > 0
    ensures var c' := c + multiset{p}; c'[p := c'[p] + (k - 1)] == c[p := c[p] + k]
  {
  }

  lemma {:induction false} ExpectAgain(c: Contents, vid: nat, vf: nat, k: nat, rest: seq<Op>)
    requires vid != 0
    ensures Expected(c, Again(vid, vf, k) + rest) == Expected(c[(vid, vf) := c[(vid, vf)] + k], rest)
    decreases k
  {
    hide Expected;
    if k == 0 {
      assert Again(vid, vf, k) + rest == rest;
      NoMore(c, (vid, vf));
    } else {
      ExpectFirst(c, vid, vf, k, rest);
      OneMore(c, (vid, vf), k);
      hide Again;
      ExpectAgain(c + multiset{(vid, vf)}, vid, vf, k - 1, rest);
    }
  }

  lemma {:induction false} ExpectFirst(c: Contents, vid: nat, vf: nat, k: nat, rest: seq<Op>)
    requires vid != 0 && k > 0
    ensures Expected(c, Again(vid, vf, k) + rest) == Expected(c + multiset{(vid, vf)}, Again(vid, vf, k - 1) + rest)
  {
    var ops := Again(vid, vf, k) + rest;
    assert ops[0] == AddVlan(vid, vf) && ops[1..] == Again(vid, vf, k - 1) + rest;
  }

  /** From the empty table: after 257 additions of a VLAN and one deletion no slot carries it, though
      256 references are outstanding. */
  lemma {:induction false} WrapLosesVlan(vid: nat, vf: nat)
    requires vid != 0 && IsOwner(vf)
    ensures var ops := Again(vid, vf, 257) + [DelVlan(vid, vf)];
            && (forall i: nat :: !Carries(RunTable(EmptyTable(), ops), i, vid))
            && Expected(multiset{}, ops)[(vid, vf)] == 256
  {
    var del := [DelVlan(vid, vf)];
    FirstAddition(vid, vf);
    EmptyShape();
    RunFirst(EmptyTable(), vid, vf, 257, del);
    CountAgain(vid, vf, 1, 256, del);
    var t := Counted(vid, vf, 257);
    hide Again, Counted, Add, Delete, EmptyTable;
    assert RunTable(t, del) == Delete(t, vid, vf) by { assert del[1..] == []; }
    LastCountDropped(vid, vf);
    ExpectAgain(multiset{}, vid, vf, 257, del);
    var c := multiset{}[(vid, vf) := 257];
    assert Expected(c, del) == c - multiset{(vid, vf)} by { assert del[1..] == []; }
  }

  lemma EmptyShape()
    ensures |EmptyTable()| == VLAN_SLOTS && forall i :: 0 <= i < VLAN_SLOTS ==> |EmptyTable()[i].vfs| == OWNERS
  {
  }

  lemma EmptyAt(i: nat)
    requires i < 16
    ensures |EmptyTable()| == 16 && EmptyTable()[i] == VACANT_SLOT
  {
  }

  lemma FirstAddition(vid: nat, vf: nat)
    requires vid != 0
    ensures Add(EmptyTable(), vid, vf) == Counted(vid, vf, 1)
  {
    var t := EmptyTable();
    FirstCount(vid, vf);
    hide NewOwner, CountedSlot;
    assert forall i: nat :: !Carries(t, i, vid);
    assert FindVid(t, vid, 0).None?;
    EmptyAt(0);
    EmptyAt(15);
    assert FirstVacant(t, 0) == Some(0);
  }

  lemma FirstCount(vid: nat, vf: nat)
    ensures NewOwner(VACANT_SLOT, vid, vf) == CountedSlot(vid, vf, 1)
  {
    var free := [FREE_VF, FREE_VF, FREE_VF, FREE_VF];
    assert free[0 := VfStatus(vf, 1)] == [VfStatus(vf, 1), FREE_VF, FREE_VF, FREE_VF];
  }

  lemma LastCountDropped(vid: nat, vf: nat)
    requires vid != 0 && IsOwner(vf)
    ensures forall i: nat :: !Carries(Delete(Counted(vid, vf, 257), vid, vf), i, vid)
  {
    var t := Counted(vid, vf, 257);
    assert FindVid(t, vid, 0) == Some(0);
    assert FindVf(t[0].vfs, vf, 0) == Some(0);
  }

  /** The answer to every request, in terms of the references and the last of the 16 slots. */
  lemma AdmitMeaning(t: Table, c: Contents, vid: nat)
    requires Represents(t, c)
    ensures |t| == 16
    ensures Admit(t, vid) ==
            if vid == 0 then ZeroVid
            else if Outstanding(c, vid) > 0 then Modified
            else if t[15].occupied then Refused else Added
    ensures Admitted(Admit(t, vid)) <==> vid != 0 && (Outstanding(c, vid) > 0 || !t[15].occupied)
  {
    OccupiedIffOutstanding(t, c, vid);
    hide Outstanding, Held, SlotOk;
  }

  /** A vacant slot is emptied of all owners, and its first entry takes the new one. */
  lemma NewOwnerEntries(s: Slot, vid: nat, vf: nat)
    requires SlotOk(s) && !s.occupied
    ensures NewOwner(s, vid, vf) == CountedSlot(vid, vf, 1)
  {
    assert s.vfs == [FREE_VF, FREE_VF, FREE_VF, FREE_VF];
  }

  // ----- the hash register -----

  /** The hash buckets of the occupied slots. */
  function BucketsOf(t: Table, bucket: nat -> nat): (bs: Buckets)
    ensures |bs| == |t|
  {
    seq(|t|, i requires 0 <= i < |t| => if t[i].occupied then Some(bucket(t[i].vid)) else None)
  }

  lemma BucketsOfUpdate(t: Table, bucket: nat -> nat, i: nat, s: Slot)
    requires i < |t|
    ensures BucketsOf(t[i := s], bucket) == BucketsOf(t, bucket)[i := if s.occupied then Some(bucket(s.vid)) else None]
  {
  }

  lemma AddHash(hash: set<nat>, t: Table, bucket: nat -> nat, vid: nat, vf: nat)
    requires TableOk(t) && IsOwner(vf) && HashOk(hash, BucketsOf(t, bucket))
    ensures forall i :: 0 <= i < |t| ==> |t[i].vfs| == OWNERS
    ensures HashOk(if Admit(t, vid) == Added then hash + {bucket(vid)} else hash, BucketsOf(Add(t, vid, vf), bucket))
  {
    hide HashOk;
    var bs := BucketsOf(t, bucket);
    match Admit(t, vid)
    case Modified =>
      var i := FindVid(t, vid, 0).value;
      BucketsOfUpdate(t, bucket, i, AddOwner(t[i], vf));
      assert bs[i := Some(bucket(vid))] == bs;
    case Added =>
      var i := FirstVacant(t, 0).value;
      BucketsOfUpdate(t, bucket, i, NewOwner(t[i], vid, vf));
      HashAdded(hash, bs, i, bucket(vid));
    case _ =>
  }

  /** Dropping a reference: the bit is cleared with the slot, which is right exactly if no other
      VLAN uses it. */
  lemma DropHash(hash: set<nat>, t: Table, bucket: nat -> nat, i: nat, vf: nat)
    requires TableOk(t) && i < |t| && t[i].occupied && IsOwner(vf) && HashOk(hash, BucketsOf(t, bucket))
    ensures var s := DropOwner(t[i], vf);
            HashOk(if s.total == 0 then hash - {bucket(t[i].vid)} else hash, BucketsOf(t[i := s], bucket))
            <==> (s.total == 0 ==> OwnBucket(BucketsOf(t, bucket), i))
  {
    hide HashOk, OwnBucket;
    var s, bs := DropOwner(t[i], vf), BucketsOf(t, bucket);
    DropOwnerCounts(t[i], vf);
    BucketsOfUpdate(t, bucket, i, s);
    if s.occupied {
      assert bs[i := Some(bucket(t[i].vid))] == bs;
    } else {
      HashClearedIffOwn(hash, bs, i);
    }
  }

  /** The register after an operation, where hashing is on. */
  function HashAfter(hash: set<nat>, t: Table, op: Op, bucket: nat -> nat): set<nat>
    requires |t| == VLAN_SLOTS && forall i :: 0 <= i < |t| ==> |t[i].vfs| == OWNERS
  {
    match op
    case AddVlan(vid, vf) => if Admit(t, vid) == Added then hash + {bucket(vid)} else hash
    case DelVlan(vid, vf) =>
      match FindVid(t, vid, 0)
      case None => hash
      case Some(i) => if DropOwner(t[i], vf).total == 0 then hash - {bucket(vid)} else hash
  }

  /** An operation keeps the register right exactly unless it frees a slot with a shared bucket. */
  lemma HashKept(hash: set<nat>, t: Table, op: Op, bucket: nat -> nat)
    requires TableOk(t) && IsOwner(op.vf) && HashOk(hash, BucketsOf(t, bucket))
    ensures forall i :: 0 <= i < |t| ==> |t[i].vfs| == OWNERS
    ensures HashOk(HashAfter(hash, t, op, bucket), BucketsOf(Apply(t, op), bucket)) <==> !FreesShared(t, op, bucket)
  {
    hide HashOk, OwnBucket;
    SlotsHaveOwners(t);
    match op
    case AddVlan(vid, vf) => AddHash(hash, t, bucket, vid, vf);
    case DelVlan(vid, vf) =>
      var found := FindVid(t, vid, 0);
      if found.Some? { DropHash(hash, t, bucket, found.value, vf); }
  }

  /** The operation vacates a slot whose bucket another live VLAN uses. */
  predicate FreesShared(t: Table, op: Op, bucket: nat -> nat)
    requires forall i :: 0 <= i < |t| ==> |t[i].vfs| == OWNERS
  {
    op.DelVlan? &&
    match FindVid(t, op.vid, 0)
    case None => false
    case Some(i) => DropOwner(t[i], op.vf).total == 0 && !OwnBucket(BucketsOf(t, bucket), i)
  }

  /** The live VLANs occupy distinct buckets all along a run. */
  ghost predicate DistinctAlong(t: Table, ops: seq<Op>, bucket: nat -> nat)
    decreases |ops|
  {
    && DistinctBuckets(BucketsOf(t, bucket))
    && (ops == [] || (&& |t| == VLAN_SLOTS && (forall i :: 0 <= i < |t| ==> |t[i].vfs| == OWNERS)
                      && DistinctAlong(Apply(t, ops[0]), ops[1..], bucket)))
  }

  ghost function RunHash(hash: set<nat>, t: Table, c: Contents, ops: seq<Op>, t': Table, c': Contents,
      bucket: nat -> nat): set<nat>
    requires IsRun(t, c, ops, t', c')
    decreases |ops|
  {
    if ops == [] then hash
    else
      RunHash(HashAfter(hash, t, ops[0], bucket), Apply(t, ops[0]),
              After(c, ops[0], Admitted(Admit(t, ops[0].vid))), ops[1..], t', c', bucket)
  }

  /** On every such run, whatever the hash function, the register is the set of buckets of the
      live VLANs. */
  lemma {:induction false} HashRun(hash: set<nat>, t: Table, c: Contents, ops: seq<Op>, t': Table, c': Contents,
                                   bucket: nat -> nat)
    requires Represents(t, c) && IsRun(t, c, ops, t', c')
    requires HashOk(hash, BucketsOf(t, bucket)) && DistinctAlong(t, ops, bucket)
    ensures HashOk(RunHash(hash, t, c, ops, t', c', bucket), BucketsOf(t', bucket))
    decreases |ops|
  {
    if ops != [] {
      var op := ops[0];
      StepKeeps(t, c, op);
      HashKept(hash, t, op, bucket);
      DistinctFreesOwn(t, op, bucket);
      hide Represents, HashOk, Apply, After, Admit, Within, HashAfter, FreesShared, DistinctBuckets;
      HashRun(HashAfter(hash, t, op, bucket), Apply(t, op), After(c, op, Admitted(Admit(t, op.vid))), ops[1..], t',
          c', bucket);
    }
  }

  lemma DistinctFreesOwn(t: Table, op: Op, bucket: nat -> nat)
    requires TableOk(t) && DistinctBuckets(BucketsOf(t, bucket))
    ensures forall i :: 0 <= i < |t| ==> |t[i].vfs| == OWNERS
    ensures !FreesShared(t, op, bucket)
  {
    SlotsHaveOwners(t);
    hide DropOwner, SlotOk;
  }

  /** Two VLANs of the same bucket, one deleted: the register no longer shows the other. */
  lemma SharedBucketCleared(v: nat, w: nat, vf: nat, bucket: nat -> nat)
    requires v != 0 && w != 0 && v != w && IsOwner(vf) && bucket(v) == bucket(w)
    ensures var t := RunTable(EmptyTable(), [AddVlan(v, vf), AddVlan(w, vf)]);
            && |t| == VLAN_SLOTS && (forall i :: 0 <= i < |t| ==> |t[i].vfs| == OWNERS)
            && HashOk({bucket(v)}, BucketsOf(t, bucket)) && FreesShared(t, DelVlan(v, vf), bucket)
            && HashAfter({bucket(v)}, t, DelVlan(v, vf), bucket) == {} && Carries(Delete(t, v, vf), 1, w)
  {
    var vids := [v, w];
    var t := Filled(vids, vf, 2);
    AddsFill(vids, vf, 0, []);
    assert Adds(vids, vf, 0) + [] == [AddVlan(v, vf), AddVlan(w, vf)] by {
      assert Adds(vids, vf, 1) == [AddVlan(w, vf)] + Adds(vids, vf, 2);
    }
    assert EmptyTable() == Filled(vids, vf, 0);
    assert RunTable(t, []) == t;
    NewOwnerVids(vids, vf);
    OnlyOwnerLeaves(v, vf);
    FilledFind(vids, vf, 0);
    hide NewOwner, DropOwner, Adds, RunTable;
    var bs := BucketsOf(t, bucket);
    assert bs[0] == Some(bucket(v)) == bs[1];
    assert forall i :: 2 <= i < |bs| ==> bs[i] == None;
    assert DropOwner(t[0], vf).total == 0 by { OnlyOwnerTotal(v, vf); }
  }

  lemma OnlyOwnerTotal(vid: nat, vf: nat)
    requires IsOwner(vf)
    ensures DropOwner(NewOwner(VACANT_SLOT, vid, vf), vf).total == 0
  {
  }

  lemma EmptyRepresents(bucket: nat -> nat)
    ensures Represents(EmptyTable(), multiset{}) && HashOk({}, BucketsOf(EmptyTable(), bucket))
  {
    var t := EmptyTable();
    assert SlotOk(VACANT_SLOT);
    forall vid: nat
      ensures FindVid(t, vid, 0).None?
    {
      assert forall i: nat :: !Carries(t, i, vid);
    }
  }
}
