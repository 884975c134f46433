/** The shared MAC address table: 29 slots, each owned by up to four virtual functions (1 to 3 and
    the driver itself, 4), and the perfect-filter address registers 3 to 31. */
module MacTable {
  import opened FrpRow
  import opened HashIndex
  import opened Owners
  import opened Wrappers

  const FIRST_REG := 3
  const ADDRESS_REGS := 32
  const MAC_SLOTS := 29

  datatype Mac = Mac(b0: Byte, b1: Byte, b2: Byte, b3: Byte, b4: Byte, b5: Byte)

  const ZERO_MAC := Mac(0, 0, 0, 0, 0, 0)

  /** `owners[j]` is zero when the entry is free. */
  datatype Slot = Slot(mac: Mac, occupied: bool, counter: nat, owners: seq<nat>)

  const VACANT_SLOT := Slot(ZERO_MAC, false, 0, [0, 0, 0, 0])

  // ----- one slot -----

  function FindOwner(owners: seq<nat>, vf: nat, i: nat): (r: Option<nat>)
    requires i <= |owners|
    ensures r.Some? ==> i <= r.value < |owners| && owners[r.value] == vf
    ensures forall j :: i <= j < (if r.Some? then r.value else |owners|) ==> owners[j] != vf
    decreases |owners| - i
  {
    if i == |owners| then None else if owners[i] == vf then Some(i) else FindOwner(owners, vf, i + 1)
  }

  /** The last free entry of the first `n`, or 0. */
  function LastFree(owners: seq<nat>, n: nat): (r: nat)
    requires n <= |owners|
    ensures n > 0 ==> r < n
    ensures (exists j :: 0 <= j < n && owners[j] == 0) ==> owners[r] == 0
    ensures forall j :: r < j < n ==> owners[j] != 0
  {
    if n == 0 then 0 else if owners[n - 1] == 0 then n - 1 else LastFree(owners, n - 1)
  }

  /** The matching slot in tc956x_mac_duplication: an owner that is there already changes
      nothing. */
  function AddOwner(s: Slot, vf: nat): Slot
    requires |s.owners| == OWNERS
  {
    if FindOwner(s.owners, vf, 0).Some? then s
    else s.(owners := s.owners[LastFree(s.owners, OWNERS) := vf], counter := Inc8(s.counter))
  }

  /** tc956x_del_sw_mac_helper */
  function DropOwner(s: Slot, vf: nat): Slot
    requires |s.owners| == OWNERS
  {
    match FindOwner(s.owners, vf, 0)
    case None => s
    case Some(j) =>
      var counter := Dec8(s.counter);
      s.(owners := s.owners[j := 0], counter := counter, occupied := s.occupied && counter != 0)
  }

  function One(vf: nat): nat { if vf == 0 then 0 else 1 }

  function CountOwners(owners: seq<nat>): nat
    requires |owners| == OWNERS
  {
    One(owners[0]) + One(owners[1]) + One(owners[2]) + One(owners[3])
  }

  /** The counter is the number of owners, which are distinct, and the slot is occupied exactly if
      there is one. */
  predicate SlotOk(s: Slot) {
    && |s.owners| == OWNERS
    && (forall j :: 0 <= j < OWNERS ==> s.owners[j] <= OWNERS)
    && (forall i, j :: 0 <= i < j < OWNERS && s.owners[i] != 0 ==> s.owners[i] != s.owners[j])
    && s.counter == CountOwners(s.owners)
    && s.occupied == (s.counter > 0)
    && (s.occupied ==> s.mac != ZERO_MAC)
  }

  /** Pigeonhole: a new owner finds a free entry, so it evicts none. */
  lemma FreeEntryExists(s: Slot, vf: nat)
    requires SlotOk(s) && IsOwner(vf) && vf !in s.owners
    ensures s.owners[LastFree(s.owners, OWNERS)] == 0
  {
  }

  lemma ChangeOwner(owners: seq<nat>, j: nat, vf: nat)
    requires |owners| == OWNERS && j < OWNERS
    ensures CountOwners(owners[j := vf]) == CountOwners(owners) - One(owners[j]) + One(vf)
    ensures forall v :: v != vf && v != owners[j] ==> (v in owners[j := vf] <==> v in owners)
  {
  }

  lemma AddOwnerSets(s: Slot, vf: nat)
    requires SlotOk(s) && IsOwner(vf) && s.occupied
    ensures var s' := AddOwner(s, vf);
            && SlotOk(s') && s'.mac == s.mac && s'.occupied
            && forall v :: IsOwner(v) ==> (v in s'.owners <==> v in s.owners || v == vf)
  {
    hide CountOwners, LastFree;
    if FindOwner(s.owners, vf, 0).None? {
      FreeEntryExists(s, vf);
      var j := LastFree(s.owners, OWNERS);
      assert s.owners[j := vf][j] == vf;
      AtMostFour(s.owners);
      ChangeOwner(s.owners, j, vf);
    }
  }

  lemma AtMostFour(owners: seq<nat>)
    requires |owners| == OWNERS
    ensures CountOwners(owners) <= OWNERS
    ensures forall v :: v in owners && v != 0 ==> CountOwners(owners) > 0
  {
  }

  lemma DropOwnerSets(s: Slot, vf: nat)
    requires SlotOk(s) && IsOwner(vf)
    ensures var s' := DropOwner(s, vf);
            && SlotOk(s') && s'.mac == s.mac
            && forall v :: IsOwner(v) ==> (v in s'.owners <==> v in s.owners && v != vf)
  {
    hide CountOwners;
    AtMostFour(s.owners);
    var found := FindOwner(s.owners, vf, 0);
    if found.Some? {
      ChangeOwner(s.owners, found.value, 0);
      assert vf !in s.owners[found.value := 0];
    }
  }

  // ----- the table -----

  type Table = seq<Slot>

  predicate Carries(t: Table, i: nat, mac: Mac) {
    i < |t| && t[i].occupied && t[i].mac == mac
  }

  function FindMac(t: Table, mac: Mac, i: nat): (r: Option<nat>)
    requires i <= |t|
    ensures r.Some? ==> i <= r.value && Carries(t, r.value, mac)
    ensures forall j: nat :: i <= j < (if r.Some? then r.value else |t|) ==> !Carries(t, j, mac)
    decreases |t| - i
  {
    if i == |t| then None else if t[i].occupied && t[i].mac == mac then Some(i) else FindMac(t, mac, i + 1)
  }

  function FirstVacant(t: Table, i: nat): (r: Option<nat>)
    requires i <= |t|
    ensures r.Some? ==> i <= r.value < |t| && !t[r.value].occupied
    ensures forall j :: i <= j < (if r.Some? then r.value else |t|) ==> t[j].occupied
    decreases |t| - i
  {
    if i == |t| then None else if !t[i].occupied then Some(i) else FirstVacant(t, i + 1)
  }

  ghost predicate TableOk(t: Table) {
    && |t| == MAC_SLOTS
    && (forall i :: 0 <= i < |t| ==> SlotOk(t[i]))
    && (forall i: nat, j: nat, mac: Mac :: Carries(t, i, mac) && Carries(t, j, mac) ==> i == j)
  }

  /** What tc956x_add_actual_mac_table puts in a vacant slot. */
  function NewSlot(s: Slot, mac: Mac, vf: nat): Slot
    requires |s.owners| == OWNERS
  {
    Slot(mac, true, Inc8(s.counter), s.owners[0 := vf])
  }

  /** The slot that an addition changes: the one with the address, else the first vacant one. */
  function AddSlot(t: Table, mac: Mac): Option<nat> {
    if mac == ZERO_MAC then None
    else if FindMac(t, mac, 0).Some? then FindMac(t, mac, 0)
    else FirstVacant(t, 0)
  }

  /** The addition occupies a vacant slot. */
  predicate TakesNewSlot(t: Table, mac: Mac) {
    mac != ZERO_MAC && FindMac(t, mac, 0).None? && FirstVacant(t, 0).Some?
  }

  predicate HasOwnerLists(t: Table) {
    forall i :: 0 <= i < |t| ==> |t[i].owners| == OWNERS
  }

  function Add(t: Table, mac: Mac, vf: nat): Table
    requires HasOwnerLists(t)
  {
    match AddSlot(t, mac)
    case None => t
    case Some(i) => t[i := if t[i].occupied then AddOwner(t[i], vf) else NewSlot(t[i], mac, vf)]
  }

  /** tc956x_del_sw_mac_table for an address that is in the table. */
  function Delete(t: Table, mac: Mac, vf: nat): Table
    requires HasOwnerLists(t)
  {
    match FindMac(t, mac, 0)
    case None => t
    case Some(i) => t[i := DropOwner(t[i], vf)]
  }

  // ----- what the table stands for -----

  /** (address, owner) pairs. */
  type Contents = set<(Mac, nat)>

  predicate Holds(t: Table, mac: Mac, vf: nat)
  {
    match FindMac(t, mac, 0)
    case None => false
    case Some(i) => IsOwner(vf) && vf in t[i].owners
  }

  ghost predicate Represents(t: Table, c: Contents) {
    && TableOk(t)
    && forall mac: Mac, vf: nat :: (mac, vf) in c <==> Holds(t, mac, vf)
  }

  lemma {:induction false} FindMacIs(t: Table, i: nat, mac: Mac)
    requires TableOk(t) && Carries(t, i, mac)
    ensures FindMac(t, mac, 0) == Some(i)
  {
  }

  lemma {:induction false} SameFind(t: Table, t': Table, mac: Mac)
    requires TableOk(t) && TableOk(t')
    requires forall j: nat :: Carries(t', j, mac) <==> Carries(t, j, mac)
    ensures FindMac(t', mac, 0) == FindMac(t, mac, 0)
  {
  }

  /** Changing the slot of one address leaves the others' owners alone. */
  lemma ChangeSlot(t: Table, i: nat, s: Slot, mac: Mac)
    requires TableOk(t) && i < |t| && SlotOk(s) && s.mac == mac
    requires t[i].occupied ==> t[i].mac == mac
    requires !t[i].occupied ==> forall j: nat :: !Carries(t, j, mac)
    ensures TableOk(t[i := s])
    ensures forall a: Mac, vf: nat :: a != mac ==> Holds(t[i := s], a, vf) == Holds(t, a, vf)
    ensures forall vf: nat :: Holds(t[i := s], mac, vf) <==> s.occupied && IsOwner(vf) && vf in s.owners
  {
    hide CountOwners;
    var t' := t[i := s];
    assert forall j: nat, a: Mac :: a != mac ==> (Carries(t', j, a) <==> Carries(t, j, a));
    forall j: nat
      ensures Carries(t', j, mac) <==> j == i && s.occupied
    {
      assert j != i && Carries(t', j, mac) ==> Carries(t, j, mac);
      assert t[i].occupied ==> Carries(t, i, mac);
    }
    assert TableOk(t') by {
      forall j: nat, k: nat, a: Mac | Carries(t', j, a) && Carries(t', k, a)
        ensures j == k
      {
        if a != mac { assert Carries(t, j, a) && Carries(t, k, a); }
      }
    }
    forall a: Mac, vf: nat | a != mac
      ensures Holds(t', a, vf) == Holds(t, a, vf)
    {
      SameFind(t, t', a);
      assert !Carries(t', i, a);
    }
    if s.occupied {
      FindMacIs(t', i, mac);
    } else {
      assert FindMac(t', mac, 0).None?;
      assert forall vf: nat :: !Holds(t', mac, vf);
    }
  }

  lemma NewSlotSets(s: Slot, mac: Mac, vf: nat)
    requires SlotOk(s) && !s.occupied && IsOwner(vf) && mac != ZERO_MAC
    ensures var s' := NewSlot(s, mac, vf);
            SlotOk(s') && forall v :: IsOwner(v) ==> (v in s'.owners <==> v == vf)
  {
    assert forall v :: v in s.owners ==> v == 0;
    assert s.owners == [0, 0, 0, 0];
  }

  /** Adding an owner: where there is a slot for the address, exactly that pair joins, and no pair
      leaves. */
  lemma AddKeeps(t: Table, c: Contents, mac: Mac, vf: nat)
    requires Represents(t, c) && IsOwner(vf)
    ensures HasOwnerLists(t) && Represents(Add(t, mac, vf), if AddSlot(t, mac).Some? then c + {(mac, vf)} else c)
  {
    hide CountOwners, AddOwner, DropOwner, NewSlot;
    var slot := AddSlot(t, mac);
    if slot.Some? {
      var i := slot.value;
      if t[i].occupied {
        AddOwnerSets(t[i], vf);
        ChangeSlot(t, i, AddOwner(t[i], vf), mac);
      } else {
        NewSlotSets(t[i], mac, vf);
        assert NewSlot(t[i], mac, vf).occupied && NewSlot(t[i], mac, vf).mac == mac by { NewSlotFields(t[i], mac, vf); }
        ChangeSlot(t, i, NewSlot(t[i], mac, vf), mac);
      }
    }
  }

  lemma NewSlotFields(s: Slot, mac: Mac, vf: nat)
    requires |s.owners| == OWNERS
    ensures NewSlot(s, mac, vf).occupied && NewSlot(s, mac, vf).mac == mac
  {
  }

  /** Deleting an owner removes exactly that pair. */
  lemma DeleteKeeps(t: Table, c: Contents, mac: Mac, vf: nat)
    requires Represents(t, c) && IsOwner(vf)
    ensures HasOwnerLists(t) && Represents(Delete(t, mac, vf), c - {(mac, vf)})
  {
    hide CountOwners, AddOwner, DropOwner, NewSlot;
    var found := FindMac(t, mac, 0);
    if found.Some? {
      var i := found.value;
      DropOwnerSets(t[i], vf);
      ChangeSlot(t, i, DropOwner(t[i], vf), mac);
      if !DropOwner(t[i], vf).occupied {
        AtMostFour(DropOwner(t[i], vf).owners);
      }
    }
  }

  // ----- runs -----

  /** An addition, or the deletion of an address that is in the table. */
  datatype Op = AddMac(mac: Mac, vf: nat) | DelMac(mac: Mac, vf: nat)

  function Apply(t: Table, op: Op): Table
    requires HasOwnerLists(t)
  {
    match op
    case AddMac(mac, vf) => Add(t, mac, vf)
    case DelMac(mac, vf) => Delete(t, mac, vf)
  }

  /** The pairs after an operation; `placed` says whether an addition found a slot. */
  function After(c: Contents, op: Op, placed: bool): Contents {
    match op
    case AddMac(mac, vf) => if placed then c + {(mac, vf)} else c
    case DelMac(mac, vf) => c - {(mac, vf)}
  }

  ghost predicate IsRun(t: Table, c: Contents, ops: seq<Op>, t': Table, c': Contents)
    decreases |ops|
  {
    if ops == [] then
      t' == t && c' == c
    else
      && HasOwnerLists(t) && IsOwner(ops[0].vf)
      && (ops[0].DelMac? ==> FindMac(t, ops[0].mac, 0).Some?)
      && IsRun(Apply(t, ops[0]), After(c, ops[0], AddSlot(t, ops[0].mac).Some?), ops[1..], t', c')
  }

  /** Over every run, the table holds exactly the pairs placed and not yet deleted. */
  lemma {:induction false} RunKeeps(t: Table, c: Contents, ops: seq<Op>, t': Table, c': Contents)
    requires Represents(t, c) && IsRun(t, c, ops, t', c')
    ensures Represents(t', c')
    decreases |ops|
  {
    if ops != [] {
      StepKeeps(t, c, ops[0]);
      hide Represents, Add, Delete;
      RunKeeps(Apply(t, ops[0]), After(c, ops[0], AddSlot(t, ops[0].mac).Some?), ops[1..], t', c');
    }
  }

  lemma StepKeeps(t: Table, c: Contents, op: Op)
    requires Represents(t, c) && IsOwner(op.vf)
    ensures HasOwnerLists(t) && Represents(Apply(t, op), After(c, op, AddSlot(t, op.mac).Some?))
  {
    match op
    case AddMac(mac, vf) => AddKeeps(t, c, mac, vf);
    case DelMac(mac, vf) => DeleteKeeps(t, c, mac, vf);
  }

  /** An addition finds no slot exactly if the address is zero, or new to a full table. */
  lemma NoSlotIff(t: Table, mac: Mac)
    requires TableOk(t)
    ensures AddSlot(t, mac).None? <==>
            mac == Mac(0, 0, 0, 0, 0, 0) || (forall i: nat :: i < |t| ==> t[i].occupied && t[i].mac != mac)
  {
    assert forall i: nat :: Carries(t, i, mac) <==> i < |t| && t[i].occupied && t[i].mac == mac;
  }

  // ----- the address registers -----

  /** A register pair: the enable and source-address bits, and the six address bytes as the high
      register (bytes 4 and 5) and the low register (bytes 0 to 3) carry them. */
  datatype AddrReg = AddrReg(ae: bool, sa: bool, high: (Byte, Byte), low: Word)

  const CLEARED_REG := AddrReg(false, false, (0, 0), ZERO_WORD)

  /** tc956x_set_mac_addr */
  function SetReg(mac: Mac, sourceFilter: bool): AddrReg {
    AddrReg(true, sourceFilter, (mac.b4, mac.b5), Word(mac.b0, mac.b1, mac.b2, mac.b3))
  }

  /** dwxgmac2_get_umac_addr */
  function ReadMac(r: AddrReg): Mac {
    Mac(r.low.b0, r.low.b1, r.low.b2, r.low.b3, r.high.0, r.high.1)
  }

  /** The two 32-bit values of a register pair: bit 31 of the high one enables it, bit 30 makes it a
      source address. */
  function HighValue(r: AddrReg): nat {
    r.high.0 + 0x100 * r.high.1 + (if r.sa then 0x4000_0000 else 0) + (if r.ae then 0x8000_0000 else 0)
  }

  function LowValue(r: AddrReg): nat {
    WordValue(r.low)
  }

  /** The register pair holds the address, first byte lowest, enabled, and as a source address as
      asked. */
  predicate HoldsAddress(r: AddrReg, mac: Mac, sourceFilter: bool) {
    && HighValue(r) == mac.b4 + 0x100 * mac.b5 + 0x8000_0000 + (if sourceFilter then 0x4000_0000 else 0)
    && LowValue(r) == mac.b0 + 0x100 * mac.b1 + 0x1_0000 * mac.b2 + 0x100_0000 * mac.b3
  }

  lemma SetRegHolds(mac: Mac, sourceFilter: bool)
    ensures HoldsAddress(SetReg(mac, sourceFilter), mac, sourceFilter)
  {
  }

  /** The values determine the pair: an address read from them is the one that was set. */
  lemma ValuesReadBack(r: AddrReg, mac: Mac, sourceFilter: bool)
    requires HoldsAddress(r, mac, sourceFilter)
    ensures r.ae && r.sa == sourceFilter && ReadMac(r) == mac
  {
    var h := r.high.0 + 0x100 * r.high.1;
    assert h < 0x1_0000;
    assert r.high.0 == h % 0x100 && r.high.1 == h / 0x100;
    assert h == mac.b4 + 0x100 * mac.b5;
    WordFromValue(r.low, Word(mac.b0, mac.b1, mac.b2, mac.b3));
  }

  lemma WordFromValue(w: Word, w': Word)
    requires WordValue(w) == WordValue(w')
    ensures w == w'
  {
    var a, a' := w.b0 + 0x100 * w.b1 + 0x1_0000 * w.b2, w'.b0 + 0x100 * w'.b1 + 0x1_0000 * w'.b2;
    assert w.b3 == w'.b3 && a == a';
    assert w.b2 == w'.b2;
  }

  /** Register 3 + k is enabled exactly if slot k is occupied, and then reads back as its address. */
  predicate RegsOk(regs: seq<AddrReg>, t: Table) {
    && |regs| == ADDRESS_REGS && |t| == MAC_SLOTS
    && forall k :: 0 <= k < MAC_SLOTS ==>
         regs[FIRST_REG + k].ae == t[k].occupied && (t[k].occupied ==> ReadMac(regs[FIRST_REG + k]) == t[k].mac)
  }

  /** The hash buckets of the occupied slots. */
  function BucketsOf(t: Table, bucket: Mac -> nat): (bs: Buckets)
    ensures |bs| == |t|
  {
    seq(|t|, i requires 0 <= i < |t| => if t[i].occupied then Some(bucket(t[i].mac)) else None)
  }

  lemma BucketsOfUpdate(t: Table, bucket: Mac -> nat, i: nat, s: Slot)
    requires i < |t|
    ensures BucketsOf(t[i := s], bucket) == BucketsOf(t, bucket)[i := if s.occupied then Some(bucket(s.mac)) else None]
  {
  }

  lemma AddHash(hash: set<nat>, t: Table, bucket: Mac -> nat, mac: Mac, vf: nat)
    requires TableOk(t) && IsOwner(vf)
    ensures HashOk(hash, BucketsOf(t, bucket)) ==>
              HashOk(if TakesNewSlot(t, mac) then hash + {bucket(mac)} else hash,
                     BucketsOf(Add(t, mac, vf), bucket))
  {
    hide HashOk;
    var bs, slot := BucketsOf(t, bucket), AddSlot(t, mac);
    if HashOk(hash, bs) && slot.Some? {
      var i := slot.value;
      if t[i].occupied {
        BucketsOfUpdate(t, bucket, i, AddOwner(t[i], vf));
        assert bs[i := Some(bucket(mac))] == bs;
      } else {
        BucketsOfUpdate(t, bucket, i, NewSlot(t[i], mac, vf));
        HashAdded(hash, bs, i, bucket(mac));
      }
    }
  }

  /** An addition vacates no slot, and occupies at most the first vacant one. */
  lemma {:induction false} AddKeepsSlots(t: Table, mac: Mac, vf: nat)
    requires TableOk(t) && IsOwner(vf)
    ensures HasOwnerLists(t) && |Add(t, mac, vf)| == |t|
    ensures forall k: nat :: k < |t| ==>
              var s, s' := t[k], Add(t, mac, vf)[k];
              if TakesNewSlot(t, mac) && Some(k) == FirstVacant(t, 0) then !s.occupied && s'.occupied && s'.mac == mac
              else s'.occupied == s.occupied && (s.occupied ==> s'.mac == s.mac)
  {
    hide SlotOk;
    assert HasOwnerLists(t) by { OwnerLists(t); }
  }

  lemma OwnerLists(t: Table)
    requires TableOk(t)
    ensures HasOwnerLists(t)
  {
  }

  lemma DropHash(hash: set<nat>, t: Table, bucket: Mac -> nat, i: nat, vf: nat)
    requires TableOk(t) && i < |t| && t[i].occupied && IsOwner(vf)
    ensures var s := DropOwner(t[i], vf);
            && s.mac == t[i].mac && (s.counter == 0 <==> !s.occupied)
            && (HashOk(hash, BucketsOf(t, bucket)) ==>
                  (HashOk(if s.counter == 0 then hash - {bucket(t[i].mac)} else hash, BucketsOf(t[i := s], bucket))
                   <==> (s.counter == 0 ==> OwnBucket(BucketsOf(t, bucket), i))))
  {
    hide HashOk, OwnBucket;
    var s, bs := DropOwner(t[i], vf), BucketsOf(t, bucket);
    DropOwnerSets(t[i], vf);
    BucketsOfUpdate(t, bucket, i, s);
    if HashOk(hash, bs) {
      if s.occupied {
        assert bs[i := Some(bucket(t[i].mac))] == bs;
      } else {
        HashClearedIffOwn(hash, bs, i);
      }
    }
  }

  // ----- registers over runs -----

  /** The hash and the address registers. */
  datatype Registers = Registers(hash: set<nat>, regs: seq<AddrReg>)

  /** The registers after an operation; the hash register only changes where hashing is on. */
  function RegistersAfter(r: Registers, t: Table, op: Op, hashing: bool, bucket: Mac -> nat,
      sourceFilter: bool): Registers
    requires TableShape(t) && |r.regs| == ADDRESS_REGS
  {
    match op
    case AddMac(mac, vf) =>
      if TakesNewSlot(t, mac) then
        Registers(if hashing then r.hash + {bucket(mac)} else r.hash,
                  r.regs[FIRST_REG + FirstVacant(t, 0).value := SetReg(mac, sourceFilter)])
      else r
    case DelMac(mac, vf) =>
      match FindMac(t, mac, 0)
      case None => r
      case Some(i) =>
        if DropOwner(t[i], vf).counter == 0 then
          Registers(if hashing then r.hash - {bucket(mac)} else r.hash, r.regs[FIRST_REG + i := CLEARED_REG])
        else r
  }

  predicate TableShape(t: Table) {
    |t| == MAC_SLOTS && HasOwnerLists(t)
  }

  /** The operation vacates a slot whose bucket another live address uses. */
  predicate FreesShared(t: Table, op: Op, bucket: Mac -> nat)
    requires HasOwnerLists(t)
  {
    op.DelMac? &&
    match FindMac(t, op.mac, 0)
    case None => false
    case Some(i) => DropOwner(t[i], op.vf).counter == 0 && !OwnBucket(BucketsOf(t, bucket), i)
  }

  /** Register 3 + k goes on showing slot k. */
  lemma RegsKept(r: Registers, t: Table, op: Op, hashing: bool, bucket: Mac -> nat, sourceFilter: bool)
    requires TableOk(t) && IsOwner(op.vf) && RegsOk(r.regs, t)
    ensures TableShape(t) && |r.regs| == ADDRESS_REGS
    ensures RegsOk(RegistersAfter(r, t, op, hashing, bucket, sourceFilter).regs, Apply(t, op))
  {
    OwnerLists(t);
    hide AddOwner, DropOwner, NewSlot, Add, SlotOk, FindMac, FirstVacant, SetReg, ReadMac, RegsOk;
    match op
    case AddMac(mac, vf) =>
      AddKeepsSlots(t, mac, vf);
      SetRegReadsBack(mac, sourceFilter);
      if TakesNewSlot(t, mac) {
        RegChanged(r.regs, t, Add(t, mac, vf), FirstVacant(t, 0).value, SetReg(mac, sourceFilter));
      } else {
        RegChanged(r.regs, t, Add(t, mac, vf), 0, r.regs[FIRST_REG]);
      }
    case DelMac(mac, vf) =>
      var found := FindMac(t, mac, 0);
      if found.Some? {
        var i := found.value;
        DropFrees(t[i], vf);
        var freed := DropOwner(t[i], vf).counter == 0;
        RegChanged(r.regs, t, Delete(t, mac, vf), i, if freed then CLEARED_REG else r.regs[FIRST_REG + i]);
      }
  }

  /** At most slot `k` and its register change. */
  lemma RegChanged(regs: seq<AddrReg>, t: Table, t': Table, k: nat, reg: AddrReg)
    requires RegsOk(regs, t) && |t'| == |t| && k < |t|
    requires forall i :: 0 <= i < |t| && i != k ==>
               t'[i].occupied == t[i].occupied && (t[i].occupied ==> t'[i].mac == t[i].mac)
    requires reg.ae == t'[k].occupied && (t'[k].occupied ==> ReadMac(reg) == t'[k].mac)
    ensures RegsOk(regs[FIRST_REG + k := reg], t')
    ensures reg == regs[FIRST_REG + k] ==> regs[FIRST_REG + k := reg] == regs
  {
  }

  /** Only the register pair at `r` may differ. */
  predicate SameBut(regs: seq<AddrReg>, regs': seq<AddrReg>, r: nat) {
    |regs'| == |regs| && forall q :: 0 <= q < |regs| && q != r ==> regs'[q] == regs[q]
  }

  predicate IsCleared(r: AddrReg) {
    HighValue(r) == 0 && LowValue(r) == 0
  }

  /** An addition that takes a new slot sets the register pair of that slot, with the source bit as
      asked, and no other; any other addition changes none. */
  lemma {:induction false} AddSetsReg(r: Registers, t: Table, mac: Mac, vf: nat, hashing: bool,
                                      bucket: Mac -> nat, sourceFilter: bool)
    requires TableShape(t) && |r.regs| == 32
    ensures var r' := RegistersAfter(r, t, AddMac(mac, vf), hashing, bucket, sourceFilter);
            if TakesNewSlot(t, mac) then
              var q := 3 + FirstVacant(t, 0).value;
              q < |r'.regs| && SameBut(r.regs, r'.regs, q) && HoldsAddress(r'.regs[q], mac, sourceFilter)
            else
              r'.regs == r.regs
  {
    SetRegHolds(mac, sourceFilter);
    hide HoldsAddress, FirstVacant;
  }

  /** What a deletion does to the register pairs, given the tables before and after it. */
  predicate DeletedRegs(regs: seq<AddrReg>, regs': seq<AddrReg>, t: Table, t': Table, mac: Mac) {
    match FindMac(t, mac, 0)
    case None => regs' == regs
    case Some(i) =>
      if i < |t'| && !t'[i].occupied then
        3 + i < |regs'| && SameBut(regs, regs', 3 + i) && IsCleared(regs'[3 + i])
      else
        regs' == regs
  }

  /** A deletion that frees the slot clears its register pair, source bit included, and no other; any
      other deletion changes none. */
  lemma {:induction false} DeleteClearsReg(r: Registers, t: Table, mac: Mac, vf: nat, hashing: bool,
                                           bucket: Mac -> nat, sourceFilter: bool)
    requires TableOk(t) && IsOwner(vf) && |r.regs| == 32 && FindMac(t, mac, 0).Some?
    ensures TableShape(t)
    ensures DeletedRegs(r.regs, RegistersAfter(r, t, DelMac(mac, vf), hashing, bucket, sourceFilter).regs,
                        t, Delete(t, mac, vf), mac)
  {
    OwnerLists(t);
    DropFrees(t[FindMac(t, mac, 0).value], vf);
    hide DropOwner, SlotOk;
  }

  lemma SetRegReadsBack(mac: Mac, sourceFilter: bool)
    ensures SetReg(mac, sourceFilter).ae && ReadMac(SetReg(mac, sourceFilter)) == mac
  {
  }

  lemma DropFrees(s: Slot, vf: nat)
    requires SlotOk(s) && IsOwner(vf)
    ensures var s' := DropOwner(s, vf); s'.mac == s.mac && s'.occupied == (s.occupied && s'.counter != 0)
    ensures DropOwner(s, vf).counter == 0 ==> !DropOwner(s, vf).occupied
  {
    DropOwnerSets(s, vf);
  }

  /** An operation keeps the hash register right exactly unless it frees a slot with a shared
      bucket. */
  lemma HashKept(r: Registers, t: Table, op: Op, bucket: Mac -> nat, sourceFilter: bool)
    requires TableOk(t) && IsOwner(op.vf) && |r.regs| == ADDRESS_REGS && HashOk(r.hash, BucketsOf(t, bucket))
    ensures TableShape(t)
    ensures HashOk(RegistersAfter(r, t, op, true, bucket, sourceFilter).hash, BucketsOf(Apply(t, op), bucket))
            <==> !FreesShared(t, op, bucket)
  {
    hide HashOk, OwnBucket, AddOwner, DropOwner, NewSlot, SetReg;
    match op
    case AddMac(mac, vf) => AddHash(r.hash, t, bucket, mac, vf);
    case DelMac(mac, vf) =>
      var found := FindMac(t, mac, 0);
      if found.Some? { DropHash(r.hash, t, bucket, found.value, vf); }
  }

  /** The source bit of register 3 + k is set exactly if slot k is occupied and source addresses are
      filtered. */
  predicate SourceOk(regs: seq<AddrReg>, t: Table, sourceFilter: bool) {
    |regs| == 32 && |t| == 29
    && forall k :: 0 <= k < 29 ==> if t[k].occupied then regs[3 + k].sa == sourceFilter else !regs[3 + k].sa
  }

  lemma SourceKept(r: Registers, t: Table, op: Op, hashing: bool, bucket: Mac -> nat, sourceFilter: bool)
    requires TableOk(t) && IsOwner(op.vf) && SourceOk(r.regs, t, sourceFilter)
    ensures TableShape(t)
    ensures SourceOk(RegistersAfter(r, t, op, hashing, bucket, sourceFilter).regs, Apply(t, op), sourceFilter)
  {
    OwnerLists(t);
    hide AddOwner, DropOwner, NewSlot, Add, SlotOk, FindMac, FirstVacant, SetReg, SourceOk;
    match op
    case AddMac(mac, vf) =>
      AddKeepsSlots(t, mac, vf);
      SetRegSource(mac, sourceFilter);
      if TakesNewSlot(t, mac) {
        var i := FirstVacant(t, 0).value;
        SourceChanged(r.regs, t, Add(t, mac, vf), i, SetReg(mac, sourceFilter), sourceFilter);
      } else {
        SourceChanged(r.regs, t, Add(t, mac, vf), 0, r.regs[3], sourceFilter);
      }
    case DelMac(mac, vf) =>
      var found := FindMac(t, mac, 0);
      if found.Some? {
        var i := found.value;
        DropFrees(t[i], vf);
        var freed := DropOwner(t[i], vf).counter == 0;
        SourceChanged(r.regs, t, Delete(t, mac, vf), i, if freed then CLEARED_REG else r.regs[3 + i], sourceFilter);
      }
  }

  lemma SourceChanged(regs: seq<AddrReg>, t: Table, t': Table, k: nat, reg: AddrReg, sourceFilter: bool)
    requires SourceOk(regs, t, sourceFilter) && |t'| == |t| && k < |t|
    requires forall i :: 0 <= i < |t| && i != k ==> t'[i].occupied == t[i].occupied
    requires if t'[k].occupied then reg.sa == sourceFilter else !reg.sa
    ensures SourceOk(regs[3 + k := reg], t', sourceFilter)
    ensures reg == regs[3 + k] ==> regs[3 + k := reg] == regs
  {
  }

  lemma SetRegSource(mac: Mac, sourceFilter: bool)
    ensures SetReg(mac, sourceFilter).sa == sourceFilter
  {
  }

  ghost function RunRegisters(r: Registers, t: Table, c: Contents, ops: seq<Op>, t': Table, c': Contents,
                              bucket: Mac -> nat, sourceFilter: bool): (r': Registers)
    requires IsRun(t, c, ops, t', c') && Represents(t, c) && |r.regs| == ADDRESS_REGS
    decreases |ops|
  {
    if ops == [] then r
    else
      var op, placed := ops[0], AddSlot(t, ops[0].mac).Some?;
      StepKeeps(t, c, op);
      RunRegisters(RegistersAfter(r, t, op, true, bucket, sourceFilter), Apply(t, op), After(c, op, placed),
                   ops[1..], t', c', bucket, sourceFilter)
  }

  /** The live addresses occupy distinct buckets all along a run. */
  ghost predicate DistinctAlong(t: Table, ops: seq<Op>, bucket: Mac -> nat)
    decreases |ops|
  {
    && DistinctBuckets(BucketsOf(t, bucket))
    && (ops == [] || (HasOwnerLists(t) && DistinctAlong(Apply(t, ops[0]), ops[1..], bucket)))
  }

  /** Over every run, register 3 + k shows slot k; and if the live addresses occupy distinct
      buckets all along, the hash register is the set of their buckets, whatever the hash
      function. */
  lemma {:induction false} RegistersRun(r: Registers, t: Table, c: Contents, ops: seq<Op>, t': Table, c': Contents,
                                        bucket: Mac -> nat, sourceFilter: bool)
    requires Represents(t, c) && IsRun(t, c, ops, t', c') && RegsOk(r.regs, t)
    ensures var r' := RunRegisters(r, t, c, ops, t', c', bucket, sourceFilter);
            && RegsOk(r'.regs, t') && (SourceOk(r.regs, t, sourceFilter) ==> SourceOk(r'.regs, t', sourceFilter))
            && (HashOk(r.hash, BucketsOf(t, bucket)) && DistinctAlong(t, ops, bucket) ==>
                HashOk(r'.hash, BucketsOf(t', bucket)))
    decreases |ops|
  {
    if ops != [] {
      var op, placed := ops[0], AddSlot(t, ops[0].mac).Some?;
      StepKeeps(t, c, op);
      RegsKept(r, t, op, true, bucket, sourceFilter);
      if SourceOk(r.regs, t, sourceFilter) { SourceKept(r, t, op, true, bucket, sourceFilter); }
      if HashOk(r.hash, BucketsOf(t, bucket)) {
        HashKept(r, t, op, bucket, sourceFilter);
        if DistinctBuckets(BucketsOf(t, bucket)) { DistinctFreesOwn(t, op, bucket); }
      }
      var next := RegistersAfter(r, t, op, true, bucket, sourceFilter);
      hide HashOk, Apply, After, AddSlot, RegistersAfter, FreesShared, DistinctBuckets, RegsOk, SourceOk, TableOk;
      RegistersRun(next, Apply(t, op), After(c, op, placed), ops[1..], t', c', bucket, sourceFilter);
    }
  }

  lemma DistinctFreesOwn(t: Table, op: Op, bucket: Mac -> nat)
    requires HasOwnerLists(t) && DistinctBuckets(BucketsOf(t, bucket))
    ensures !FreesShared(t, op, bucket)
  {
    hide DropOwner;
  }

  function EmptyTable(): Table {
    seq(MAC_SLOTS, _ => VACANT_SLOT)
  }

  /** Two addresses of the same bucket, one deleted: the register no longer shows the other. */
  lemma {:induction false} SharedBucketCleared(a: Mac, b: Mac, vf: nat, bucket: Mac -> nat)
    requires a != ZERO_MAC && b != ZERO_MAC && a != b && IsOwner(vf) && bucket(a) == bucket(b)
    ensures var t := Add(Add(EmptyTable(), a, vf), b, vf);
            && HashOk({bucket(a)}, BucketsOf(t, bucket)) && FreesShared(t, DelMac(a, vf), bucket)
            && FindMac(t, a, 0) == Some(0) && DropOwner(t[0], vf).counter == 0 && Carries(Delete(t, a, vf), 1, b)
  {
    var t := TwoSlots(a, b, vf);
    AddBoth(a, b, vf);
    OnlyOwnerLeaves(a, vf);
    NewSlotFields(VACANT_SLOT, a, vf);
    NewSlotFields(VACANT_SLOT, b, vf);
    hide NewSlot, DropOwner, Add;
    assert FindMac(t, a, 0) == Some(0);
    var bs := BucketsOf(t, bucket);
    assert bs[0] == Some(bucket(a)) == bs[1];
    assert forall i :: 2 <= i < |bs| ==> bs[i] == None;
  }

  function TwoSlots(a: Mac, b: Mac, vf: nat): Table {
    EmptyTable()[0 := NewSlot(VACANT_SLOT, a, vf)][1 := NewSlot(VACANT_SLOT, b, vf)]
  }

  lemma AddBoth(a: Mac, b: Mac, vf: nat)
    requires a != ZERO_MAC && b != ZERO_MAC && a != b
    ensures Add(Add(EmptyTable(), a, vf), b, vf) == TwoSlots(a, b, vf)
  {
    var t0 := EmptyTable();
    NewSlotFields(VACANT_SLOT, a, vf);
    hide NewSlot;
    assert FirstVacant(t0, 0) == Some(0);
    assert forall i: nat :: !Carries(t0, i, a);
    var t1 := t0[0 := NewSlot(VACANT_SLOT, a, vf)];
    assert Add(t0, a, vf) == t1;
    assert FirstVacant(t1, 0) == Some(1);
    assert forall i: nat :: !Carries(t1, i, b);
    assert FindMac(t1, b, 0).None?;
  }

  lemma OnlyOwnerLeaves(mac: Mac, vf: nat)
    requires IsOwner(vf)
    ensures DropOwner(NewSlot(VACANT_SLOT, mac, vf), vf).counter == 0
  {
  }

  lemma EmptyRepresents(bucket: Mac -> nat)
    ensures Represents(EmptyTable(), {}) && HashOk({}, BucketsOf(EmptyTable(), bucket))
  {
    var t := EmptyTable();
    assert SlotOk(VACANT_SLOT);
    forall mac: Mac
      ensures FindMac(t, mac, 0).None?
    {
      assert forall i: nat :: !Carries(t, i, mac);
    }
  }
}
