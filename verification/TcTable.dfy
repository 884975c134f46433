/** The software table behind the parser: slots, their allocation, and the filling and
    clearing of entries (tc956xmac_tc.c), as functions on a sequence of slots. */
module TcTable {
  import opened FrpRow
  import opened KeySplit
  import opened Numbers
  import opened Wrappers

  // ----- requests -----

  datatype Protocol = AllProtocols | Ipv4 | OtherProtocol
  datatype Action = ActAccept | ActDrop | ActOther
  datatype SelectorKey = SelectorKey(off: int, val: Word, mask: Word)

  datatype Knode = Knode(handle: nat, prio: nat, protocol: Protocol, keys: seq<SelectorKey>,
                         offshift: nat, actions: seq<Action>)

  const ETH_HLEN := 14

  /** The largest offset the hardware supports: 64, 128 or 256 bytes. */
  const OFF_MAX_BOUND := 256

  /** The checked 32-bit byte offset of a request's only key, or None where it is refused. */
  function CheckedKey(kn: Knode, offMax: nat): (r: Option<Key>)
    ensures r.Some? ==> |kn.keys| == 1 && r.value.off <= offMax
  {
    if |kn.keys| != 1 || kn.protocol == OtherProtocol then
      None
    else
      var base := (kn.keys[0].off * Pow2(kn.offshift)) % TWO_32;
      var off := if kn.protocol == Ipv4 then (base + ETH_HLEN) % TWO_32 else base;
      if off > offMax then None else Some(Key(off, kn.keys[0].val, kn.keys[0].mask))
  }

  /** The byte offset a request asks for, before it is cut to 32 bits: IPv4 keys start after the
      Ethernet header of 14 bytes. */
  function RawOffset(kn: Knode): int
    requires |kn.keys| == 1
  {
    kn.keys[0].off * Pow2(kn.offshift) + if kn.protocol == Ipv4 then 14 else 0
  }

  /** One key, for all protocols or IPv4, at an offset that the hardware reaches. */
  predicate WellAddressed(kn: Knode, offMax: nat) {
    |kn.keys| == 1 && kn.protocol != OtherProtocol && RawOffset(kn) % TWO_32 <= offMax
  }

  /** The key that a request asks for. */
  function KeyOf(kn: Knode): Key
    requires |kn.keys| == 1
  {
    Key(RawOffset(kn) % TWO_32, kn.keys[0].val, kn.keys[0].mask)
  }

  /** The two wrap-arounds come to one, so that a negative offset may reach into the Ethernet
      header; the key is refused exactly if the request is not well addressed. */
  lemma CheckedKeyMeaning(kn: Knode, offMax: nat)
    ensures CheckedKey(kn, offMax) == if WellAddressed(kn, offMax) then Some(KeyOf(kn)) else None
  {
    if |kn.keys| == 1 && kn.protocol == Ipv4 {
      var x := kn.keys[0].off * Pow2(kn.offshift);
      assert x + ETH_HLEN == (x / TWO_32) * TWO_32 + (x % TWO_32 + ETH_HLEN);
      ModMultiple(x / TWO_32, x % TWO_32 + ETH_HLEN);
    }
  }

  lemma ModMultiple(q: int, r: int)
    ensures (q * TWO_32 + r) % TWO_32 == r % TWO_32
  {
  }

  /** An unshifted IPv4 key at offset 12, the source address, is at byte 26 of the frame. */
  lemma SourceAddressOffset(kn: Knode)
    requires |kn.keys| == 1 && kn.keys[0].off == 12 && kn.offshift == 0 && kn.protocol == Ipv4
    ensures CheckedKey(kn, 64) == Some(Key(26, kn.keys[0].val, kn.keys[0].mask))
  {
    assert 12 * Pow2(0) == 12;
  }

  /** The first of a request's actions, if it is one the driver takes. */
  predicate ActionTaken(actions: seq<Action>) {
    actions != [] && (actions[0] == ActAccept || actions[0] == ActDrop)
  }

  /** Only the first action counts, and a request without actions is refused. */
  function Decision(actions: seq<Action>): Option<Verdict> {
    if actions == [] || actions[0] == ActOther then None
    else if actions[0] == ActAccept then Some(Accept)
    else Some(FrpRow.Drop)
  }

  lemma DecisionMeaning(actions: seq<Action>)
    ensures Decision(actions).Some? <==> ActionTaken(actions)
    ensures ActionTaken(actions) ==> (Decision(actions).value == FrpRow.Drop <==> actions[0] == ActDrop)
  {
  }

  /** The 32-bit priority field: `prio << 16`, which keeps 16 bits of the priority and never
      reaches the "no priority" value of the search for the next entry. */
  function PrioField(prio: nat): (f: nat)
    ensures f == 0x1_0000 * (prio % 0x1_0000) < NO_PRIO
  {
    assert prio * 0x1_0000 == (prio / 0x1_0000) * TWO_32 + 0x1_0000 * (prio % 0x1_0000);
    (prio * 0x1_0000) % TWO_32
  }

  // ----- slots -----

  datatype Entry = Entry(inUse: bool, inHw: bool, isLast: bool, isFrag: bool, fragPtr: Option<nat>,
                         tablePos: nat, handle: nat, prio: nat, val: Row)

  type Slots = seq<Entry>

  const NO_PRIO := 0xFFFF_FFFF

  const ALL_PASS_ENTRY := Entry(true, false, true, false, None, 0, 0, NO_PRIO, ALL_PASS_ROW)
  const EMPTY_ENTRY := Entry(false, false, false, false, None, 0, 0, 0, ZERO_ROW)

  /** The table after initialisation: empty slots and the all-pass slot at the end. */
  function InitialSlots(count: nat): Slots
    requires count > 0
  {
    seq(count - 1, _ => EMPTY_ENTRY) + [ALL_PASS_ENTRY]
  }

  predicate IsMain(e: Entry) {
    e.inUse && !e.isFrag && !e.isLast
  }

  predicate IsFragment(e: Entry) {
    e.inUse && e.isFrag
  }

  /** The first slot from `i` on that is not in use. */
  function FindFree(s: Slots, i: nat := 0): (r: Option<nat>)
    requires i <= |s|
    ensures r.Some? ==> i <= r.value < |s| && !s[r.value].inUse && forall j :: i <= j < r.value ==> s[j].inUse
    ensures r.None? ==> forall j :: i <= j < |s| ==> s[j].inUse
    decreases |s| - i
  {
    if i == |s| then None else if !s[i].inUse then Some(i) else FindFree(s, i + 1)
  }

  predicate CarriesHandle(e: Entry, handle: nat) {
    e.handle == handle && !e.isFrag
  }

  /** The last of the first `n` slots that carries the handle, in use or not. */
  function FindHandle(s: Slots, handle: nat, n: nat): (r: Option<nat>)
    requires n <= |s|
    ensures r.Some? ==> r.value < n && CarriesHandle(s[r.value], handle)
                        && forall j :: r.value < j < n ==> !CarriesHandle(s[j], handle)
    ensures r.None? ==> forall j :: 0 <= j < n ==> !CarriesHandle(s[j], handle)
  {
    if n == 0 then None else if CarriesHandle(s[n - 1], handle) then Some(n - 1) else FindHandle(s, handle, n - 1)
  }

  function Allot(e: Entry, handle: nat): Entry {
    e.(handle := handle, inUse := true, val := ZERO_ROW)
  }

  function Decide(r: Row, v: Verdict): Row {
    match v
    case Accept => r.(af := true)
    case Drop => r.(rf := true)
  }

  // ----- filling and clearing -----

  /** A row with its three match fields set. */
  function WithTest(r: Row, test: Row): Row {
    r.(matchEn := test.matchEn, matchData := test.matchData, frameOffset := test.frameOffset)
  }

  function FilledMain(e: Entry, kn: Knode, key: Key, frag: Option<nat>): Entry
    requires key.off <= OFF_MAX_BOUND
  {
    var a := Allot(e, kn.handle);
    a.(fragPtr := frag, val := WithTest(a.val, MainRow(key)), prio := PrioField(kn.prio))
  }

  function FilledFrag(e: Entry, kn: Knode, key: Key): Entry
    requires key.off <= OFF_MAX_BOUND && key.off % 4 != 0
  {
    var a := Allot(e, kn.handle);
    a.(val := WithTest(a.val, FragRow(key)), prio := PrioField(kn.prio), isFrag := true)
  }

  /** tc_fill_entry: the new slots, and whether the request was taken. */
  function Fill(s: Slots, kn: Knode, offMax: nat): (Slots, bool)
    requires offMax <= OFF_MAX_BOUND
  {
    var key, first := CheckedKey(kn, offMax), FindFree(s);
    if key.None? || first.None? then
      (s, false)
    else if key.value.off % 4 == 0 then
      FillPlain(s, kn, key.value, first.value)
    else
      var k := first.value;
      var s1 := s[k := Allot(s[k], kn.handle)];
      match FindFree(s1)
      case None => (s1[k := s1[k].(inUse := false)], false)
      case Some(f) => FillSplit(s, kn, key.value, k, f)
  }

  function FillPlain(s: Slots, kn: Knode, key: Key, k: nat): (Slots, bool)
    requires k < |s| && key.off <= OFF_MAX_BOUND
  {
    var e := FilledMain(s[k], kn, key, None);
    match Decision(kn.actions)
    case None => (s[k := e.(inUse := false)], false)
    case Some(v) => (s[k := e.(val := Decide(e.val, v))], true)
  }

  function FillSplit(s: Slots, kn: Knode, key: Key, k: nat, f: nat): (Slots, bool)
    requires k < |s| && f < |s| && k != f && key.off <= OFF_MAX_BOUND && key.off % 4 != 0
  {
    var e, g := FilledMain(s[k], kn, key, Some(f)), FilledFrag(s[f], kn, key);
    match Decision(kn.actions)
    case None => (s[k := e.(inUse := false)][f := g.(inUse := false)], false)
    case Some(v) => (s[k := e][f := g.(val := Decide(g.val, v))], true)
  }

  /** Fragment pointers point into the table. */
  predicate PointersInTable(s: Slots) {
    forall k :: 0 <= k < |s| && s[k].fragPtr.Some? ==> s[k].fragPtr.value < |s|
  }

  function Vacate(e: Entry): Entry {
    e.(inUse := false)
  }

  function VacateFragment(e: Entry): Entry {
    e.(isFrag := false, inUse := false)
  }

  /** tc_unfill_entry */
  function Unfill(s: Slots, handle: nat): (r: Slots)
    requires PointersInTable(s)
    ensures |r| == |s|
  {
    match FindHandle(s, handle, |s|)
    case None => s
    case Some(k) => Release(s, k)
  }

  function Release(s: Slots, k: nat): (r: Slots)
    requires PointersInTable(s) && k < |s|
    ensures |r| == |s|
  {
    var s1 := s[k := Vacate(s[k])];
    match s[k].fragPtr
    case None => s1
    case Some(f) => s1[f := VacateFragment(s1[f])]
  }

  // ----- what the table stands for -----

  /** An installed filter: frames that match the key get the verdict. */
  datatype Rule = Rule(prio: nat, key: Key, verdict: Verdict)

  function RuleOf(kn: Knode, offMax: nat): Rule
    requires CheckedKey(kn, offMax).Some? && Decision(kn.actions).Some?
  {
    Rule(PrioField(kn.prio), CheckedKey(kn, offMax).value, Decision(kn.actions).value)
  }

  predicate Owns(s: Slots, k: nat, f: nat) {
    k < |s| && IsMain(s[k]) && s[k].fragPtr == Some(f)
  }

  predicate MainOf(s: Slots, k: nat, h: nat) {
    k < |s| && IsMain(s[k]) && s[k].handle == h
  }

  /** Every in-use fragment belongs to exactly one in-use main entry, no free slot is marked as
      a fragment, and the last slot, and no other, is the all-pass entry. */
  ghost predicate WellFormed(s: Slots) {
    && |s| > 0
    && s[|s| - 1] == ALL_PASS_ENTRY.(inHw := s[|s| - 1].inHw, tablePos := s[|s| - 1].tablePos)
    && (forall k :: 0 <= k < |s| - 1 ==> !s[k].isLast)
    && (forall k :: 0 <= k < |s| && !s[k].inUse ==> !s[k].isFrag)
    && PointersInTable(s)
    && (forall k: nat, f: nat :: Owns(s, k, f) ==> IsFragment(s[f]))
    && (forall k: nat, k': nat, f: nat :: Owns(s, k, f) && Owns(s, k', f) ==> k == k')
    && (forall f: nat :: f < |s| && IsFragment(s[f]) ==> exists k: nat :: Owns(s, k, f))
  }

  /** Main row `r` is `want`, but for the bits that may be rewritten on loading. */
  predicate SameTest(r: Row, want: Row) {
    r == want.(af := r.af, rf := r.rf, nc := r.nc, okIndex := r.okIndex)
  }

  /** Slot `k` (with its fragment) is the compiled form of the rule. */
  predicate Stores(s: Slots, k: nat, rule: Rule)
    requires k < |s| && PointersInTable(s)
  {
    && rule.key.off <= OFF_MAX_BOUND
    && s[k].prio == rule.prio < NO_PRIO
    && if rule.key.off % 4 == 0 then
         s[k].fragPtr.None? && s[k].val == Decide(MainRow(rule.key), rule.verdict)
       else
         && s[k].fragPtr.Some?
         && SameTest(s[k].val, MainRow(rule.key))
         && s[s[k].fragPtr.value].val == Decide(FragRow(rule.key), rule.verdict)
         && s[s[k].fragPtr.value].prio == rule.prio
  }

  /** The slots hold exactly the rules of `m`, one main entry for each handle. */
  ghost predicate Holds(s: Slots, m: map<nat, Rule>)
    requires PointersInTable(s)
  {
    && (forall k: nat, h: nat :: MainOf(s, k, h) ==> h in m && Stores(s, k, m[h]))
    && (forall k: nat, k': nat, h: nat :: MainOf(s, k, h) && MainOf(s, k', h) ==> k == k')
    && (forall h: nat :: h in m ==> exists k: nat :: MainOf(s, k, h))
  }

  lemma InitialTable(count: nat)
    requires count > 0
    ensures WellFormed(InitialSlots(count)) && Holds(InitialSlots(count), map[])
  {
    var s := InitialSlots(count);
    assert forall k :: 0 <= k < |s| - 1 ==> s[k] == EMPTY_ENTRY;
    assert forall k: nat, f: nat :: !Owns(s, k, f);
    assert forall k: nat, h: nat :: !MainOf(s, k, h);
  }

  // ----- single stores -----

  /** Storing an entry without a fragment in a free slot. */
  lemma StoreWellFormed(s: Slots, k: nat, e: Entry)
    requires WellFormed(s) && k < |s| && !s[k].inUse && !e.isFrag && !e.isLast
    requires if e.inUse then e.fragPtr.None? else e.fragPtr.Some? ==> e.fragPtr.value < |s|
    ensures WellFormed(s[k := e])
  {
    var s' := s[k := e];
    assert forall j: nat, f: nat :: Owns(s', j, f) <==> Owns(s, j, f);
  }

  /** A main entry's rule is read off its own slot and its fragment's. */
  lemma StoresFrame(s: Slots, m: map<nat, Rule>, s': Slots, j: nat, h: nat)
    requires WellFormed(s) && Holds(s, m) && MainOf(s, j, h) && |s'| == |s| && PointersInTable(s')
    requires s'[j] == s[j] && forall i :: 0 <= i < |s| && s[i].inUse ==> s'[i] == s[i]
    ensures h in m && Stores(s', j, m[h])
  {
    if s[j].fragPtr.Some? { assert Owns(s, j, s[j].fragPtr.value); }
  }

  /** Changing a free slot, and leaving it free. */
  lemma FreeStoreHolds(s: Slots, m: map<nat, Rule>, k: nat, e: Entry)
    requires WellFormed(s) && Holds(s, m) && k < |s| && !s[k].inUse && !e.inUse
    requires PointersInTable(s[k := e])
    ensures Holds(s[k := e], m)
  {
    var s' := s[k := e];
    assert forall j: nat, h: nat :: MainOf(s', j, h) <==> MainOf(s, j, h);
    forall j: nat, h: nat | MainOf(s', j, h)
      ensures h in m && Stores(s', j, m[h])
    {
      StoresFrame(s, m, s', j, h);
    }
  }

  /** Storing a rule in a free slot; `s'` may differ from `s` in other free slots. */
  lemma NewRuleHolds(s: Slots, m: map<nat, Rule>, s': Slots, k: nat, rule: Rule)
    requires WellFormed(s) && Holds(s, m) && |s'| == |s| && PointersInTable(s')
    requires k < |s| && !s[k].inUse && IsMain(s'[k]) && s'[k].handle !in m
    requires forall i :: 0 <= i < |s| && s[i].inUse ==> s'[i] == s[i]
    requires forall i :: 0 <= i < |s| && i != k && !s[i].inUse ==> !IsMain(s'[i])
    requires Stores(s', k, rule)
    ensures Holds(s', m[s'[k].handle := rule])
  {
    hide Stores;
    var h0 := s'[k].handle;
    assert forall j: nat, h: nat :: MainOf(s', j, h) <==> MainOf(s, j, h) || (j == k && h == h0);
    forall j: nat, h: nat | MainOf(s', j, h)
      ensures h in m[h0 := rule] && Stores(s', j, m[h0 := rule][h])
    {
      if j != k { StoresFrame(s, m, s', j, h); }
    }
    assert MainOf(s', k, h0);
    forall h: nat | h in m
      ensures exists j: nat :: MainOf(s', j, h)
    {
      var j: nat :| MainOf(s, j, h);
      assert MainOf(s', j, h);
    }
  }

  /** Storing a main entry and its fragment in two free slots. */
  lemma SplitStoreWellFormed(s: Slots, k: nat, f: nat, e: Entry, g: Entry)
    requires WellFormed(s) && k < |s| && f < |s| && k != f && !s[k].inUse && !s[f].inUse
    requires IsMain(e) && e.fragPtr == Some(f)
    requires IsFragment(g) && !g.isLast && (g.fragPtr.Some? ==> g.fragPtr.value < |s|)
    ensures WellFormed(s[k := e][f := g])
  {
    var s' := s[k := e][f := g];
    assert forall j: nat, i: nat :: Owns(s', j, i) <==> Owns(s, j, i) || (j == k && i == f);
    assert Owns(s', k, f);
  }

  // ----- filling -----

  lemma FillPlainKeeps(s: Slots, m: map<nat, Rule>, kn: Knode, offMax: nat, k: nat)
    requires WellFormed(s) && Holds(s, m) && offMax <= OFF_MAX_BOUND && kn.handle !in m
    requires k < |s| && !s[k].inUse
    requires CheckedKey(kn, offMax).Some? && CheckedKey(kn, offMax).value.off % 4 == 0
    ensures var (s', ok) := FillPlain(s, kn, CheckedKey(kn, offMax).value, k);
            && |s'| == |s| && WellFormed(s') && ok == Decision(kn.actions).Some?
            && Holds(s', if ok then m[kn.handle := RuleOf(kn, offMax)] else m)
  {
    var key := CheckedKey(kn, offMax).value;
    var (s', ok) := FillPlain(s, kn, key, k);
    StoreWellFormed(s, k, s'[k]);
    if ok {
      NewRuleHolds(s, m, s', k, RuleOf(kn, offMax));
    } else {
      FreeStoreHolds(s, m, k, s'[k]);
    }
  }

  /** Setting the match fields of a cleared row gives the key's row. */
  lemma TestsOnCleared(key: Key)
    requires key.off <= OFF_MAX_BOUND && key.off % 4 != 0
    ensures WithTest(ZERO_ROW, MainRow(key)) == MainRow(key)
    ensures WithTest(ZERO_ROW, FragRow(key)) == FragRow(key)
  {
  }

  lemma FillSplitKeeps(s: Slots, m: map<nat, Rule>, kn: Knode, offMax: nat, k: nat, f: nat)
    requires WellFormed(s) && Holds(s, m) && offMax <= OFF_MAX_BOUND && kn.handle !in m
    requires k < |s| && f < |s| && k != f && !s[k].inUse && !s[f].inUse
    requires CheckedKey(kn, offMax).Some? && CheckedKey(kn, offMax).value.off % 4 != 0
    ensures var (s', ok) := FillSplit(s, kn, CheckedKey(kn, offMax).value, k, f);
            && |s'| == |s| && ok == Decision(kn.actions).Some? && (WellFormed(s') <==> ok) && PointersInTable(s')
            && Holds(s', if ok then m[kn.handle := RuleOf(kn, offMax)] else m)
  {
    TestsOnCleared(CheckedKey(kn, offMax).value);
    hide CheckedKey, MainRow, FragRow;
    var key := CheckedKey(kn, offMax).value;
    var (s', ok) := FillSplit(s, kn, key, k, f);
    if ok {
      SplitStoreWellFormed(s, k, f, s'[k], s'[f]);
      NewRuleHolds(s, m, s', k, RuleOf(kn, offMax));
    } else {
      assert !s'[f].inUse && s'[f].isFrag;
      StoreWellFormed(s, k, s'[k]);
      FreeStoreHolds(s, m, k, s'[k]);
      FreeStoreHolds(s[k := s'[k]], m, f, s'[f]);
    }
  }

  /** Exactly when a request is taken: it is well addressed, its first action is one that the driver
      takes, and there is a free slot, or two for a key that is not word-aligned. */
  predicate Takes(s: Slots, kn: Knode, offMax: nat) {
    && WellAddressed(kn, offMax) && ActionTaken(kn.actions)
    && (exists k :: 0 <= k < |s| && !s[k].inUse)
    && (KeyOf(kn).off % 4 != 0 ==> exists k, f :: 0 <= k < f < |s| && !s[k].inUse && !s[f].inUse)
  }

  lemma FillTakenIff(s: Slots, kn: Knode, offMax: nat)
    requires offMax <= OFF_MAX_BOUND
    ensures Fill(s, kn, offMax).1 <==> Takes(s, kn, offMax)
  {
    CheckedKeyMeaning(kn, offMax);
    DecisionMeaning(kn.actions);
    hide CheckedKey, Decision, RawOffset, MainRow, FragRow;
    var first := FindFree(s);
    if first.Some? && WellAddressed(kn, offMax) {
      var k := first.value;
      var s1 := s[k := Allot(s[k], kn.handle)];
      var second := FindFree(s1);
      assert s1[k].inUse && forall j :: 0 <= j < |s| && j != k ==> s1[j] == s[j];
    }
  }

  /** The requests that spoil the table: the action is refused only after a fragment slot has
      been marked, and the mark stays on the slot when it is freed. */
  predicate SpoilsTable(s: Slots, kn: Knode, offMax: nat) {
    && CheckedKey(kn, offMax).Some? && CheckedKey(kn, offMax).value.off % 4 != 0
    && Decision(kn.actions).None?
    && exists k, f :: 0 <= k < f < |s| && !s[k].inUse && !s[f].inUse
  }

  /** A request that is taken adds its rule and changes no other; one that is refused changes no
      rule.  The table stays well formed exactly when the request is not a spoiling one. */
  lemma FillCorrect(s: Slots, m: map<nat, Rule>, kn: Knode, offMax: nat)
    requires WellFormed(s) && Holds(s, m) && offMax <= OFF_MAX_BOUND && kn.handle !in m
    ensures var (s', ok) := Fill(s, kn, offMax);
            && |s'| == |s| && PointersInTable(s')
            && (ok ==> CheckedKey(kn, offMax).Some? && Decision(kn.actions).Some?)
            && Holds(s', if ok then m[kn.handle := RuleOf(kn, offMax)] else m)
            && (WellFormed(s') <==> !SpoilsTable(s, kn, offMax))
  {
    hide CheckedKey, FillPlain, FillSplit, Stores;
    var key, first := CheckedKey(kn, offMax), FindFree(s);
    if key.Some? && first.Some? {
      var k := first.value;
      if key.value.off % 4 == 0 {
        FillPlainKeeps(s, m, kn, offMax, k);
      } else {
        var s1 := s[k := Allot(s[k], kn.handle)];
        var second := FindFree(s1);
        if second.Some? {
          FillSplitKeeps(s, m, kn, offMax, k, second.value);
          assert s1[k].inUse && s1[second.value] == s[second.value];
          assert SpoilsTable(s, kn, offMax) <==> Decision(kn.actions).None?;
        } else {
          var e := s1[k].(inUse := false);
          assert s1[k := e] == s[k := e];
          StoreWellFormed(s, k, e);
          FreeStoreHolds(s, m, k, e);
          assert forall j :: 0 <= j < |s| && j != k ==> s1[j] == s[j] && s[j].inUse;
        }
      }
    }
  }

  predicate PlainRequest(kn: Knode, offMax: nat) {
    && CheckedKey(kn, offMax).Some? && CheckedKey(kn, offMax).value.off % 4 == 0
    && Decision(kn.actions).Some?
  }

  /** What a spoiling request costs: of the next two word-aligned requests, both accepted, the
      second ends up in the marked slot and never becomes a main entry, so it is never loaded. */
  lemma SpoiledSlotLosesRule(s: Slots, kn: Knode, kn2: Knode, kn3: Knode, offMax: nat)
    requires WellFormed(s) && offMax <= OFF_MAX_BOUND && SpoilsTable(s, kn, offMax)
    requires PlainRequest(kn2, offMax) && PlainRequest(kn3, offMax)
    requires kn3.handle !in {kn.handle, kn2.handle} && forall k :: 0 <= k < |s| ==> s[k].handle != kn3.handle
    ensures var s1 := Fill(s, kn, offMax).0;
            var (s2, ok2) := Fill(s1, kn2, offMax);
            var (s3, ok3) := Fill(s2, kn3, offMax);
            ok2 && ok3 && forall k: nat :: !MainOf(s3, k, kn3.handle)
  {
    hide CheckedKey, Decision, MainRow, FragRow, PrioField;
    var k, f := TwoFree(s, kn.handle);
    var s1 := Fill(s, kn, offMax).0;
    assert s1[f].isFrag;
    FirstFreeIs(s1, k);
    var s2 := Fill(s1, kn2, offMax).0;
    FirstFreeIs(s2, f);
  }

  lemma TwoFree(s: Slots, handle: nat) returns (k: nat, f: nat)
    requires exists a, b :: 0 <= a < b < |s| && !s[a].inUse && !s[b].inUse
    ensures k < f < |s| && !s[k].inUse && !s[f].inUse
    ensures forall j :: 0 <= j < f && j != k ==> s[j].inUse
    ensures FindFree(s) == Some(k) && FindFree(s[k := Allot(s[k], handle)]) == Some(f)
  {
    var a, b :| 0 <= a < b < |s| && !s[a].inUse && !s[b].inUse;
    k := FindFree(s).value;
    var t := s[k := Allot(s[k], handle)];
    assert !t[b].inUse;
    f := FindFree(t).value;
    assert t[k].inUse;
    assert forall j :: 0 <= j < f && j != k ==> t[j] == s[j];
  }

  lemma {:induction false} FirstFreeIs(s: Slots, k: nat)
    requires k < |s| && !s[k].inUse && forall j :: 0 <= j < k ==> s[j].inUse
    ensures FindFree(s) == Some(k)
  {
  }

  // ----- clearing -----

  /** Freeing a main entry and its fragment removes its rule and no other. */
  lemma ReleaseMainKeeps(s: Slots, m: map<nat, Rule>, k: nat, h: nat)
    requires WellFormed(s) && Holds(s, m) && MainOf(s, k, h)
    ensures WellFormed(Release(s, k)) && Holds(Release(s, k), m - {h})
  {
    hide Stores, Holds;
    var s' := Release(s, k);
    var f := s[k].fragPtr;
    assert f.Some? ==> Owns(s, k, f.value);
    assert forall j: nat, i: nat :: Owns(s', j, i) <==> Owns(s, j, i) && j != k;
    assert WellFormed(s');
    ReleaseHolds(s, m, s', k, h);
  }

  lemma ReleaseHolds(s: Slots, m: map<nat, Rule>, s': Slots, k: nat, h: nat)
    requires WellFormed(s) && Holds(s, m) && MainOf(s, k, h)
    requires |s'| == |s| && PointersInTable(s') && !s'[k].inUse
    requires forall i :: 0 <= i < |s| && i != k && Some(i) != s[k].fragPtr ==> s'[i] == s[i]
    requires s[k].fragPtr.Some? ==> !s'[s[k].fragPtr.value].inUse
    ensures Holds(s', m - {h})
  {
    hide Stores;
    assert s[k].fragPtr.Some? ==> Owns(s, k, s[k].fragPtr.value);
    assert forall j: nat, h': nat :: MainOf(s', j, h') <==> MainOf(s, j, h') && j != k;
    forall j: nat, h': nat | MainOf(s', j, h')
      ensures h' in m - {h} && Stores(s', j, (m - {h})[h'])
    {
      KeptByRelease(s, m, s', k, j, h');
    }
    forall h': nat | h' in m - {h}
      ensures exists j: nat :: MainOf(s', j, h')
    {
      var j: nat :| MainOf(s, j, h');
      assert MainOf(s', j, h');
    }
  }

  lemma KeptByRelease(s: Slots, m: map<nat, Rule>, s': Slots, k: nat, j: nat, h: nat)
    requires WellFormed(s) && Holds(s, m) && k < |s| && IsMain(s[k]) && MainOf(s, j, h) && j != k
    requires |s'| == |s| && PointersInTable(s')
    requires forall i :: 0 <= i < |s| && i != k && Some(i) != s[k].fragPtr ==> s'[i] == s[i]
    requires s[k].fragPtr != Some(j)
    ensures h in m && Stores(s', j, m[h])
  {
    if s[j].fragPtr.Some? {
      assert Owns(s, j, s[j].fragPtr.value);
      assert s[k].fragPtr.Some? ==> Owns(s, k, s[k].fragPtr.value);
    }
  }

  /** The in-use slot that a stale fragment pointer of free slot `k` names, if any. */
  predicate StalePointer(s: Slots, k: nat, f: nat) {
    k < |s| && f < |s| && !s[k].inUse && s[k].fragPtr == Some(f) && s[f].inUse
  }

  /** What a look-up of `h` needs: the slot it finds is in use, or is a leftover whose fragment
      pointer names no slot in use and `h` has no rule (or, by luck, names the rule's own slot
      and that rule has no fragment). */
  predicate LookupSound(s: Slots, m: map<nat, Rule>, h: nat)
    requires PointersInTable(s)
  {
    match FindHandle(s, h, |s|)
    case None => true
    case Some(k) =>
      if s[k].inUse then
        true
      else if s[k].fragPtr.Some? && s[s[k].fragPtr.value].inUse then
        MainOf(s, s[k].fragPtr.value, h) && s[s[k].fragPtr.value].fragPtr.None?
      else
        h !in m
  }

  lemma FoundInUse(s: Slots, m: map<nat, Rule>, h: nat, k: nat)
    requires WellFormed(s) && Holds(s, m) && h != 0 && k < |s| && CarriesHandle(s[k], h) && s[k].inUse
    ensures MainOf(s, k, h)
  {
  }

  lemma {:induction false} NotFound(s: Slots, m: map<nat, Rule>, h: nat)
    requires WellFormed(s) && Holds(s, m) && FindHandle(s, h, |s|).None?
    ensures h !in m && m - {h} == m
  {
    assert forall k: nat :: MainOf(s, k, h) ==> CarriesHandle(s[k], h);
  }

  /** A stale pointer to a slot in use, other than the lucky one, damages another entry. */
  lemma StalePointerBreaks(s: Slots, m: map<nat, Rule>, h: nat, k: nat, f: nat)
    requires WellFormed(s) && Holds(s, m) && StalePointer(s, k, f)
    requires !(MainOf(s, f, h) && s[f].fragPtr.None?)
    ensures !(WellFormed(Release(s, k)) && Holds(Release(s, k), m - {h}))
  {
    hide Stores;
    var s' := Release(s, k);
    if s[f].isFrag {
      var j: nat :| Owns(s, j, f);
      assert Owns(s', j, f);
    } else if s[f].isLast {
    } else if s[f].handle == h {
      OrphanedFragment(s, m, k, f);
    } else {
      LostMain(s, m, h, k, f);
    }
  }

  lemma OrphanedFragment(s: Slots, m: map<nat, Rule>, k: nat, f: nat)
    requires WellFormed(s) && StalePointer(s, k, f) && IsMain(s[f]) && s[f].fragPtr.Some?
    ensures !WellFormed(Release(s, k))
  {
    var s', g := Release(s, k), s[f].fragPtr.value;
    assert Owns(s, f, g);
    assert IsFragment(s'[g]);
    forall j: nat ensures !Owns(s', j, g) {
      assert Owns(s', j, g) ==> Owns(s, j, g) && j != f;
    }
  }

  lemma LostMain(s: Slots, m: map<nat, Rule>, h: nat, k: nat, f: nat)
    requires WellFormed(s) && Holds(s, m) && StalePointer(s, k, f) && IsMain(s[f]) && s[f].handle != h
    ensures !Holds(Release(s, k), m - {h})
  {
    hide Stores;
    var s', h' := Release(s, k), s[f].handle;
    assert MainOf(s, f, h');
    forall j: nat ensures !MainOf(s', j, h') {
      assert MainOf(s', j, h') ==> MainOf(s, j, h') && j != f;
    }
    assert h' in m - {h};
  }

  lemma {:induction false} StaleSlotCase(s: Slots, m: map<nat, Rule>, h: nat, k: nat)
    requires WellFormed(s) && Holds(s, m) && FindHandle(s, h, |s|) == Some(k) && !s[k].inUse
    ensures WellFormed(Release(s, k)) && Holds(Release(s, k), m - {h}) <==> LookupSound(s, m, h)
  {
    hide Stores;
    if s[k].fragPtr.Some? && StalePointer(s, k, s[k].fragPtr.value) {
      var f := s[k].fragPtr.value;
      if MainOf(s, f, h) && s[f].fragPtr.None? {
        ReleaseMainKeeps(s, m, f, h);
        assert Release(s, k) == Release(s, f);
      } else {
        StalePointerBreaks(s, m, h, k, f);
      }
    } else {
      assert Release(s, k) == s by { ReleaseFreeAgain(s, k); }
      if h !in m {
        assert m - {h} == m;
      } else {
        var j: nat :| MainOf(s, j, h);
        assert h !in m - {h};
      }
    }
  }

  lemma ReleaseFreeAgain(s: Slots, k: nat)
    requires WellFormed(s) && k < |s| && !s[k].inUse
    requires s[k].fragPtr.Some? ==> !s[s[k].fragPtr.value].inUse
    ensures Release(s, k) == s
  {
  }

  /** The all-pass slot carries handle zero and comes last: clearing that handle frees it. */
  lemma {:induction false} ZeroHandleFreesLast(s: Slots)
    requires WellFormed(s)
    ensures FindHandle(s, 0, |s|) == Some(|s| - 1) && !WellFormed(Unfill(s, 0))
  {
    assert !Unfill(s, 0)[|s| - 1].inUse;
  }

  /** Clearing a handle removes its rule and no other, and keeps the table well formed, if and
      only if the handle is not zero and the look-up is sound. */
  lemma UnfillCorrectIffSound(s: Slots, m: map<nat, Rule>, h: nat)
    requires WellFormed(s) && Holds(s, m)
    ensures WellFormed(Unfill(s, h)) && Holds(Unfill(s, h), m - {h}) <==> h != 0 && LookupSound(s, m, h)
  {
    var found := FindHandle(s, h, |s|);
    hide Stores;
    if h == 0 {
      ZeroHandleFreesLast(s);
    } else if found.None? {
      NotFound(s, m, h);
    } else if s[found.value].inUse {
      FoundInUse(s, m, h, found.value);
      ReleaseMainKeeps(s, m, found.value, h);
    } else {
      StaleSlotCase(s, m, h, found.value);
    }
  }

  /** A free slot after the main slot of `h` still carries its handle. */
  predicate StaleAfter(s: Slots, k: nat, h: nat) {
    exists j :: k < j < |s| && !s[j].inUse && s[j].handle == h
  }

  /** The last slot that carries `h` is free, and its leftover pointer names the main slot `k`, which
      has no fragment. */
  predicate LuckyPointer(s: Slots, k: nat, h: nat) {
    match FindHandle(s, h, |s|)
    case None => false
    case Some(j) => k < |s| && !s[j].inUse && s[j].fragPtr == Some(k) && s[k].fragPtr.None?
  }

  /** For an installed handle a look-up is sound exactly if no free slot after its main slot still
      carries it, or the last such slot points at the main slot by luck. */
  lemma LookupSoundIff(s: Slots, m: map<nat, Rule>, h: nat, k: nat)
    requires WellFormed(s) && Holds(s, m) && h != 0 && MainOf(s, k, h)
    ensures LookupSound(s, m, h) <==> !StaleAfter(s, k, h) || LuckyPointer(s, k, h)
  {
    hide Stores;
    assert CarriesHandle(s[k], h);
    var j := FindHandle(s, h, |s|).value;
    if s[j].inUse {
      FoundInUse(s, m, h, j);
    } else {
      assert s[j].handle == h && j > k;
    }
  }
}
