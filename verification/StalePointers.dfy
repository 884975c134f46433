/** How a leftover fragment pointer comes to name another rule's slot: a run of ordinary requests
    after which clearing an unused handle removes a rule of someone else. */
module StalePointers {
  import opened KeySplit
  import opened TcTable
  import opened RxpConfig
  import opened TcRequests
  import opened Wrappers

  /** What requests can tell of a slot. */
  datatype Look = Look(inUse: bool, handle: nat, isFrag: bool, fragPtr: Option<nat>)

  function LookOf(e: Entry): Look {
    Look(e.inUse, e.handle, e.isFrag, e.fragPtr)
  }

  /** The first three slots look like this, and the others have never been used. */
  predicate FirstThree(s: Slots, a: Look, b: Look, c: Look) {
    && |s| >= 4 && LookOf(s[0]) == a && LookOf(s[1]) == b && LookOf(s[2]) == c
    && PointersInTable(s) && (forall k :: 0 <= k < 3 ==> !s[k].isLast)
    && forall k :: 3 <= k < |s| ==> s[k].handle == 0 && s[k].fragPtr.None?
  }

  const FRESH := Look(false, 0, false, None)

  lemma {:induction false} SameLooks(s: Slots, t: Slots, a: Look, b: Look, c: Look)
    requires FirstThree(s, a, b, c) && SameRules(s, t)
    ensures FirstThree(t, a, b, c)
  {
  }

  /** Like PlainRequest, for a key that is not word-aligned. */
  predicate SplitRequest(kn: Knode, offMax: nat) {
    && CheckedKey(kn, offMax).Some? && CheckedKey(kn, offMax).value.off % 4 != 0
    && Decision(kn.actions).Some?
  }

  lemma {:induction false} PlainTaken(s: Slots, kn: Knode, offMax: nat, k: nat, s': Slots)
    requires offMax <= OFF_MAX_BOUND && PlainRequest(kn, offMax) && FindFree(s) == Some(k)
    requires PointersInTable(s) && Step(s, NewKnode(kn), offMax, Success, s')
    ensures |s'| == |s| && LookOf(s'[k]) == Look(true, kn.handle, s[k].isFrag, None) && s'[k].isLast == s[k].isLast
    ensures PointersInTable(s') && forall j :: 0 <= j < |s| && j != k ==> SameRule(s[j], s'[j])
  {
    AlignedFill(s, kn, offMax, k, s');
  }

  lemma {:induction false} SplitTaken(s: Slots, kn: Knode, offMax: nat, k: nat, f: nat, s': Slots)
    requires offMax <= OFF_MAX_BOUND && SplitRequest(kn, offMax) && PointersInTable(s)
    requires k < f < |s| && !s[k].inUse && !s[f].inUse && forall j :: 0 <= j < f && j != k ==> s[j].inUse
    requires Step(s, NewKnode(kn), offMax, Success, s')
    ensures |s'| == |s| && PointersInTable(s')
    ensures LookOf(s'[k]) == Look(true, kn.handle, s[k].isFrag, Some(f)) && s'[k].isLast == s[k].isLast
    ensures LookOf(s'[f]) == Look(true, kn.handle, true, s[f].fragPtr) && s'[f].isLast == s[f].isLast
    ensures forall j :: 0 <= j < |s| && j != k && j != f ==> SameRule(s[j], s'[j])
  {
    hide CheckedKey, Decision, MainRow, FragRow, PrioField;
    var s1 := s[k := Allot(s[k], kn.handle)];
    FirstFreeIs(s, k);
    FirstFreeIs(s1, f);
    var filled := Fill(s, kn, offMax).0;
    assert SameRule(filled[k], s'[k]) && SameRule(filled[f], s'[f]);
    forall j | 0 <= j < |s| && j != k && j != f
      ensures SameRule(s[j], s'[j])
    {
      assert filled[j] == s[j] && SameRule(filled[j], s'[j]);
    }
  }

  /** Clearing the handle that slot `k` is the last to carry. */
  lemma {:induction false} HandleCleared(s: Slots, h: nat, offMax: nat, k: nat, s': Slots)
    requires offMax <= OFF_MAX_BOUND && PointersInTable(s)
    requires k < |s| && CarriesHandle(s[k], h) && forall j :: k < j < |s| ==> !CarriesHandle(s[j], h)
    requires Step(s, DeleteKnode(h), offMax, Success, s')
    ensures SameRules(Release(s, k), s')
  {
    LastCarrier(s, h, k);
  }

  /** An aligned rule and an unaligned one take the first three slots. */
  lemma {:induction false} ThreeTaken(count: nat, p: Knode, a: Knode, offMax: nat, s1: Slots, s2: Slots)
    requires count >= 4 && offMax <= OFF_MAX_BOUND && PlainRequest(p, offMax) && SplitRequest(a, offMax)
    requires PointersInTable(s1) && PointersInTable(s2)
    requires Step(InitialSlots(count), NewKnode(p), offMax, Success, s1)
    requires Step(s1, NewKnode(a), offMax, Success, s2)
    ensures FirstThree(s2, Look(true, p.handle, false, None), Look(true, a.handle, false, Some(2)),
                       Look(true, a.handle, true, None))
  {
    var s0 := InitialSlots(count);
    hide PlainRequest, SplitRequest, Step, SameRule;
    FirstFreeIs(s0, 0);
    PlainTaken(s0, p, offMax, 0, s1);
    InstalledFirst(s0, p.handle, s1);
    SplitTaken(s1, a, offMax, 1, 2, s2);
    InstalledSplit(s1, a.handle, 1, 2, s2, p.handle);
  }

  /** Once both are deleted, slot 1 keeps its pointer to slot 2. */
  lemma {:induction false} PointerLeft(p: nat, a: nat, offMax: nat, s2: Slots, s3: Slots, s4: Slots)
    requires offMax <= OFF_MAX_BOUND && p != a && p != 0 && a != 0 && PointersInTable(s2) && PointersInTable(s3)
    requires FirstThree(s2, Look(true, p, false, None), Look(true, a, false, Some(2)), Look(true, a, true, None))
    requires Step(s2, DeleteKnode(p), offMax, Success, s3) && Step(s3, DeleteKnode(a), offMax, Success, s4)
    ensures FirstThree(s4, Look(false, p, false, None), Look(false, a, false, Some(2)), Look(false, a, false, None))
  {
    hide Step, SameRule, Release;
    HandleCleared(s2, p, offMax, 0, s3);
    PlainReleased(s2, 0);
    var p', a', f' := Look(false, p, false, None), Look(true, a, false, Some(2)), Look(true, a, true, None);
    SameLooks(Release(s2, 0), s3, p', a', f');
    HandleCleared(s3, a, offMax, 1, s4);
    SplitReleased(s3, 1, 2);
    SameLooks(Release(s3, 1), s4, p', Look(false, a, false, Some(2)), Look(false, a, false, None));
  }

  lemma {:induction false} InstalledFirst(s0: Slots, h: nat, s1: Slots)
    requires |s0| >= 4 && s0 == InitialSlots(|s0|) && |s1| == |s0| && PointersInTable(s1)
    requires LookOf(s1[0]) == Look(true, h, false, None) && !s1[0].isLast
    requires forall j :: 0 <= j < |s0| && j != 0 ==> SameRule(s0[j], s1[j])
    ensures FirstThree(s1, Look(true, h, false, None), FRESH, FRESH)
  {
  }

  lemma {:induction false} InstalledSplit(s: Slots, h: nat, k: nat, f: nat, s': Slots, p: nat)
    requires FirstThree(s, Look(true, p, false, None), FRESH, FRESH) && k == 1 && f == 2
    requires |s'| == |s| && PointersInTable(s') && !s'[1].isLast && !s'[2].isLast
    requires LookOf(s'[1]) == Look(true, h, false, Some(2)) && LookOf(s'[2]) == Look(true, h, true, None)
    requires forall j :: 0 <= j < |s| && j != 1 && j != 2 ==> SameRule(s[j], s'[j])
    ensures FirstThree(s', Look(true, p, false, None), Look(true, h, false, Some(2)), Look(true, h, true, None))
  {
  }

  lemma {:induction false} PlainReleased(s: Slots, k: nat)
    requires PointersInTable(s) && k < |s| && s[k].fragPtr.None?
    ensures Release(s, k) == s[k := Vacate(s[k])] && PointersInTable(Release(s, k))
  {
  }

  lemma {:induction false} SplitReleased(s: Slots, k: nat, f: nat)
    requires PointersInTable(s) && k < |s| && f < |s| && k != f && s[k].fragPtr == Some(f)
    ensures Release(s, k) == s[k := Vacate(s[k])][f := VacateFragment(s[f])] && PointersInTable(Release(s, k))
  {
  }

  predicate Different(a: nat, b: nat, c: nat, d: nat) {
    0 !in {a, b, c, d} && a !in {b, c, d} && b !in {c, d} && c != d
  }

  /** A rule is lost to someone else's handle.  After two rules have been installed and deleted, an
      unaligned rule `d` takes slots 0 and 1 and an aligned rule `e` slot 2; `d` is deleted.  Slot 1,
      once the fragment of `d`, still carries its handle and a pointer to slot 2.  Clearing the
      handle of `d` once more, as a replacement with that handle does first, removes `e`. */
  lemma {:induction false} StalePointerOccurs(count: nat, p: Knode, a: Knode, d: Knode, e: Knode, offMax: nat,
                                              states: seq<Slots>)
    requires count >= 4 && offMax <= OFF_MAX_BOUND && |states| == 8 && states[0] == InitialSlots(count)
    requires PlainRequest(p, offMax) && SplitRequest(a, offMax) && SplitRequest(d, offMax) && PlainRequest(e, offMax)
    requires Different(p.handle, a.handle, d.handle, e.handle)
    requires forall i :: 0 <= i < 8 ==> PointersInTable(states[i])
    requires Step(states[0], NewKnode(p), offMax, Success, states[1])
    requires Step(states[1], NewKnode(a), offMax, Success, states[2])
    requires Step(states[2], DeleteKnode(p.handle), offMax, Success, states[3])
    requires Step(states[3], DeleteKnode(a.handle), offMax, Success, states[4])
    requires Step(states[4], NewKnode(d), offMax, Success, states[5])
    requires Step(states[5], NewKnode(e), offMax, Success, states[6])
    requires Step(states[6], DeleteKnode(d.handle), offMax, Success, states[7])
    ensures MainOf(states[7], 2, e.handle) && StalePointer(states[7], 1, 2)
    ensures forall k: nat :: !MainOf(states[7], k, d.handle)
    ensures forall k: nat :: !MainOf(Unfill(states[7], d.handle), k, e.handle)
  {
    hide PlainRequest, SplitRequest, Step, SameRule, Release;
    var s4, s5, s6, s7 := states[4], states[5], states[6], states[7];
    ThreeTaken(count, p, a, offMax, states[1], states[2]);
    PointerLeft(p.handle, a.handle, offMax, states[2], states[3], s4);
    SplitTaken(s4, d, offMax, 0, 1, s5);
    ReusedAsFragment(s4, s5, p.handle, a.handle, d.handle);
    FirstFreeIs(s5, 2);
    PlainTaken(s5, e, offMax, 2, s6);
    ThirdTaken(s5, s6, a.handle, d.handle, e.handle);
    HandleCleared(s6, d.handle, offMax, 0, s7);
    SplitReleased(s6, 0, 1);
    var d', f' := Look(false, d.handle, false, Some(1)), Look(false, d.handle, false, Some(2));
    var e' := Look(true, e.handle, false, None);
    SameLooks(Release(s6, 0), s7, d', f', e');
    LastCarrier(s7, d.handle, 1);
    SplitReleased(s7, 1, 2);
  }

  lemma {:induction false} ReusedAsFragment(s: Slots, s': Slots, p: nat, a: nat, d: nat)
    requires FirstThree(s, Look(false, p, false, None), Look(false, a, false, Some(2)), Look(false, a, false, None))
    requires |s'| == |s| && PointersInTable(s') && !s'[0].isLast && !s'[1].isLast
    requires LookOf(s'[0]) == Look(true, d, false, Some(1)) && LookOf(s'[1]) == Look(true, d, true, Some(2))
    requires forall j :: 0 <= j < |s| && j != 0 && j != 1 ==> SameRule(s[j], s'[j])
    ensures FirstThree(s', Look(true, d, false, Some(1)), Look(true, d, true, Some(2)), Look(false, a, false, None))
  {
  }

  lemma {:induction false} ThirdTaken(s: Slots, s': Slots, a: nat, d: nat, e: nat)
    requires FirstThree(s, Look(true, d, false, Some(1)), Look(true, d, true, Some(2)), Look(false, a, false, None))
    requires |s'| == |s| && PointersInTable(s') && !s'[2].isLast
    requires LookOf(s'[2]) == Look(true, e, false, None)
    requires forall j :: 0 <= j < |s| && j != 2 ==> SameRule(s[j], s'[j])
    ensures FirstThree(s', Look(true, d, false, Some(1)), Look(true, d, true, Some(2)), Look(true, e, false, None))
  {
  }
}
