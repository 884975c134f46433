/** Requests to the rule table as steps of a state machine, and what every run of them keeps. */
module TcRequests {
  import opened KeySplit
  import opened TcTable
  import opened RxpConfig
  import opened Wrappers

  datatype Request = NewKnode(kn: Knode) | ReplaceKnode(kn: Knode) | DeleteKnode(handle: nat)

  /** Invalid: refused before anything is loaded.  LoadFailed: the hardware timed out. */
  datatype Status = Success | Invalid | LoadFailed

  type Rules = map<nat, Rule>

  // ----- the steps -----

  /** tc_config_knode: fill, load, and clear again if the load fails. */
  ghost predicate ConfigStep(s: Slots, kn: Knode, offMax: nat, status: Status, s': Slots)
    requires offMax <= OFF_MAX_BOUND
  {
    var (filled, ok) := Fill(s, kn, offMax);
    match status
    case Invalid => !ok && s' == filled
    case Success => ok && SameRules(filled, s')
    case LoadFailed => ok && exists t :: SameRules(filled, t) && PointersInTable(t) && s' == Unfill(t, kn.handle)
  }

  /** tc_setup_cls_u32 */
  ghost predicate Step(s: Slots, req: Request, offMax: nat, status: Status, s': Slots)
    requires PointersInTable(s) && offMax <= OFF_MAX_BOUND
  {
    match req
    case NewKnode(kn) => ConfigStep(s, kn, offMax, status, s')
    case ReplaceKnode(kn) => ConfigStep(Unfill(s, kn.handle), kn, offMax, status, s')
    case DeleteKnode(h) => status != Invalid && SameRules(Unfill(s, h), s')
  }

  /** The rules that should be installed after a request. */
  function RulesAfter(m: Rules, req: Request, offMax: nat, status: Status): Rules {
    match req
    case NewKnode(kn) => ConfiguredRules(m, kn, offMax, status)
    case ReplaceKnode(kn) => ConfiguredRules(m - {kn.handle}, kn, offMax, status)
    case DeleteKnode(h) => m - {h}
  }

  function ConfiguredRules(m: Rules, kn: Knode, offMax: nat, status: Status): Rules {
    if status == Success && CheckedKey(kn, offMax).Some? && Decision(kn.actions).Some?
    then m[kn.handle := RuleOf(kn, offMax)] else m
  }

  // ----- when a step is safe -----

  /** A new rule has a new, nonzero handle. */
  predicate NewHandle(m: Rules, kn: Knode) {
    kn.handle != 0 && kn.handle !in m
  }

  /** Clearing finds the entry just filled. */
  predicate RollbackSound(s: Slots, m: Rules, kn: Knode, offMax: nat)
    requires offMax <= OFF_MAX_BOUND
  {
    var (filled, ok) := Fill(s, kn, offMax);
    ok && PointersInTable(filled) && CheckedKey(kn, offMax).Some? && Decision(kn.actions).Some?
    ==> LookupSound(filled, m[kn.handle := RuleOf(kn, offMax)], kn.handle)
  }

  /** Filling must not spoil the table, and clearing after a failed load must find the entry. */
  predicate ConfigSound(s: Slots, m: Rules, kn: Knode, offMax: nat, status: Status)
    requires offMax <= OFF_MAX_BOUND
  {
    match status
    case Invalid => !SpoilsTable(s, kn, offMax)
    case Success => true
    case LoadFailed => RollbackSound(s, m, kn, offMax)
  }

  /** The look-up that a request starts with is sound, and a new rule has a new handle. */
  predicate Ready(s: Slots, m: Rules, req: Request)
    requires PointersInTable(s)
  {
    match req
    case NewKnode(kn) => NewHandle(m, kn)
    case ReplaceKnode(kn) => kn.handle != 0 && LookupSound(s, m, kn.handle)
    case DeleteKnode(h) => h != 0
  }

  /** What the outcome of a request demands of the table. */
  predicate Sound(s: Slots, m: Rules, req: Request, offMax: nat, status: Status)
    requires PointersInTable(s) && offMax <= OFF_MAX_BOUND
  {
    match req
    case NewKnode(kn) => ConfigSound(s, m, kn, offMax, status)
    case ReplaceKnode(kn) => ConfigSound(Unfill(s, kn.handle), m - {kn.handle}, kn, offMax, status)
    case DeleteKnode(h) => LookupSound(s, m, h)
  }

  ghost predicate Refines(s: Slots, m: Rules) {
    WellFormed(s) && Holds(s, m) && 0 !in m
  }

  /** Loading moves no handle and no pointer, so it does not change what a look-up finds. */
  lemma {:induction false} FindHandleSame(s: Slots, t: Slots, h: nat, n: nat)
    requires SameRules(s, t) && n <= |s|
    ensures FindHandle(s, h, n) == FindHandle(t, h, n)
  {
    if n > 0 {
      FindHandleSame(s, t, h, n - 1);
    }
  }

  lemma SameRulesSymmetric(s: Slots, t: Slots)
    requires SameRules(s, t)
    ensures SameRules(t, s)
  {
  }

  lemma LookupSame(s: Slots, t: Slots, m: Rules, h: nat)
    requires SameRules(s, t) && PointersInTable(s) && PointersInTable(t)
    ensures LookupSound(s, m, h) <==> LookupSound(t, m, h)
  {
    FindHandleSame(s, t, h, |s|);
  }

  lemma RefinesSame(s: Slots, t: Slots, m: Rules)
    requires SameRules(s, t)
    ensures Refines(s, m) <==> Refines(t, m)
  {
    SameRulesSymmetric(s, t);
    hide SameRule, SameRules, WellFormed, Holds;
    if Refines(s, m) {
      SameRulesHold(s, m, t);
    }
    if Refines(t, m) {
      SameRulesHold(t, m, s);
    }
  }

  /** A request for a new rule, whatever its outcome: the slots go on refining the map of rules, with
      the new one only on success, exactly if the outcome is sound. */
  lemma ConfigStepKeeps(s: Slots, m: Rules, kn: Knode, offMax: nat, status: Status, s': Slots)
    requires Refines(s, m) && offMax <= OFF_MAX_BOUND && NewHandle(m, kn)
    requires ConfigStep(s, kn, offMax, status, s')
    ensures Refines(s', ConfiguredRules(m, kn, offMax, status)) <==> ConfigSound(s, m, kn, offMax, status)
  {
    hide Fill, Stores, CheckedKey, Decision, SpoilsTable, WellFormed, Holds, Unfill, SameRule, SameRules, LookupSound;
    var (filled, ok) := Fill(s, kn, offMax);
    FillCorrect(s, m, kn, offMax);
    if status != Invalid {
      var m' := m[kn.handle := RuleOf(kn, offMax)];
      assert WellFormed(filled) by { TakenNeverSpoils(s, kn, offMax); }
      if status == Success {
        RefinesSame(filled, s', m');
      } else {
        var t :| SameRules(filled, t) && PointersInTable(t) && s' == Unfill(t, kn.handle);
        RefinesSame(filled, t, m');
        LookupSame(filled, t, m', kn.handle);
        UnfillCorrectIffSound(t, m', kn.handle);
        assert m' - {kn.handle} == m;
        assert PointersInTable(filled) by { WellFormedPointers(filled); }
      }
    }
  }

  lemma WellFormedPointers(s: Slots)
    requires WellFormed(s)
    ensures PointersInTable(s)
  {
  }

  lemma TakenNeverSpoils(s: Slots, kn: Knode, offMax: nat)
    requires offMax <= OFF_MAX_BOUND && Decision(kn.actions).Some?
    ensures !SpoilsTable(s, kn, offMax)
  {
  }

  /** Every request, new, replacing or deleting, whatever its outcome: the slots go on refining the
      map from handles to rules exactly if the outcome is sound.  A refused request and a failed
      load leave the map as it was (without the old rule, for a replacement). */
  lemma StepKeeps(s: Slots, m: Rules, req: Request, offMax: nat, status: Status, s': Slots)
    requires Refines(s, m) && offMax <= OFF_MAX_BOUND && Ready(s, m, req)
    requires Step(s, req, offMax, status, s')
    ensures Refines(s', RulesAfter(m, req, offMax, status)) <==> Sound(s, m, req, offMax, status)
  {
    hide Fill, Stores, CheckedKey, Decision, SpoilsTable, Unfill;
    hide SameRule, SameRules, LookupSound, ConfigStep, ConfigSound;
    hide Holds;
    match req {
      case NewKnode(kn) =>
        ConfigStepKeeps(s, m, kn, offMax, status, s');
      case ReplaceKnode(kn) =>
        UnfillCorrectIffSound(s, m, kn.handle);
        ConfigStepKeeps(Unfill(s, kn.handle), m - {kn.handle}, kn, offMax, status, s');
      case DeleteKnode(h) =>
        UnfillCorrectIffSound(s, m, h);
        RefinesSame(Unfill(s, h), s', m - {h});
    }
  }

  // ----- runs -----

  /** What a caller can do to keep every request safe: new handles for new rules, deletion only
      of installed rules, and no request whose action is refused after its key has been split. */
  predicate Disciplined(req: Request, m: Rules, used: set<nat>, offMax: nat) {
    match req
    case NewKnode(kn) => kn.handle != 0 && kn.handle !in used && NeverSpoils(kn, offMax)
    case ReplaceKnode(kn) => kn.handle != 0 && kn.handle !in used && NeverSpoils(kn, offMax)
    case DeleteKnode(h) => h in m
  }

  predicate NeverSpoils(kn: Knode, offMax: nat) {
    var key := CheckedKey(kn, offMax);
    key.None? || key.value.off % 4 == 0 || Decision(kn.actions).Some?
  }

  function HandleOf(req: Request): nat {
    match req
    case NewKnode(kn) => kn.handle
    case ReplaceKnode(kn) => kn.handle
    case DeleteKnode(h) => h
  }

  /** Every slot's handle has been used before, no free slot carries the handle of an installed
      rule, and a fragment carries its owner's handle. */
  ghost predicate Tracked(s: Slots, m: Rules, used: set<nat>) {
    && m.Keys <= used
    && (forall k :: 0 <= k < |s| ==> s[k].handle == 0 || s[k].handle in used)
    && (forall k :: 0 <= k < |s| && !s[k].inUse ==> s[k].handle !in m)
    && (forall k: nat, f: nat :: Owns(s, k, f) && f < |s| ==> s[f].handle == s[k].handle)
  }

  datatype Event = Event(req: Request, status: Status)

  /** A disciplined run from `s`, through `states`. */
  ghost predicate IsRun(s: Slots, m: Rules, used: set<nat>, offMax: nat, events: seq<Event>, states: seq<Slots>)
    requires offMax <= OFF_MAX_BOUND
    decreases |events|
  {
    |states| == |events| &&
    (events == [] ||
     (var e := events[0];
      && PointersInTable(s)
      && Disciplined(e.req, m, used, offMax)
      && Step(s, e.req, offMax, e.status, states[0])
      && IsRun(states[0], RulesAfter(m, e.req, offMax, e.status), used + {HandleOf(e.req)}, offMax, events[1..],
          states[1..])))
  }

  /** The rules that the requests of a run, with their outcomes, should leave installed. */
  function RulesAfterAll(m: Rules, offMax: nat, events: seq<Event>): Rules
    decreases |events|
  {
    if events == [] then m
    else RulesAfterAll(RulesAfter(m, events[0].req, offMax, events[0].status), offMax, events[1..])
  }

  // ----- proofs about runs -----

  /** Filling touches only free slots, and gives them the new handle. */
  lemma FillTouches(s: Slots, kn: Knode, offMax: nat)
    requires offMax <= OFF_MAX_BOUND
    ensures var (s', ok) := Fill(s, kn, offMax);
            && |s'| == |s|
            && forall j :: 0 <= j < |s| && s'[j] != s[j] ==>
                 !s[j].inUse && s'[j].handle == kn.handle && (ok <==> s'[j].inUse)
  {
  }

  lemma {:induction false} NotCarried(s: Slots, h: nat)
    requires forall k :: 0 <= k < |s| ==> s[k].handle != h
    ensures FindHandle(s, h, |s|).None?
  {
  }

  /** A request with a new handle finds nothing before it is filled and itself afterwards. */
  lemma {:induction false} NewHandleSafe(s: Slots, m: Rules, used: set<nat>, kn: Knode, offMax: nat)
    requires Refines(s, m) && Tracked(s, m, used) && offMax <= OFF_MAX_BOUND
    requires kn.handle != 0 && kn.handle !in used && NeverSpoils(kn, offMax)
    ensures FindHandle(s, kn.handle, |s|).None? && Unfill(s, kn.handle) == s && m - {kn.handle} == m
    ensures NewHandle(m, kn) && !SpoilsTable(s, kn, offMax) && RollbackSound(s, m, kn, offMax)
  {
    NotCarried(s, kn.handle);
    FillTouches(s, kn, offMax);
    hide Fill, Decision, CheckedKey, WellFormed, Holds;
  }

  lemma {:induction false} InstalledFound(s: Slots, m: Rules, used: set<nat>, h: nat)
    requires Refines(s, m) && Tracked(s, m, used) && h in m
    ensures LookupSound(s, m, h) && FindHandle(s, h, |s|).Some? && MainOf(s, FindHandle(s, h, |s|).value, h)
  {
    hide Stores;
    var k: nat :| MainOf(s, k, h);
    assert CarriesHandle(s[k], h);
  }

  lemma TrackedSame(s: Slots, t: Slots, m: Rules, used: set<nat>)
    requires Tracked(s, m, used) && SameRules(s, t)
    ensures Tracked(t, m, used)
  {
    forall k: nat, f: nat | Owns(t, k, f) && f < |t|
      ensures t[f].handle == t[k].handle
    {
      assert Owns(s, k, f);
    }
  }

  lemma TrackedRelease(s: Slots, m: Rules, used: set<nat>, k: nat, h: nat)
    requires WellFormed(s) && Tracked(s, m, used) && MainOf(s, k, h)
    ensures Tracked(Release(s, k), m - {h}, used)
  {
    var s' := Release(s, k);
    assert s[k].fragPtr.Some? ==> Owns(s, k, s[k].fragPtr.value);
    forall j: nat, f: nat | Owns(s', j, f) && f < |s'|
      ensures s'[f].handle == s'[j].handle
    {
      assert Owns(s, j, f);
    }
  }

  lemma TrackedFill(s: Slots, m: Rules, used: set<nat>, kn: Knode, offMax: nat)
    requires Refines(s, m) && Tracked(s, m, used) && offMax <= OFF_MAX_BOUND
    requires kn.handle != 0 && kn.handle !in used && NeverSpoils(kn, offMax)
    ensures var (s', ok) := Fill(s, kn, offMax);
            Tracked(s', if ok && CheckedKey(kn, offMax).Some? && Decision(kn.actions).Some?
                        then m[kn.handle := RuleOf(kn, offMax)] else m, used + {kn.handle})
  {
    FillTouches(s, kn, offMax);
    FillOwns(s, kn, offMax);
    hide Fill, CheckedKey, Decision;
    var (s', ok) := Fill(s, kn, offMax);
    forall k: nat, f: nat | Owns(s', k, f) && f < |s'|
      ensures s'[f].handle == s'[k].handle
    {
    }
  }

  lemma FillOwns(s: Slots, kn: Knode, offMax: nat)
    requires offMax <= OFF_MAX_BOUND
    ensures var (s', ok) := Fill(s, kn, offMax);
            forall k: nat, f: nat :: Owns(s', k, f) && f < |s'| ==>
              Owns(s, k, f) || (s'[k].handle == kn.handle && s'[f].handle == kn.handle)
  {
  }

  lemma TrackedConfig(s: Slots, m: Rules, used: set<nat>, kn: Knode, offMax: nat, status: Status, s': Slots)
    requires Refines(s, m) && Tracked(s, m, used) && offMax <= OFF_MAX_BOUND
    requires kn.handle != 0 && kn.handle !in used && NeverSpoils(kn, offMax)
    requires ConfigStep(s, kn, offMax, status, s')
    ensures Tracked(s', ConfiguredRules(m, kn, offMax, status), used + {kn.handle})
  {
    hide Fill, CheckedKey, Decision, Tracked, WellFormed, Holds;
    hide Unfill, SameRules, SpoilsTable, LookupSound, NeverSpoils, RuleOf;
    var (filled, ok) := Fill(s, kn, offMax);
    var used' := used + {kn.handle};
    TrackedFresh(s, m, used, kn, offMax);
    TrackedFill(s, m, used, kn, offMax);
    FillCorrect(s, m, kn, offMax);
    if status == Success {
      TrackedSame(filled, s', m[kn.handle := RuleOf(kn, offMax)], used');
    } else if status == LoadFailed {
      var m' := m[kn.handle := RuleOf(kn, offMax)];
      var t :| SameRules(filled, t) && PointersInTable(t) && s' == Unfill(t, kn.handle);
      SameRulesHold(filled, m', t);
      TrackedSame(filled, t, m', used');
      TrackedUnfill(t, m', used', kn.handle);
      assert m' - {kn.handle} == m;
    }
  }

  lemma TrackedFresh(s: Slots, m: Rules, used: set<nat>, kn: Knode, offMax: nat)
    requires Refines(s, m) && Tracked(s, m, used) && offMax <= OFF_MAX_BOUND
    requires kn.handle !in used && NeverSpoils(kn, offMax)
    ensures kn.handle !in m && !SpoilsTable(s, kn, offMax)
  {
  }

  lemma TrackedUnfill(s: Slots, m: Rules, used: set<nat>, h: nat)
    requires Refines(s, m) && Tracked(s, m, used) && h in m
    ensures Tracked(Unfill(s, h), m - {h}, used)
  {
    InstalledFound(s, m, used, h);
    TrackedRelease(s, m, used, FindHandle(s, h, |s|).value, h);
  }

  /** A disciplined request is ready, and every outcome of it is sound. */
  lemma DisciplinedSafe(s: Slots, m: Rules, used: set<nat>, req: Request, offMax: nat)
    requires Refines(s, m) && Tracked(s, m, used) && offMax <= OFF_MAX_BOUND && Disciplined(req, m, used, offMax)
    ensures Ready(s, m, req) && forall status :: Sound(s, m, req, offMax, status)
    ensures req.DeleteKnode? ==> req.handle in used && LookupSound(s, m, req.handle)
    ensures req.ReplaceKnode? ==> req.kn.handle !in m && Unfill(s, req.kn.handle) == s && m - {req.kn.handle} == m
  {
    hide Fill, CheckedKey, Decision, Holds, Unfill, NeverSpoils, RollbackSound, LookupSound, SpoilsTable;
    match req {
      case NewKnode(kn) =>
        NewHandleSafe(s, m, used, kn, offMax);
      case ReplaceKnode(kn) =>
        NewHandleSafe(s, m, used, kn, offMax);
        NothingFoundSound(s, m, kn.handle);
      case DeleteKnode(h) =>
        InstalledFound(s, m, used, h);
    }
  }

  /** After a disciplined request the slots stay tracked. */
  lemma DisciplinedStep(s: Slots, m: Rules, used: set<nat>, req: Request, offMax: nat, status: Status, s': Slots)
    requires Refines(s, m) && Tracked(s, m, used) && offMax <= OFF_MAX_BOUND
    requires Disciplined(req, m, used, offMax) && Step(s, req, offMax, status, s')
    ensures Tracked(s', RulesAfter(m, req, offMax, status), used + {HandleOf(req)})
  {
    hide Fill, CheckedKey, Decision, Tracked, Holds, Unfill;
    hide SameRules, NeverSpoils, ConfigStep, ConfigSound, LookupSound;
    DisciplinedSafe(s, m, used, req, offMax);
    match req {
      case NewKnode(kn) =>
        TrackedConfig(s, m, used, kn, offMax, status, s');
      case ReplaceKnode(kn) =>
        TrackedConfig(s, m, used, kn, offMax, status, s');
      case DeleteKnode(h) =>
        TrackedUnfill(s, m, used, h);
        TrackedSame(Unfill(s, h), s', m - {h}, used);
        assert used + {h} == used;
    }
  }

  lemma {:induction false} NothingFoundSound(s: Slots, m: Rules, h: nat)
    requires PointersInTable(s) && FindHandle(s, h, |s|).None?
    ensures LookupSound(s, m, h)
  {
  }

  /** Over every disciplined run, with any pattern of refusals and failed loads, the slots
      refine exactly the rules its outcomes say should be installed. */
  lemma {:induction false} RunRefines(s: Slots, m: Rules, used: set<nat>, offMax: nat, events: seq<Event>,
                                      states: seq<Slots>)
    requires Refines(s, m) && Tracked(s, m, used) && offMax <= OFF_MAX_BOUND
    requires IsRun(s, m, used, offMax, events, states)
    ensures Refines(if states == [] then s else states[|states| - 1], RulesAfterAll(m, offMax, events))
    decreases |events|
  {
    if events != [] {
      var e := events[0];
      hide Refines, Tracked, Step, Disciplined, Ready, Sound;
      DisciplinedSafe(s, m, used, e.req, offMax);
      DisciplinedStep(s, m, used, e.req, offMax, e.status, states[0]);
      StepKeeps(s, m, e.req, offMax, e.status, states[0]);
      RunRefines(states[0], RulesAfter(m, e.req, offMax, e.status), used + {HandleOf(e.req)}, offMax, events[1..],
          states[1..]);
    }
  }

  /** A run from `s`, through `states`, of requests that are ready and whose outcomes are sound;
      replacements may concern installed rules. */
  ghost predicate IsSoundRun(s: Slots, m: Rules, offMax: nat, events: seq<Event>, states: seq<Slots>)
    requires offMax <= OFF_MAX_BOUND
    decreases |events|
  {
    |states| == |events| &&
    (events == [] ||
     (var e := events[0];
      && PointersInTable(s)
      && Ready(s, m, e.req) && Sound(s, m, e.req, offMax, e.status)
      && Step(s, e.req, offMax, e.status, states[0])
      && IsSoundRun(states[0], RulesAfter(m, e.req, offMax, e.status), offMax, events[1..], states[1..])))
  }

  lemma {:induction false} SoundRunHead(s: Slots, m: Rules, offMax: nat, events: seq<Event>, states: seq<Slots>)
    requires Refines(s, m) && offMax <= OFF_MAX_BOUND && IsSoundRun(s, m, offMax, events, states) && events != []
    ensures |states| == |events|
    ensures var m' := RulesAfter(m, events[0].req, offMax, events[0].status);
            && Refines(states[0], m') && IsSoundRun(states[0], m', offMax, events[1..], states[1..])
            && RulesAfterAll(m, offMax, events) == RulesAfterAll(m', offMax, events[1..])
  {
    hide Ready, Sound, Step, RulesAfter, Refines;
    StepKeeps(s, m, events[0].req, offMax, events[0].status, states[0]);
  }

  /** Over every such run, too, the slots refine the rules that should be installed. */
  lemma {:induction false} SoundRunRefines(s: Slots, m: Rules, offMax: nat, events: seq<Event>, states: seq<Slots>)
    requires Refines(s, m) && offMax <= OFF_MAX_BOUND && IsSoundRun(s, m, offMax, events, states)
    ensures Refines(if states == [] then s else states[|states| - 1], RulesAfterAll(m, offMax, events))
    decreases |events|
  {
    hide Refines, RulesAfter, Ready, Sound, Step, PointersInTable;
    if events != [] {
      SoundRunHead(s, m, offMax, events, states);
      var e := events[0];
      SoundRunRefines(states[0], RulesAfter(m, e.req, offMax, e.status), offMax, events[1..], states[1..]);
    }
  }

  /** Every run starts like this. */
  lemma InitialRefines(count: nat)
    requires count > 0
    ensures Refines(InitialSlots(count), map[]) && Tracked(InitialSlots(count), map[], {})
  {
    InitialTable(count);
    var s := InitialSlots(count);
    assert forall k :: 0 <= k < |s| ==> s[k].handle == 0;
    assert forall k: nat, f: nat :: !Owns(s, k, f);
  }

  // ----- how a look-up goes wrong -----

  /** `t` has at `k` an aligned main entry of `h`, and elsewhere the entries of `s`, as far as
      requests can tell. */
  predicate AlignedAt(s: Slots, t: Slots, k: nat, h: nat) {
    && |t| == |s| && k < |s|
    && t[k].inUse && t[k].handle == h && t[k].fragPtr.None?
    && t[k].isFrag == s[k].isFrag && t[k].isLast == s[k].isLast
    && forall j :: 0 <= j < |s| && j != k ==> SameRule(s[j], t[j])
  }

  lemma {:induction false} AlignedFill(s: Slots, kn: Knode, offMax: nat, k: nat, s': Slots)
    requires offMax <= OFF_MAX_BOUND && PlainRequest(kn, offMax) && FindFree(s) == Some(k)
    requires ConfigStep(s, kn, offMax, Success, s')
    ensures AlignedAt(s, s', k, kn.handle)
  {
    hide CheckedKey, Decision, MainRow, PrioField;
    var filled := Fill(s, kn, offMax).0;
    assert SameRule(filled[k], s'[k]);
    forall j | 0 <= j < |s| && j != k
      ensures SameRule(s[j], s'[j])
    {
      assert filled[j] == s[j] && SameRule(filled[j], s'[j]);
    }
  }

  /** After a successful replacement the handle can be looked up again exactly if no free slot after
      the rule's new main slot still carries it, or the last such slot points there by luck. */
  lemma ReplacedLookupIff(s: Slots, m: Rules, kn: Knode, offMax: nat, s': Slots) returns (k: nat)
    requires Refines(s, m) && offMax <= OFF_MAX_BOUND && kn.handle in m && Ready(s, m, ReplaceKnode(kn))
    requires Step(s, ReplaceKnode(kn), offMax, Success, s')
    ensures kn.handle in RulesAfter(m, ReplaceKnode(kn), offMax, Success) && MainOf(s', k, kn.handle)
            && PointersInTable(s')
    ensures LookupSound(s', RulesAfter(m, ReplaceKnode(kn), offMax, Success), kn.handle)
            <==> !StaleAfter(s', k, kn.handle) || LuckyPointer(s', k, kn.handle)
  {
    var m' := RulesAfter(m, ReplaceKnode(kn), offMax, Success);
    hide Stores, CheckedKey, Decision, SameRules, LookupSound, StaleAfter, LuckyPointer, WellFormed;
    StepKeeps(s, m, ReplaceKnode(kn), offMax, Success, s');
    assert kn.handle in m' by {
      WellFormedPointers(s);
      UnfillCorrectIffSound(s, m, kn.handle);
      FillCorrect(Unfill(s, kn.handle), m - {kn.handle}, kn, offMax);
    }
    k :| MainOf(s', k, kn.handle);
    WellFormedPointers(s');
    LookupSoundIff(s', m', kn.handle, k);
  }

  /** A run of successful requests that makes a look-up unsound: two new aligned rules, the deletion
      of the first, and the replacement of the second.  The replacement moves to the first slot, and
      the second, now free, still carries the handle. */
  lemma StaleHandleOccurs(count: nat, ka: Knode, kb: Knode, kc: Knode, offMax: nat,
                          s1: Slots, s2: Slots, s3: Slots, s4: Slots)
    requires count >= 3 && offMax <= OFF_MAX_BOUND
    requires PlainRequest(ka, offMax) && PlainRequest(kb, offMax) && PlainRequest(kc, offMax)
    requires kb.handle == kc.handle && ka.handle != kb.handle && ka.handle != 0 && kb.handle != 0
    requires PointersInTable(s1) && PointersInTable(s2) && PointersInTable(s3)
    requires Step(InitialSlots(count), NewKnode(ka), offMax, Success, s1)
    requires Step(s1, NewKnode(kb), offMax, Success, s2)
    requires Step(s2, DeleteKnode(ka.handle), offMax, Success, s3)
    requires Step(s3, ReplaceKnode(kc), offMax, Success, s4)
    ensures Refines(s4, map[kc.handle := RuleOf(kc, offMax)])
    ensures !LookupSound(s4, map[kc.handle := RuleOf(kc, offMax)], kc.handle)
    ensures Unfill(s4, kc.handle) == s4
  {
    hide CheckedKey, Decision, ConfigStep, WellFormed, Holds, LookupSound, Unfill;
    var a, b := ka.handle, kb.handle;
    TwoInstalled(count, ka, kb, offMax, s1, s2);
    var m2 := map[a := RuleOf(ka, offMax), b := RuleOf(kb, offMax)];
    FirstReleased(s2, m2, a, b);
    RefinesSame(Unfill(s2, a), s3, m2 - {a});
    SecondReleased(s3, m2 - {a}, b);
    var u := Unfill(s3, b);
    AlignedFill(u, kc, offMax, 0, s4);
    StepKeeps(s3, m2 - {a}, ReplaceKnode(kc), offMax, Success, s4);
    assert RulesAfter(m2 - {a}, ReplaceKnode(kc), offMax, Success) == map[b := RuleOf(kc, offMax)];
    LastCarrier(s4, b, 1);
    StaleUnsound(s4, map[b := RuleOf(kc, offMax)], b, 1);
  }

  /** The first two slots hold aligned main entries of `a` (unless it is gone) and `b`; no other slot
      carries a nonzero handle. */
  predicate FirstTwo(s: Slots, a: nat, b: nat, gone: bool) {
    && |s| >= 3 && s[0].inUse == !gone && s[0].handle == a && s[1].inUse && s[1].handle == b
    && (forall k :: 0 <= k < 2 ==> !s[k].isFrag && !s[k].isLast && s[k].fragPtr.None?)
    && forall k :: 2 <= k < |s| ==> s[k].handle == 0
  }

  lemma TwoInstalled(count: nat, ka: Knode, kb: Knode, offMax: nat, s1: Slots, s2: Slots)
    requires count >= 3 && offMax <= OFF_MAX_BOUND && PlainRequest(ka, offMax) && PlainRequest(kb, offMax)
    requires ka.handle != kb.handle && ka.handle != 0 && kb.handle != 0
    requires PointersInTable(s1)
    requires Step(InitialSlots(count), NewKnode(ka), offMax, Success, s1)
    requires Step(s1, NewKnode(kb), offMax, Success, s2)
    ensures Refines(s2, map[ka.handle := RuleOf(ka, offMax), kb.handle := RuleOf(kb, offMax)])
    ensures FirstTwo(s2, ka.handle, kb.handle, false)
  {
    hide CheckedKey, Decision, ConfigStep, WellFormed, Holds, LookupSound, Unfill;
    var s0 := InitialSlots(count);
    InitialRefines(count);
    assert FindFree(s0) == Some(0);
    AlignedFill(s0, ka, offMax, 0, s1);
    StepKeeps(s0, map[], NewKnode(ka), offMax, Success, s1);
    SecondFree(s1);
    AlignedFill(s1, kb, offMax, 1, s2);
    var m1 := map[ka.handle := RuleOf(ka, offMax)];
    assert m1 == RulesAfter(map[], NewKnode(ka), offMax, Success);
    StepKeeps(s1, m1, NewKnode(kb), offMax, Success, s2);
  }

  lemma FirstReleased(s: Slots, m: Rules, a: nat, b: nat)
    requires Refines(s, m) && FirstTwo(s, a, b, false) && a != b && a != 0
    ensures Unfill(s, a) == s[0 := Vacate(s[0])] && Refines(Unfill(s, a), m - {a})
  {
    WellFormedPointers(s);
    hide Holds, WellFormed;
    LastCarrier(s, a, 0);
    FoundSound(s, m, a, 0);
    UnfillCorrectIffSound(s, m, a);
  }

  lemma SecondReleased(s: Slots, m: Rules, b: nat)
    requires |s| >= 3 && FirstTwo(s, s[0].handle, b, true) && b != 0
    requires PointersInTable(s)
    ensures Unfill(s, b) == s[1 := Vacate(s[1])] && LookupSound(s, m, b) && FindFree(Unfill(s, b)) == Some(0)
  {
    LastCarrier(s, b, 1);
    FoundSound(s, m, b, 1);
  }

  // ----- filling the table -----

  /** Aligned requests with distinct, nonzero handles. */
  predicate AlignedRequests(kns: seq<Knode>, offMax: nat) {
    && (forall i :: 0 <= i < |kns| ==> PlainRequest(kns[i], offMax) && kns[i].handle != 0)
    && forall i, j :: 0 <= i < j < |kns| ==> kns[i].handle != kns[j].handle
  }

  /** Successful requests, one after the other, from the initial table. */
  ghost predicate InstallRun(count: nat, kns: seq<Knode>, offMax: nat, states: seq<Slots>)
    requires count > 0 && offMax <= OFF_MAX_BOUND
  {
    && |states| == |kns| + 1 && states[0] == InitialSlots(count)
    && forall i :: 0 <= i < |kns| ==>
         PointersInTable(states[i]) && Step(states[i], NewKnode(kns[i]), offMax, Success, states[i + 1])
  }

  /** The handles of the first `n` requests. */
  function HandlesOf(kns: seq<Knode>, n: nat): set<nat>
    requires n <= |kns|
  {
    set i | 0 <= i < n :: kns[i].handle
  }

  lemma HandlesGrow(kns: seq<Knode>, offMax: nat, n: nat)
    requires AlignedRequests(kns, offMax) && n < |kns|
    ensures PlainRequest(kns[n], offMax) && kns[n].handle != 0 && kns[n].handle !in HandlesOf(kns, n)
    ensures HandlesOf(kns, n + 1) == HandlesOf(kns, n) + {kns[n].handle}
  {
    hide PlainRequest;
  }

  lemma InstallStep(count: nat, kns: seq<Knode>, offMax: nat, states: seq<Slots>, n: nat)
    requires count > 0 && offMax <= OFF_MAX_BOUND && InstallRun(count, kns, offMax, states) && n < |kns|
    ensures PointersInTable(states[n]) && Step(states[n], NewKnode(kns[n]), offMax, Success, states[n + 1])
  {
    hide PointersInTable, Step;
  }

  /** Each of these requests takes the next slot. */
  lemma {:induction false} InstallFills(count: nat, kns: seq<Knode>, offMax: nat, states: seq<Slots>, n: nat)
    returns (m: Rules)
    requires count > 0 && offMax <= OFF_MAX_BOUND && n <= |kns| < count
    requires AlignedRequests(kns, offMax) && InstallRun(count, kns, offMax, states)
    ensures |states[n]| == count && forall k :: 0 <= k < count - 1 ==> states[n][k].inUse == (k < n)
    ensures Refines(states[n], m) && m.Keys == HandlesOf(kns, n)
    decreases n
  {
    hide AlignedRequests, Refines, Step, PointersInTable, PlainRequest;
    if n == 0 {
      InitialRefines(count);
      m := map[];
    } else {
      var before := InstallFills(count, kns, offMax, states, n - 1);
      HandlesGrow(kns, offMax, n - 1);
      InstallStep(count, kns, offMax, states, n - 1);
      hide InstallRun, HandlesOf;
      m := NextInstalled(states[n - 1], before, kns[n - 1], offMax, states[n], n - 1);
    }
  }

  lemma NextInstalled(s: Slots, m: Rules, kn: Knode, offMax: nat, s': Slots, n: nat) returns (m': Rules)
    requires Refines(s, m) && offMax <= OFF_MAX_BOUND && PlainRequest(kn, offMax) && NewHandle(m, kn)
    requires n < |s| - 1 && forall k :: 0 <= k < |s| - 1 ==> s[k].inUse == (k < n)
    requires Step(s, NewKnode(kn), offMax, Success, s')
    ensures |s'| == |s| && forall k :: 0 <= k < |s| - 1 ==> s'[k].inUse == (k < n + 1)
    ensures Refines(s', m') && m'.Keys == m.Keys + {kn.handle}
  {
    FirstFreeIs(s, n);
    AlignedFill(s, kn, offMax, n, s');
    StepKeeps(s, m, NewKnode(kn), offMax, Success, s');
    m' := RulesAfter(m, NewKnode(kn), offMax, Success);
  }

  lemma {:induction false} SecondFree(s: Slots)
    requires |s| >= 2 && s[0].inUse && !s[1].inUse
    ensures FindFree(s) == Some(1)
  {
    assert FindFree(s, 1) == Some(1);
  }

  lemma {:induction false} LastCarrier(s: Slots, h: nat, k: nat)
    requires k < |s| && CarriesHandle(s[k], h) && forall j :: k < j < |s| ==> !CarriesHandle(s[j], h)
    ensures FindHandle(s, h, |s|) == Some(k)
  {
  }

  lemma {:induction false} FoundSound(s: Slots, m: Rules, h: nat, k: nat)
    requires PointersInTable(s) && FindHandle(s, h, |s|) == Some(k) && s[k].inUse
    ensures LookupSound(s, m, h)
  {
  }

  lemma {:induction false} StaleUnsound(s: Slots, m: Rules, h: nat, k: nat)
    requires PointersInTable(s) && FindHandle(s, h, |s|) == Some(k) && !s[k].inUse && s[k].fragPtr.None? && h in m
    ensures !LookupSound(s, m, h) && Unfill(s, h) == s
  {
    assert s[k := Vacate(s[k])] == s;
  }
}
