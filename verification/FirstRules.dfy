/** From requests to frames: what the first rules in an empty table make of memory and of every
    frame, in terms of the requests alone. */
module FirstRules {
  import opened FrpRow
  import opened KeySplit
  import opened TcTable
  import opened RxpImage
  import opened RxpConfig
  import opened TcRequests
  import opened Wrappers

  // ----- one rule -----

  /** A request that is taken and loaded, as the first one. */
  ghost predicate FirstRequest(count: nat, kn: Knode, offMax: nat, s: Slots)
    requires count > 0 && offMax <= OFF_MAX_BOUND
  {
    kn.handle != 0 && PointersInTable(s) && Step(InitialSlots(count), NewKnode(kn), offMax, Success, s)
  }

  /** Such a request is well addressed and its action is one that the driver takes. */
  lemma FirstTaken(count: nat, kn: Knode, offMax: nat, s: Slots)
    requires count > 0 && offMax <= OFF_MAX_BOUND && FirstRequest(count, kn, offMax, s)
    ensures Takes(InitialSlots(count), kn, offMax) && KeyOf(kn).off <= OFF_MAX_BOUND
    ensures CheckedKey(kn, offMax) == Some(KeyOf(kn)) && Decision(kn.actions).Some?
    ensures Refines(s, map[kn.handle := RuleOf(kn, offMax)])
  {
    FillTakenIff(InitialSlots(count), kn, offMax);
    CheckedKeyMeaning(kn, offMax);
    DecisionMeaning(kn.actions);
    InitialRefines(count);
    hide CheckedKey, Decision, WellFormed, Holds, Fill, Takes;
    StepKeeps(InitialSlots(count), map[], NewKnode(kn), offMax, Success, s);
    assert RulesAfter(map[], NewKnode(kn), offMax, Success) == map[kn.handle := RuleOf(kn, offMax)];
  }

  /** The main entry of the rule is the first slot, and it is the whole schedule. */
  lemma FirstSlot(count: nat, kn: Knode, offMax: nat, s: Slots, order: seq<nat>)
    requires count > 0 && offMax <= OFF_MAX_BOUND && FirstRequest(count, kn, offMax, s) && IsSchedule(s, order)
    ensures MainOf(s, 0, kn.handle) && order == [0]
  {
    FirstTaken(count, kn, offMax, s);
    FirstMain(count, kn, offMax, s);
    var m := map[kn.handle := RuleOf(kn, offMax)];
    hide CheckedKey, Decision, Stores, Fill, Takes, FirstRequest;
    forall k: nat | k < |s| && IsMain(s[k])
      ensures k == 0
    {
      assert MainOf(s, k, s[k].handle);
      assert s[k].handle in m;
    }
    assert IsSchedule(s, [0]);
    if |order| <= 1 {
      ScheduleUnique(s, order, [0], |order|);
    } else {
      ScheduleUnique(s, [0], order, 1);
    }
  }

  lemma FirstMain(count: nat, kn: Knode, offMax: nat, s: Slots)
    requires count > 0 && offMax <= OFF_MAX_BOUND && FirstRequest(count, kn, offMax, s)
    requires Takes(InitialSlots(count), kn, offMax) && Decision(kn.actions).Some?
    requires CheckedKey(kn, offMax) == Some(KeyOf(kn)) && KeyOf(kn).off <= OFF_MAX_BOUND
    ensures MainOf(s, 0, kn.handle)
  {
    hide CheckedKey, Decision, MainRow, FragRow, KeyOf, PrioField;
    var s0, key := InitialSlots(count), CheckedKey(kn, offMax).value;
    assert FindFree(s0) == Some(0);
    var filled := Fill(s0, kn, offMax).0;
    if key.off % 4 != 0 {
      var s1 := s0[0 := Allot(s0[0], kn.handle)];
      assert FindFree(s1).Some? && FindFree(s1).value != 0;
    }
    assert IsMain(filled[0]) && filled[0].handle == kn.handle;
    assert SameRule(filled[0], s[0]);
  }

  /** The flags of a deciding row. */
  function DecisionFlags(kn: Knode): Byte
    requires kn.actions != []
  {
    if kn.actions[0] == ActDrop then 2 else 1
  }

  /** The memory words of the pass-all row: the accept flag and nothing else. */
  const PASS_WORDS: seq<Word> := [Word(0, 0, 0, 0), Word(0, 0, 0, 0), Word(1, 0, 0, 0), Word(0, 0, 0, 0)]

  /** The words that a load of the first rule writes.  A word-aligned key is one row: data, mask, and
      the control word with decision and word offset.  Any other key is a guard row, which jumps to
      row 2, and a deciding row for the next word.  The pass-all row closes the table. */
  lemma FirstImageWords(count: nat, kn: Knode, offMax: nat, s: Slots, order: seq<nat>)
    requires count > 0 && offMax <= OFF_MAX_BOUND && FirstRequest(count, kn, offMax, s) && IsSchedule(s, order)
    ensures |kn.keys| == 1 && kn.actions != [] && KeyOf(kn).off <= OFF_MAX_BOUND
    ensures var key, rows := KeyOf(kn), FullImage(s, order);
            if key.off % 4 == 0 then
              && |rows| == 2
              && Words(rows[0]) == [key.data, key.mask, Word(DecisionFlags(kn), key.off / 4, 0, 0), ZERO_WORD]
              && Words(rows[1]) == PASS_WORDS
            else
              && |rows| == 3
              && Words(rows[0]) == [MainRow(key).matchData, MainRow(key).matchEn, Word(8, key.off / 4, 2, 0), ZERO_WORD]
              && Words(rows[1]) == [FragRow(key).matchData, FragRow(key).matchEn,
                                    Word(DecisionFlags(kn), key.off / 4 + 1, 0, 0), ZERO_WORD]
              && Words(rows[2]) == PASS_WORDS
  {
    hide CheckedKey, FirstRequest, Step, WellFormed, Holds, Words, MainRow, FragRow, Image, RowsOf;
    hide Decision, Stores, Takes, RawOffset, PrioField, Refines, MainOf;
    FirstTaken(count, kn, offMax, s);
    FirstSlot(count, kn, offMax, s, order);
    DecisionMeaning(kn.actions);
    var key, v := KeyOf(kn), Decision(kn.actions).value;
    StoredRule(s, map[kn.handle := RuleOf(kn, offMax)], kn.handle, 0);
    OneEntryImage(s, order);
    PassWords();
    EntryWords(s, RuleOf(kn, offMax));
  }

  /** The words of the rows of a main entry in slot 0, written from row 0 on. */
  lemma EntryWords(s: Slots, rule: Rule)
    requires |s| > 0 && PointersInTable(s) && Stores(s, 0, rule)
    ensures var key, rows, flags := rule.key, RowsOf(s, 0, 0), VerdictFlags(rule.verdict);
            if key.off % 4 == 0 then
              && |rows| == 1
              && Words(rows[0]) == [key.data, key.mask, Word(flags, key.off / 4, 0, 0), ZERO_WORD]
            else
              && |rows| == 2
              && Words(rows[0]) == [MainRow(key).matchData, MainRow(key).matchEn, Word(8, key.off / 4, 2, 0), ZERO_WORD]
              && Words(rows[1]) == [FragRow(key).matchData, FragRow(key).matchEn,
                                    Word(flags, key.off / 4 + 1, 0, 0), ZERO_WORD]
  {
    hide Words, MainRow, FragRow, GuardRow, Decide, SameTest;
    var key, v := rule.key, rule.verdict;
    if key.off % 4 == 0 {
      AlignedWords(key, v);
    } else {
      GuardWords(s[0].val, key);
      FragWords(key, v);
    }
  }

  lemma StoredRule(s: Slots, m: Rules, h: nat, k: nat)
    requires Refines(s, m) && MainOf(s, k, h)
    ensures h in m && PointersInTable(s) && Stores(s, k, m[h])
  {
  }

  lemma {:induction false} OneEntryImage(s: Slots, order: seq<nat>)
    requires PointersInTable(s) && MainSlots(s, order) && order == [0]
    ensures |s| > 0 && Image(s, order) == RowsOf(s, 0, 0)
  {
    assert order[..0] == [] && order[0] < |s|;
  }

  lemma PassWords()
    ensures Words(ALL_PASS_ROW) == PASS_WORDS
  {
  }

  function VerdictFlags(v: Verdict): Byte {
    if v == FrpRow.Drop then 2 else 1
  }

  lemma AlignedWords(key: Key, v: Verdict)
    requires key.off <= OFF_LIMIT && key.off % 4 == 0
    ensures Words(Decide(MainRow(key), v)) == [key.data, key.mask, Word(VerdictFlags(v), key.off / 4, 0, 0), ZERO_WORD]
  {
  }

  lemma GuardWords(r: Row, key: Key)
    requires key.off <= OFF_LIMIT && SameTest(r, MainRow(key))
    ensures Words(GuardRow(r, 0))
            == [MainRow(key).matchData, MainRow(key).matchEn, Word(8, key.off / 4, 2, 0), ZERO_WORD]
  {
    RowBytes(key, 0);
    hide MainRow;
  }

  lemma FragWords(key: Key, v: Verdict)
    requires key.off <= OFF_LIMIT && key.off % 4 != 0
    ensures Words(Decide(FragRow(key), v))
            == [FragRow(key).matchData, FragRow(key).matchEn, Word(VerdictFlags(v), key.off / 4 + 1, 0, 0), ZERO_WORD]
  {
    RowBytes(key, 0);
    hide FragRow;
  }

  /** What the first rule does to every frame, when its split is exact: frames that match the
      request's key are dropped if the first action is to drop, and everything else is accepted. */
  lemma FirstRuleDecides(count: nat, kn: Knode, offMax: nat, s: Slots, order: seq<nat>, frame: Frame)
    requires 3 <= count <= 256 && offMax <= OFF_MAX_BOUND && FirstRequest(count, kn, offMax, s) && IsSchedule(s, order)
    requires |kn.keys| == 1 && SplitExact(KeyOf(kn))
    ensures kn.actions != []
    ensures Run(FullImage(s, order), frame, 0)
            == Decided(if KeyMatches(KeyOf(kn), frame) && kn.actions[0] == ActDrop then FrpRow.Drop else Accept)
  {
    FirstTaken(count, kn, offMax, s);
    FirstSlot(count, kn, offMax, s, order);
    DecisionMeaning(kn.actions);
    var m := map[kn.handle := RuleOf(kn, offMax)];
    assert |Image(s, order)| <= 2 by { assert order[..0] == []; }
    hide CheckedKey, Decision, FirstRequest, Step, Run, KeyMatches, Image, SplitExact;
    var v := ImageCorrect(s, m, order, frame);
    OnlyRuleVerdict(s, m, kn.handle, frame, v);
  }

  lemma OnlyRuleVerdict(s: Slots, m: Rules, h: nat, frame: Frame, v: Verdict)
    requires Refines(s, m) && m.Keys == {h} && MainOf(s, 0, h) && IsVerdict(ByKeys, s, m, frame, v)
    ensures v == if KeyMatches(m[h].key, frame) then m[h].verdict else Accept
  {
    hide KeyMatches, Stores;
    assert forall j: nat :: Matches(ByKeys, s, m, frame, j) ==> j == 0 by {
      forall j: nat | Matches(ByKeys, s, m, frame, j) ensures j == 0 { assert MainOf(s, j, h); }
    }
    if KeyMatches(m[h].key, frame) {
      assert Matches(ByKeys, s, m, frame, 0);
      assert Wins(ByKeys, s, m, frame, 0);
    }
  }

  // ----- two rules -----

  /** Of two aligned rules that match a frame, the one with the lower priority number, in its 16 low
      bits, decides; between equal numbers the later rule. */
  lemma TwoRulesDecide(count: nat, ka: Knode, kb: Knode, offMax: nat, s1: Slots, s2: Slots, frame: Frame, v: Verdict)
    requires count >= 3 && offMax <= OFF_MAX_BOUND && PlainRequest(ka, offMax) && PlainRequest(kb, offMax)
    requires ka.handle != kb.handle && ka.handle != 0 && kb.handle != 0 && PointersInTable(s1)
    requires Step(InitialSlots(count), NewKnode(ka), offMax, Success, s1)
    requires Step(s1, NewKnode(kb), offMax, Success, s2)
    requires IsVerdict(ByKeys, s2, map[ka.handle := RuleOf(ka, offMax), kb.handle := RuleOf(kb, offMax)], frame, v)
    ensures |ka.keys| == |kb.keys| == 1 && ka.actions != [] && kb.actions != []
    ensures KeyMatches(KeyOf(ka), frame) && KeyMatches(KeyOf(kb), frame) ==>
              var decider := if ka.prio % 0x1_0000 < kb.prio % 0x1_0000 then ka else kb;
              v == if decider.actions[0] == ActDrop then FrpRow.Drop else Accept
  {
    hide CheckedKey, Decision, KeyMatches, Step, RawOffset, Refines, FirstTwo, IsMain;
    var a, b := ka.handle, kb.handle;
    var m := map[a := RuleOf(ka, offMax), b := RuleOf(kb, offMax)];
    TwoInstalled(count, ka, kb, offMax, s1, s2);
    CheckedKeyMeaning(ka, offMax);
    CheckedKeyMeaning(kb, offMax);
    DecisionMeaning(ka.actions);
    DecisionMeaning(kb.actions);
    if KeyMatches(KeyOf(ka), frame) && KeyMatches(KeyOf(kb), frame) {
      MainPrios(s2, m, a, b);
      FirstOfTwo(s2, m, a, b, frame);
    }
  }

  lemma MainPrios(s: Slots, m: Rules, a: nat, b: nat)
    requires Refines(s, m) && FirstTwo(s, a, b, false) && m.Keys == {a, b}
    ensures MainOf(s, 0, a) && MainOf(s, 1, b) && s[0].prio == m[a].prio && s[1].prio == m[b].prio
  {
    assert MainOf(s, 0, a) && MainOf(s, 1, b);
  }

  lemma FirstOfTwo(s: Slots, m: Rules, a: nat, b: nat, frame: Frame)
    requires Refines(s, m) && MainOf(s, 0, a) && MainOf(s, 1, b) && m.Keys == {a, b} && a != b
    requires KeyMatches(m[a].key, frame) && KeyMatches(m[b].key, frame)
    ensures Wins(ByKeys, s, m, frame, if s[0].prio < s[1].prio then 0 else 1)
  {
    hide KeyMatches, Stores;
    forall j: nat | Matches(ByKeys, s, m, frame, j)
      ensures j == 0 || j == 1
    {
      assert MainOf(s, j, s[j].handle);
    }
    assert Matches(ByKeys, s, m, frame, 0) && Matches(ByKeys, s, m, frame, 1);
  }
}
