/** The compiled parser image and its meaning: the rows written for a schedule of main
    entries, and the proof that running them gives the verdict of the first matching filter. */
module RxpImage {
  import opened FrpRow
  import opened KeySplit
  import opened TcTable

  // ----- the order of emission -----

  /** Ascending priority field, ties by descending slot. */
  predicate Before(s: Slots, a: nat, b: nat)
    requires a < |s| && b < |s|
  {
    s[a].prio < s[b].prio || (s[a].prio == s[b].prio && a > b)
  }

  predicate MainSlots(s: Slots, order: seq<nat>) {
    forall i :: 0 <= i < |order| ==> order[i] < |s| && IsMain(s[order[i]])
  }

  predicate Sorted(s: Slots, order: seq<nat>)
    requires MainSlots(s, order)
  {
    forall i, j :: 0 <= i < j < |order| ==> Before(s, order[i], order[j])
  }

  /** Every main entry exactly once, each before all that come after it. */
  predicate IsSchedule(s: Slots, order: seq<nat>) {
    && MainSlots(s, order)
    && Sorted(s, order)
    && forall k: nat :: k < |s| && IsMain(s[k]) ==> k in order
  }

  /** A slot of one schedule that is not among the first `n` of the other comes later in it. */
  lemma PlaceAfter(s: Slots, b: seq<nat>, n: nat, x: nat)
    requires IsSchedule(s, b) && n < |b| && x < |s| && IsMain(s[x]) && x !in b[..n]
    ensures b[n] == x || Before(s, b[n], x)
  {
    assert x in b;
    assert b == b[..n] + b[n..];
    var i :| 0 <= i < |b[n..]| && b[n..][i] == x;
    assert b[n + i] == x;
  }

  lemma NotAmongEarlier(s: Slots, a: seq<nat>, n: nat)
    requires IsSchedule(s, a) && n < |a|
    ensures a[n] !in a[..n]
  {
  }

  /** A table has only one schedule. */
  lemma {:induction false} ScheduleUnique(s: Slots, a: seq<nat>, b: seq<nat>, n: nat)
    requires IsSchedule(s, a) && IsSchedule(s, b) && |a| <= |b| && n <= |a|
    ensures a[..n] == b[..n] && (n == |a| ==> a == b)
    decreases n
  {
    if n > 0 {
      ScheduleUnique(s, a, b, n - 1);
      NotAmongEarlier(s, a, n - 1);
      NotAmongEarlier(s, b, n - 1);
      PlaceAfter(s, b, n - 1, a[n - 1]);
      PlaceAfter(s, a, n - 1, b[n - 1]);
    }
    if n == |a| && n < |b| {
      NotAmongEarlier(s, b, n);
      assert false;
    }
  }

  // ----- the rows -----

  /** A main row with a fragment loses its decision and becomes a guard for the next row. */
  function GuardRow(r: Row, pos: nat): Row {
    r.(af := false, rf := false, nc := true, okIndex := (pos + 2) % 256)
  }

  /** The rows of the main entry in slot `k`, when the first of them is number `pos`. */
  function RowsOf(s: Slots, k: nat, pos: nat): seq<Row>
    requires k < |s| && PointersInTable(s)
  {
    match s[k].fragPtr
    case None => [s[k].val]
    case Some(f) => [GuardRow(s[k].val, pos), s[f].val]
  }

  function Image(s: Slots, order: seq<nat>): seq<Row>
    requires PointersInTable(s) && MainSlots(s, order)
  {
    if order == [] then
      []
    else
      var before := Image(s, order[..|order| - 1]);
      before + RowsOf(s, order[|order| - 1], |before|)
  }

  /** Everything that is loaded: the scheduled rows and the all-pass row. */
  function FullImage(s: Slots, order: seq<nat>): seq<Row>
    requires PointersInTable(s) && MainSlots(s, order)
  {
    Image(s, order) + [ALL_PASS_ROW]
  }

  /** The number of the first row of the `i`-th scheduled entry. */
  function Start(s: Slots, order: seq<nat>, i: nat): nat
    requires PointersInTable(s) && MainSlots(s, order) && i <= |order|
  {
    |Image(s, order[..i])|
  }

  lemma {:induction false} ImagePrefix(s: Slots, order: seq<nat>, i: nat)
    requires PointersInTable(s) && MainSlots(s, order) && i <= |order|
    ensures Image(s, order[..i]) <= Image(s, order)
    decreases |order|
  {
    if i == |order| {
      assert order[..i] == order;
    } else {
      var shorter := order[..|order| - 1];
      assert shorter[..i] == order[..i];
      ImagePrefix(s, shorter, i);
    }
  }

  /** Where the rows of the `i`-th scheduled entry are. */
  lemma {:induction false} RowsAtStart(s: Slots, order: seq<nat>, i: nat)
    requires PointersInTable(s) && MainSlots(s, order) && i < |order|
    ensures var p, rows := Start(s, order, i), RowsOf(s, order[i], Start(s, order, i));
            && Start(s, order, i + 1) == p + |rows| <= |Image(s, order)|
            && Image(s, order)[p..p + |rows|] == rows
  {
    assert order[..i + 1][..i] == order[..i];
    ImagePrefix(s, order, i + 1);
  }

  // ----- the meaning of the filters -----

  /** A filter can be read by its key, or by what its rows test. */
  datatype Reading = ByKeys | ByRows

  predicate Asks(reading: Reading, key: Key, frame: Frame) {
    match reading
    case ByKeys => KeyMatches(key, frame)
    case ByRows => key.off <= OFF_LIMIT && RowsHit(key, frame)
  }

  /** Main entry `k` matches the frame. */
  predicate Matches(reading: Reading, s: Slots, m: map<nat, Rule>, frame: Frame, k: nat) {
    k < |s| && IsMain(s[k]) && s[k].handle in m && Asks(reading, m[s[k].handle].key, frame)
  }

  /** Main entry `k` is the first that matches the frame. */
  ghost predicate Wins(reading: Reading, s: Slots, m: map<nat, Rule>, frame: Frame, k: nat) {
    Matches(reading, s, m, frame, k) && forall j: nat :: Matches(reading, s, m, frame, j) && j != k ==> Before(s, k, j)
  }

  /** The verdict of the first matching filter, and acceptance when there is none. */
  ghost predicate IsVerdict(reading: Reading, s: Slots, m: map<nat, Rule>, frame: Frame, v: Verdict) {
    && (forall k: nat :: Wins(reading, s, m, frame, k) ==> v == m[s[k].handle].verdict)
    && ((forall k: nat :: !Matches(reading, s, m, frame, k)) ==> v == Accept)
    && ((exists k: nat :: Matches(reading, s, m, frame, k)) ==> exists k: nat :: Wins(reading, s, m, frame, k))
  }

  ghost predicate AllExact(m: map<nat, Rule>) {
    forall h: nat :: h in m ==> SplitExact(m[h].key)
  }

  /** With exact splits the two readings give every frame the same verdict. */
  lemma ReadingsAgree(s: Slots, m: map<nat, Rule>, frame: Frame, v: Verdict)
    requires WellFormed(s) && Holds(s, m) && AllExact(m)
    ensures IsVerdict(ByRows, s, m, frame, v) <==> IsVerdict(ByKeys, s, m, frame, v)
  {
    hide KeyMatches, RowsHit, SplitExact;
    forall k: nat
      ensures Matches(ByRows, s, m, frame, k) <==> Matches(ByKeys, s, m, frame, k)
    {
      if k < |s| && IsMain(s[k]) {
        assert MainOf(s, k, s[k].handle);
        SplitCorrectIffExact(m[s[k].handle].key);
      }
    }
    hide Asks, Matches, Holds, WellFormed;
    assert forall k: nat :: Wins(ByRows, s, m, frame, k) <==> Wins(ByKeys, s, m, frame, k);
  }

  // ----- running the image -----

  lemma RunPlain(rows: seq<Row>, frame: Frame, p: nat, key: Key, v: Verdict)
    requires p < |rows| && key.off <= OFF_LIMIT && key.off % 4 == 0
    requires rows[p] == Decide(MainRow(key), v)
    ensures Run(rows, frame, p) == if RowsHit(key, frame) then Decided(v) else Run(rows, frame, p + 1)
  {
    hide Agrees;
  }

  lemma RunSplit(rows: seq<Row>, frame: Frame, p: nat, main: Row, key: Key, v: Verdict)
    requires p + 1 < |rows| <= 256 && key.off <= OFF_LIMIT && key.off % 4 != 0
    requires p + 2 < |rows|
    requires rows[p] == GuardRow(main, p) && SameTest(main, MainRow(key))
    requires rows[p + 1] == Decide(FragRow(key), v)
    ensures Run(rows, frame, p) == if RowsHit(key, frame) then Decided(v) else Run(rows, frame, p + 2)
  {
    hide Agrees, MainRow, FragRow;
    assert Hit(rows[p], frame) == Hit(MainRow(key), frame);
    assert Hit(rows[p + 1], frame) == Hit(FragRow(key), frame);
    assert !FragRow(key).nc && !FragRow(key).af && !FragRow(key).rf by { FragRowPlain(key); }
  }

  lemma FragRowPlain(key: Key)
    requires key.off <= OFF_LIMIT && key.off % 4 != 0
    ensures NothingSet(FragRow(key))
  {
    RowBytes(key, 0);
  }

  /** One scheduled entry: its rows decide a frame that they match, and otherwise hand over to the
      next entry's first row. */
  lemma {:induction false} RunEntry(s: Slots, m: map<nat, Rule>, order: seq<nat>, frame: Frame, i: nat)
    requires WellFormed(s) && Holds(s, m) && MainSlots(s, order) && i < |order|
    requires |Image(s, order)| < 256
    ensures MainOf(s, order[i], s[order[i]].handle) && s[order[i]].handle in m
    ensures var rows, rule := FullImage(s, order), m[s[order[i]].handle];
            Run(rows, frame, Start(s, order, i))
            == if Asks(ByRows, rule.key, frame) then Decided(rule.verdict) else Run(rows, frame, Start(s, order, i + 1))
  {
    hide Run, Image, MainRow, FragRow, RowsHit, Decide, GuardRow, SameTest;
    var k, p, rows := order[i], Start(s, order, i), FullImage(s, order);
    assert MainOf(s, k, s[k].handle);
    var rule := m[s[k].handle];
    RowsAtStart(s, order, i);
    var own := RowsOf(s, k, p);
    assert own == rows[p..p + |own|];
    assert rows[p] == own[0];
    if rule.key.off % 4 == 0 {
      RunPlain(rows, frame, p, rule.key, rule.verdict);
    } else {
      assert rows[p + 1] == own[1];
      RunSplit(rows, frame, p, s[k].val, rule.key, rule.verdict);
    }
  }

  /** Running from the `i`-th entry on: the verdict of the first later entry that matches. */
  lemma {:induction false} RunFrom(s: Slots, m: map<nat, Rule>, order: seq<nat>, frame: Frame, i: nat)
    returns (first: nat)
    requires WellFormed(s) && Holds(s, m) && MainSlots(s, order) && i <= |order|
    requires |Image(s, order)| < 256
    ensures i <= first <= |order|
    ensures forall j :: i <= j < first ==> !Matches(ByRows, s, m, frame, order[j])
    ensures first < |order| ==> Matches(ByRows, s, m, frame, order[first])
    ensures Run(FullImage(s, order), frame, Start(s, order, i))
            == Decided(if first < |order| then m[s[order[first]].handle].verdict else Accept)
    decreases |order| - i
  {
    hide Image, Asks, Run, Holds, Stores;
    if i == |order| {
      first := i;
      assert order[..i] == order;
      AllPassAccepts(Image(s, order), frame);
    } else {
      RunEntry(s, m, order, frame, i);
      if Matches(ByRows, s, m, frame, order[i]) {
        first := i;
      } else {
        first := RunFrom(s, m, order, frame, i + 1);
      }
    }
  }

  lemma {:induction false} AllPassAccepts(rows: seq<Row>, frame: Frame)
    ensures Run(rows + [ALL_PASS_ROW], frame, |rows|) == Decided(Accept)
  {
    var w := WordAt(frame, 0);
    ZeroMaskAgrees(w.b0, 0);
    ZeroMaskAgrees(w.b1, 0);
    ZeroMaskAgrees(w.b2, 0);
    ZeroMaskAgrees(w.b3, 0);
  }

  /** The first match in the schedule is the first matching filter. */
  lemma FirstInScheduleIsVerdict(reading: Reading, s: Slots, m: map<nat, Rule>, order: seq<nat>, frame: Frame,
      first: nat)
    requires IsSchedule(s, order) && first <= |order|
    requires forall j :: 0 <= j < first ==> !Matches(reading, s, m, frame, order[j])
    requires first < |order| ==> Matches(reading, s, m, frame, order[first])
    ensures IsVerdict(reading, s, m, frame, if first < |order| then m[s[order[first]].handle].verdict else Accept)
  {
    hide Asks;
    forall j: nat | Matches(reading, s, m, frame, j)
      ensures first < |order| && (j != order[first] ==> Before(s, order[first], j))
    {
      assert j in order;
      var i :| 0 <= i < |order| && order[i] == j;
    }
    assert first < |order| ==> Wins(reading, s, m, frame, order[first]);
  }

  /** Compiler correctness: on every frame, running the image of any table decides the verdict of
      the first filter whose rows match, and, if all splits are exact, of the first filter whose
      key matches. */
  lemma ImageCorrect(s: Slots, m: map<nat, Rule>, order: seq<nat>, frame: Frame) returns (v: Verdict)
    requires WellFormed(s) && Holds(s, m) && IsSchedule(s, order)
    requires |Image(s, order)| < 256
    ensures Run(FullImage(s, order), frame, 0) == Decided(v)
    ensures IsVerdict(ByRows, s, m, frame, v)
    ensures AllExact(m) ==> IsVerdict(ByKeys, s, m, frame, v)
  {
    hide Run, Image, Asks;
    var first := RunFrom(s, m, order, frame, 0);
    v := if first < |order| then m[s[order[first]].handle].verdict else Accept;
    assert order[..0] == [] && Start(s, order, 0) == 0 by { EmptyImage(s); }
    FirstInScheduleIsVerdict(ByRows, s, m, order, frame, first);
    if AllExact(m) {
      ReadingsAgree(s, m, frame, v);
    }
  }

  lemma {:induction false} EmptyImage(s: Slots)
    requires PointersInTable(s)
    ensures Image(s, []) == []
  {
  }

  /** A frame has only one verdict. */
  lemma VerdictUnique(reading: Reading, s: Slots, m: map<nat, Rule>, frame: Frame, v: Verdict, v': Verdict)
    requires IsVerdict(reading, s, m, frame, v) && IsVerdict(reading, s, m, frame, v')
    ensures v == v'
  {
    if k: nat :| Matches(reading, s, m, frame, k) {
      var w: nat :| Wins(reading, s, m, frame, w);
    }
  }

  // ----- jumps and size -----

  /** Every jump in the image goes two rows forward, over the fragment that follows its guard, to
      a row that is loaded; rows that do not jump decide. */
  lemma {:induction false} JumpsSound(s: Slots, m: map<nat, Rule>, order: seq<nat>, i: nat)
    requires WellFormed(s) && Holds(s, m) && MainSlots(s, order)
    requires |Image(s, order)| < 256 && i < |Image(s, order)|
    ensures var rows := FullImage(s, order);
            if rows[i].nc then
              rows[i].okIndex == i + 2 < |rows| && !rows[i + 1].nc && RowOutcome(rows[i + 1]).Decided?
            else
              RowOutcome(rows[i]).Decided?
    decreases |order|
  {
    var last := |order| - 1;
    var before := Image(s, order[..last]);
    if i < |before| {
      JumpsSound(s, m, order[..last], i);
      assert FullImage(s, order)[i] == before[i];
      if before[i].nc {
        assert FullImage(s, order)[i + 1] == FullImage(s, order[..last])[i + 1];
      }
    } else {
      EntryRows(s, m, order[last], |before|);
    }
  }

  /** What the driver writes in a row besides its test: nothing but one decision, or nothing but the
      jump of a guard. */
  predicate WrittenRow(r: Row) {
    PlainRow(r) && if r.nc then !r.af && !r.rf else r.okIndex == 0 && r.af != r.rf
  }

  /** Every row of every image is written like that. */
  lemma {:induction false} ImageWritten(s: Slots, m: map<nat, Rule>, order: seq<nat>)
    requires WellFormed(s) && Holds(s, m) && MainSlots(s, order)
    ensures forall i :: 0 <= i < |Image(s, order)| ==> WrittenRow(Image(s, order)[i])
    decreases |order|
  {
    if order != [] {
      var last := |order| - 1;
      ImageWritten(s, m, order[..last]);
      RowsWritten(s, m, order[last], |Image(s, order[..last])|);
      hide WrittenRow, RowsOf;
    }
  }

  lemma RowsWritten(s: Slots, m: map<nat, Rule>, k: nat, pos: nat)
    requires WellFormed(s) && Holds(s, m) && k < |s| && IsMain(s[k])
    ensures forall i :: 0 <= i < |RowsOf(s, k, pos)| ==> WrittenRow(RowsOf(s, k, pos)[i])
  {
    assert MainOf(s, k, s[k].handle);
    var key := m[s[k].handle].key;
    MainRowPlain(key);
    if key.off % 4 != 0 { FragRowPlain(key); }
    hide MainRow, FragRow;
  }

  lemma MainRowPlain(key: Key)
    requires key.off <= OFF_LIMIT
    ensures NothingSet(MainRow(key))
  {
    RowBytes(key, 0);
  }

  lemma EntryRows(s: Slots, m: map<nat, Rule>, k: nat, pos: nat)
    requires WellFormed(s) && Holds(s, m) && k < |s| && IsMain(s[k])
    ensures var rows := RowsOf(s, k, pos);
            && RowOutcome(rows[|rows| - 1]).Decided? && !rows[|rows| - 1].nc
            && (|rows| > 1 ==> |rows| == 2 && rows[0].nc && rows[0].okIndex == (pos + 2) % 256)
  {
    assert MainOf(s, k, s[k].handle);
  }

  /** The slots whose rows are in the image. */
  ghost function EmittedSlots(s: Slots, order: seq<nat>): set<nat>
    requires MainSlots(s, order)
  {
    if order == [] then
      {}
    else
      var k := order[|order| - 1];
      EmittedSlots(s, order[..|order| - 1]) + {k} + (if s[k].fragPtr.Some? then {s[k].fragPtr.value} else {})
  }

  predicate Distinct(order: seq<nat>) {
    forall i, j :: 0 <= i < j < |order| ==> order[i] != order[j]
  }

  lemma {:induction false} EmittedMeaning(s: Slots, order: seq<nat>)
    requires WellFormed(s) && MainSlots(s, order)
    ensures forall k: nat :: k in EmittedSlots(s, order) ==> k < |s| - 1 && s[k].inUse
    ensures forall k: nat :: k < |s| && IsMain(s[k]) ==> (k in EmittedSlots(s, order) <==> k in order)
    ensures forall k: nat, f: nat :: Owns(s, k, f) ==> (f in EmittedSlots(s, order) <==> k in order)
    decreases |order|
  {
    if order != [] {
      var shorter, k := order[..|order| - 1], order[|order| - 1];
      EmittedMeaning(s, shorter);
      assert order == shorter + [k];
      if s[k].fragPtr.Some? { assert Owns(s, k, s[k].fragPtr.value); }
    }
  }

  /** One row for each slot that is emitted. */
  lemma {:induction false} RowPerSlot(s: Slots, order: seq<nat>)
    requires WellFormed(s) && MainSlots(s, order) && Distinct(order)
    ensures |EmittedSlots(s, order)| == |Image(s, order)|
    decreases |order|
  {
    if order != [] {
      var shorter, k := order[..|order| - 1], order[|order| - 1];
      RowPerSlot(s, shorter);
      FreshSlots(s, shorter, k);
      var earlier := EmittedSlots(s, shorter);
      assert |earlier + {k}| == |earlier| + 1;
      hide WellFormed, IsMain;
      if s[k].fragPtr.Some? {
        assert |earlier + {k} + {s[k].fragPtr.value}| == |earlier| + 2;
      } else {
        assert earlier + {k} + {} == earlier + {k};
      }
    }
  }

  /** The slots of another main entry have not been emitted. */
  lemma {:induction false} FreshSlots(s: Slots, order: seq<nat>, k: nat)
    requires WellFormed(s) && MainSlots(s, order) && k < |s| && IsMain(s[k]) && k !in order
    ensures k !in EmittedSlots(s, order)
    ensures s[k].fragPtr.Some? ==> s[k].fragPtr.value !in EmittedSlots(s, order) && s[k].fragPtr.value != k
  {
    hide EmittedSlots;
    EmittedMeaning(s, order);
    if s[k].fragPtr.Some? { assert Owns(s, k, s[k].fragPtr.value); }
  }

  lemma {:induction false} SmallSet(a: set<nat>, n: nat)
    requires forall x :: x in a ==> x < n
    ensures |a| <= n
    decreases n
  {
    if n == 0 {
      assert a == {};
    } else {
      SmallSet(a - {n - 1}, n - 1);
    }
  }

  /** The rows of distinct main entries never outgrow the table: all but its last slot. */
  lemma {:induction false} ImageFits(s: Slots, order: seq<nat>)
    requires WellFormed(s) && MainSlots(s, order) && Distinct(order)
    ensures |Image(s, order)| <= |s| - 1
  {
    RowPerSlot(s, order);
    EmittedMeaning(s, order);
    SmallSet(EmittedSlots(s, order), |s| - 1);
  }
}
