/** DMA channels shared with an offloader: who owns each channel over all requests and releases
    (with the driver's own memory allocation, that is, without allocation callbacks). */
module ChannelOwner {
  import opened Wrappers

  const CHANNELS := 8
  const MAX_QUEUES_TO_USE := 2
  const IPA_MAX_DESC_CNT := 512
  const IPA_MAX_BUFFER_SIZE := 9216

  datatype Owner = NotUsed | UsedByDriver | UsedByOffloader

  /** The caller may pass a direction that is neither. */
  datatype Direction = Tx | Rx | NoDirection

  /** What a caller passes as its channel; `id` tells apart grants of the same channel at different
      times. */
  datatype Channel = Channel(id: nat, dir: Direction, num: nat)

  /** Which of the memory allocations of a request succeed. */
  datatype Memory = Memory(channel: bool, vaPool: bool, dmaPool: bool, resources: bool)

  datatype Request = Request(descCnt: nat, dir: Direction, bufSize: nat, mem: Memory)

  datatype Status = Done | Invalid | NotPermitted

  /** Direction and number of a channel. */
  type Place = (Direction, nat)

  function PlaceOf(c: Channel): Place {
    (c.dir, c.num)
  }

  predicate IsPlace(p: Place) {
    p.0 != NoDirection && p.1 < CHANNELS
  }

  // ----- owners and event masks -----

  /** `grants` counts the channels granted so far. */
  datatype State = State(tx: seq<Owner>, rx: seq<Owner>, txMask: set<nat>, rxMask: set<nat>, grants: nat)

  predicate Shape(s: State) {
    |s.tx| == |s.rx| == CHANNELS
  }

  function OwnerOf(s: State, p: Place): Owner
    requires Shape(s) && IsPlace(p)
  {
    if p.0 == Tx then s.tx[p.1] else s.rx[p.1]
  }

  function Masked(s: State, p: Place): bool {
    if p.0 == Tx then p.1 in s.txMask else p.1 in s.rxMask
  }

  function Put(s: State, p: Place, owner: Owner): State
    requires Shape(s) && IsPlace(p)
  {
    if p.0 == Tx then s.(tx := s.tx[p.1 := owner]) else s.(rx := s.rx[p.1 := owner])
  }

  function SetMask(mask: set<nat>, num: nat, enable: bool): set<nat> {
    if enable then mask - {num} else mask + {num}
  }

  /** The first unused channel of a direction, from number `ch` on. */
  function FirstUnused(owners: seq<Owner>, ch: nat): (r: Option<nat>)
    requires |owners| == CHANNELS && ch <= MAX_QUEUES_TO_USE
    ensures r.Some? ==> ch <= r.value < MAX_QUEUES_TO_USE && owners[r.value] == NotUsed
    ensures forall j :: ch <= j < (if r.Some? then r.value else MAX_QUEUES_TO_USE) ==> owners[j] != NotUsed
    decreases MAX_QUEUES_TO_USE - ch
  {
    if ch == MAX_QUEUES_TO_USE then None else if owners[ch] == NotUsed then Some(ch) else FirstUnused(owners, ch + 1)
  }

  function Unused(s: State, dir: Direction): Option<nat>
    requires Shape(s) && dir != NoDirection
  {
    FirstUnused(if dir == Tx then s.tx else s.rx, 0)
  }

  // ----- the operations -----

  /** What an offloader asks for.  The channels it passes may be anything, granted or not;
      `pointers` tells whether their memory pointers are set. */
  datatype Command =
    | Ask(req: Request)
    | Release(c: Channel, pointers: bool)
    | SetEvents(c: Channel, enable: bool)

  /** Channel numbers index the driver's tables. */
  predicate InTable(c: Channel) {
    c.dir != NoDirection ==> c.num < CHANNELS
  }

  predicate IsCommand(cmd: Command) {
    !cmd.Ask? ==> InTable(cmd.c)
  }

  /** A request that gets as far as claiming a channel. */
  predicate Claims(s: State, req: Request)
    requires Shape(s)
  {
    && req.descCnt <= IPA_MAX_DESC_CNT && req.bufSize <= IPA_MAX_BUFFER_SIZE && req.dir != NoDirection
    && req.mem.channel && req.mem.vaPool && req.mem.dmaPool && Unused(s, req.dir).Some?
  }

  /** A request that fails after claiming a channel. */
  predicate FailsLate(s: State, req: Request)
    requires Shape(s)
  {
    Claims(s, req) && !req.mem.resources
  }

  function ClaimedPlace(s: State, req: Request): (p: Place)
    requires Shape(s) && Claims(s, req)
    ensures IsPlace(p) && OwnerOf(s, p) == NotUsed
  {
    (req.dir, Unused(s, req.dir).value)
  }

  /** The guard of every operation on a channel. */
  predicate Permitted(s: State, c: Channel)
    requires Shape(s) && InTable(c)
  {
    c.dir != NoDirection && OwnerOf(s, PlaceOf(c)) == UsedByOffloader
  }

  predicate Frees(s: State, cmd: Command)
    requires Shape(s) && IsCommand(cmd)
  {
    cmd.Release? && cmd.pointers && Permitted(s, cmd.c)
  }

  function Next(s: State, cmd: Command): (s': State)
    requires Shape(s) && IsCommand(cmd)
    ensures Shape(s')
  {
    match cmd
    case Ask(req) =>
      if !Claims(s, req) then s
      else
        var claimed := Put(s, ClaimedPlace(s, req), UsedByOffloader);
        if FailsLate(s, req) then claimed else claimed.(grants := s.grants + 1)
    case Release(c, _) =>
      if Frees(s, cmd) then Put(s, PlaceOf(c), NotUsed) else s
    case SetEvents(c, enable) =>
      if !Permitted(s, c) then s
      else if c.dir == Tx then s.(txMask := SetMask(s.txMask, c.num, enable))
      else s.(rxMask := SetMask(s.rxMask, c.num, enable))
  }

  /** The guards at work: no command, whatever channel it names, changes the owner or the event mask
      of a channel that the driver uses, or hands the driver a channel. */
  lemma DriverUntouched(s: State, cmd: Command, p: Place)
    requires Shape(s) && IsCommand(cmd) && IsPlace(p)
    ensures OwnerOf(Next(s, cmd), p) == UsedByDriver <==> OwnerOf(s, p) == UsedByDriver
    ensures OwnerOf(s, p) == UsedByDriver ==> Masked(Next(s, cmd), p) == Masked(s, p)
  {
  }

  /** Enabling unmasks the event of a channel of the offloader, disabling masks it; no other mask and
      no owner changes. */
  lemma EventsSet(s: State, c: Channel, enable: bool, p: Place)
    requires Shape(s) && InTable(c) && IsPlace(p)
    ensures var s' := Next(s, SetEvents(c, enable));
            && OwnerOf(s', p) == OwnerOf(s, p)
            && Masked(s', p) == if Permitted(s, c) && p == PlaceOf(c) then !enable else Masked(s, p)
  {
  }

  // ----- what the offloader's channels are -----

  /** Channels granted and not released, and places claimed by requests that failed afterwards. */
  datatype Accounts = Accounts(live: set<Channel>, lost: set<Place>)

  const NO_ACCOUNTS := Accounts({}, {})

  function NextAccounts(s: State, a: Accounts, cmd: Command): Accounts
    requires Shape(s) && IsCommand(cmd)
  {
    match cmd
    case Ask(req) =>
      if !Claims(s, req) then a
      else if FailsLate(s, req) then a.(lost := a.lost + {ClaimedPlace(s, req)})
      else a.(live := a.live + {Channel(s.grants, req.dir, ClaimedPlace(s, req).1)})
    case Release(c, _) =>
      if Frees(s, cmd) then Accounts((set d | d in a.live && PlaceOf(d) != PlaceOf(c)), a.lost - {PlaceOf(c)}) else a
    case SetEvents(_, _) => a
  }

  /** The offloader's channels are the live ones, each granted once, and the lost ones. */
  ghost predicate Accounted(s: State, a: Accounts) {
    && Shape(s)
    && (forall c :: c in a.live ==> c.id < s.grants && IsPlace(PlaceOf(c)) && PlaceOf(c) !in a.lost)
    && (forall c, d :: c in a.live && d in a.live && PlaceOf(c) == PlaceOf(d) ==> c == d)
    && (forall p :: p in a.lost ==> IsPlace(p))
    && (forall p: Place :: IsPlace(p) ==> (OwnerOf(s, p) == UsedByOffloader <==> p in a.lost || HasLive(a, p)))
  }

  ghost predicate HasLive(a: Accounts, p: Place) {
    exists c :: c in a.live && PlaceOf(c) == p
  }

  /** Every command keeps the accounts. */
  lemma StepAccounted(s: State, a: Accounts, cmd: Command)
    requires Accounted(s, a) && IsCommand(cmd)
    ensures Accounted(Next(s, cmd), NextAccounts(s, a, cmd))
  {
    var s', a' := Next(s, cmd), NextAccounts(s, a, cmd);
    match cmd
    case Ask(req) =>
      if Claims(s, req) {
        var q := ClaimedPlace(s, req);
        assert q !in a.lost && !HasLive(a, q);
        assert forall c :: c in a'.live <==> c in a.live || (!FailsLate(s, req) && c == Channel(s.grants, q.0, q.1));
        assert forall p: Place :: HasLive(a', p) <==> HasLive(a, p) || (!FailsLate(s, req) && p == q) by {
          if !FailsLate(s, req) { assert Channel(s.grants, q.0, q.1) in a'.live; }
        }
        PutChanges(s, q, UsedByOffloader);
      }
    case Release(c, _) =>
      if Frees(s, cmd) {
        assert forall p: Place :: HasLive(a', p) <==> HasLive(a, p) && p != PlaceOf(c) by {
          forall p: Place | HasLive(a, p) && p != PlaceOf(c) ensures HasLive(a', p) {
            var d :| d in a.live && PlaceOf(d) == p;
            assert d in a'.live;
          }
        }
        PutChanges(s, PlaceOf(c), NotUsed);
      }
    case SetEvents(_, _) =>
  }

  lemma PutChanges(s: State, q: Place, owner: Owner)
    requires Shape(s) && IsPlace(q)
    ensures Shape(Put(s, q, owner))
    ensures forall p: Place :: IsPlace(p) ==> OwnerOf(Put(s, q, owner), p) == if p == q then owner else OwnerOf(s, p)
  {
  }

  /** The offloader's channels are as many as the live and the lost ones together. */
  lemma OffloaderCount(s: State, a: Accounts, owned: set<Place>)
    requires Accounted(s, a)
    requires forall p: Place :: p in owned <==> IsPlace(p) && OwnerOf(s, p) == UsedByOffloader
    ensures |owned| == |a.live| + |a.lost|
  {
    var places := set c | c in a.live :: PlaceOf(c);
    assert forall p: Place :: p in places <==> HasLive(a, p);
    assert owned == places + a.lost;
    assert places !! a.lost;
    SamePlaces(a.live, places);
  }

  lemma {:induction false} SamePlaces(cs: set<Channel>, places: set<Place>)
    requires places == set c | c in cs :: PlaceOf(c)
    requires forall c, d :: c in cs && d in cs && PlaceOf(c) == PlaceOf(d) ==> c == d
    ensures |places| == |cs|
  {
    if c :| c in cs {
      var places' := places - {PlaceOf(c)};
      assert PlaceOf(c) in places;
      assert places' == set d | d in cs - {c} :: PlaceOf(d);
      SamePlaces(cs - {c}, places');
    }
  }

  /** Releasing a channel that is live releases that channel and no other. */
  lemma ReleaseLive(s: State, a: Accounts, c: Channel)
    requires Accounted(s, a) && c in a.live
    ensures IsCommand(Release(c, true)) && Frees(s, Release(c, true))
    ensures NextAccounts(s, a, Release(c, true)) == Accounts(a.live - {c}, a.lost)
  {
    assert HasLive(a, PlaceOf(c));
    var a' := NextAccounts(s, a, Release(c, true));
    assert forall d :: d in a'.live <==> d in a.live && d != c;
  }

  /** A lost channel stays lost exactly until it is released by someone to whom it was not
      granted. */
  lemma LostStaysIff(s: State, a: Accounts, cmd: Command, p: Place)
    requires Accounted(s, a) && IsCommand(cmd) && p in a.lost
    ensures p in NextAccounts(s, a, cmd).lost <==> !(cmd.Release? && cmd.pointers && PlaceOf(cmd.c) == p)
  {
  }

  /** A request that fails late: the memory for its resources does not suffice. */
  function LateRequest(dir: Direction): Request {
    Request(1, dir, 1, Memory(true, true, true, false))
  }

  /** A request within the limits of 512 descriptors and 9216 bytes, with all its memory, claims a
      channel if one of the two of its direction is unused. */
  lemma WithinLimitsClaims(s: State, req: Request)
    requires Shape(s) && req.dir != NoDirection && req.mem == Memory(true, true, true, true)
    requires OwnerOf(s, (req.dir, 0)) == NotUsed || OwnerOf(s, (req.dir, 1)) == NotUsed
    ensures Claims(s, req) <==> req.descCnt <= 512 && req.bufSize <= 9216
  {
    var owners := if req.dir == Tx then s.tx else s.rx;
    assert FirstUnused(owners, 1) == if owners[1] == NotUsed then Some(1) else FirstUnused(owners, 2);
  }

  /** How a channel is lost: nothing was granted, and the offloader owns it. */
  lemma LateFailureLoses(s: State, dir: Direction, ch: nat)
    requires Shape(s) && dir != NoDirection && Unused(s, dir) == Some(ch)
    ensures FailsLate(s, LateRequest(dir))
    ensures NextAccounts(s, NO_ACCOUNTS, Ask(LateRequest(dir))) == Accounts({}, {(dir, ch)})
    ensures ch < CHANNELS && OwnerOf(Next(s, Ask(LateRequest(dir))), (dir, ch)) == UsedByOffloader
  {
  }

  /** Two late failures lose both channels of a direction: after them no request of that direction
      can be granted, though no channel is live. */
  lemma {:induction false} LateFailuresExhaust(s: State, dir: Direction, req: Request)
    requires Shape(s) && dir != NoDirection && req.dir == dir
    requires OwnerOf(s, (dir, 0)) == NotUsed && OwnerOf(s, (dir, 1)) == NotUsed
    ensures var cmds := [Ask(LateRequest(dir)), Ask(LateRequest(dir))];
            && IsRun(cmds) && RunAccounts(s, NO_ACCOUNTS, cmds, 2) == Accounts({}, {(dir, 0), (dir, 1)})
            && !Claims(Run(s, cmds, 2), req)
  {
    var late := LateRequest(dir);
    var cmds := [Ask(late), Ask(late)];
    assert Unused(s, dir) == Some(0);
    LateFailureLoses(s, dir, 0);
    var s1 := Next(s, Ask(late));
    assert Run(s, cmds, 1) == s1;
    assert FirstUnused(if dir == Tx then s1.tx else s1.rx, 1) == Some(1);
    assert Unused(s1, dir) == Some(1);
    LateFailureLoses(s1, dir, 1);
    var s2 := Next(s1, Ask(late));
    assert Run(s, cmds, 2) == s2;
    assert Unused(s2, dir) == None;
    assert RunAccounts(s, NO_ACCOUNTS, cmds, 1) == Accounts({}, {(dir, 0)});
  }

  // ----- runs -----

  predicate IsRun(cmds: seq<Command>) {
    forall i :: 0 <= i < |cmds| ==> IsCommand(cmds[i])
  }

  /** The state after the first `n` commands. */
  function Run(s: State, cmds: seq<Command>, n: nat): (s': State)
    requires Shape(s) && IsRun(cmds) && n <= |cmds|
    ensures Shape(s')
  {
    if n == 0 then s else Next(Run(s, cmds, n - 1), cmds[n - 1])
  }

  function RunAccounts(s: State, a: Accounts, cmds: seq<Command>, n: nat): Accounts
    requires Shape(s) && IsRun(cmds) && n <= |cmds|
  {
    if n == 0 then a else NextAccounts(Run(s, cmds, n - 1), RunAccounts(s, a, cmds, n - 1), cmds[n - 1])
  }

  /** Over every run, whatever channels the commands name, the accounts are right and the driver's
      channels keep their owner and their event mask. */
  lemma {:induction false} RunKeeps(s: State, a: Accounts, cmds: seq<Command>, n: nat)
    requires Accounted(s, a) && IsRun(cmds) && n <= |cmds|
    ensures Accounted(Run(s, cmds, n), RunAccounts(s, a, cmds, n))
    ensures forall p: Place :: IsPlace(p) ==>
              && (OwnerOf(Run(s, cmds, n), p) == UsedByDriver <==> OwnerOf(s, p) == UsedByDriver)
              && (OwnerOf(s, p) == UsedByDriver ==> Masked(Run(s, cmds, n), p) == Masked(s, p))
  {
    if n > 0 {
      RunKeeps(s, a, cmds, n - 1);
      var before, cmd := Run(s, cmds, n - 1), cmds[n - 1];
      StepAccounted(before, RunAccounts(s, a, cmds, n - 1), cmd);
      forall p: Place | IsPlace(p)
        ensures OwnerOf(Next(before, cmd), p) == UsedByDriver <==> OwnerOf(before, p) == UsedByDriver
        ensures OwnerOf(before, p) == UsedByDriver ==> Masked(Next(before, cmd), p) == Masked(before, p)
      {
        DriverUntouched(before, cmd, p);
      }
      hide Next, NextAccounts, Accounted, Masked, OwnerOf, IsCommand;
    }
  }

  /** How many of the first `n` commands are requests that fail after claiming a channel. */
  function LateFailures(s: State, cmds: seq<Command>, n: nat): nat
    requires Shape(s) && IsRun(cmds) && n <= |cmds|
  {
    if n == 0 then 0
    else
      var cmd := cmds[n - 1];
      LateFailures(s, cmds, n - 1) + if cmd.Ask? && FailsLate(Run(s, cmds, n - 1), cmd.req) then 1 else 0
  }

  /** How many are releases of a channel that was lost. */
  function Recoveries(s: State, a: Accounts, cmds: seq<Command>, n: nat): nat
    requires Shape(s) && IsRun(cmds) && n <= |cmds|
  {
    if n == 0 then 0
    else
      Recoveries(s, a, cmds, n - 1) + if Recovers(RunAccounts(s, a, cmds, n - 1), cmds[n - 1]) then 1 else 0
  }

  predicate Recovers(a: Accounts, cmd: Command) {
    cmd.Release? && cmd.pointers && PlaceOf(cmd.c) in a.lost
  }

  /** How many channels are lost after the first `n` commands. */
  function LostAfter(s: State, a: Accounts, cmds: seq<Command>, n: nat): nat
    requires Shape(s) && IsRun(cmds) && n <= |cmds|
  {
    |RunAccounts(s, a, cmds, n).lost|
  }

  /** Conservation: every late failure loses one channel more, and only the release of a lost channel
      brings one back. */
  lemma {:induction false} LostCount(s: State, a: Accounts, cmds: seq<Command>, n: nat)
    requires Accounted(s, a) && IsRun(cmds) && n <= |cmds|
    ensures LostAfter(s, a, cmds, n) + Recoveries(s, a, cmds, n) == |a.lost| + LateFailures(s, cmds, n)
  {
    hide Accounted, IsCommand, Next, NextAccounts, Recovers, FailsLate;
    if n > 0 {
      hide LostAfter, Recoveries, LateFailures;
      LostCount(s, a, cmds, n - 1);
      LostByCommand(s, a, cmds, n - 1);
    }
  }

  /** The change of the three counts by the `i`-th command of a run. */
  lemma LostByCommand(s: State, a: Accounts, cmds: seq<Command>, i: nat)
    requires Accounted(s, a) && IsRun(cmds) && i < |cmds|
    ensures LostAfter(s, a, cmds, i + 1) + Recoveries(s, a, cmds, i + 1) - LateFailures(s, cmds, i + 1)
            == LostAfter(s, a, cmds, i) + Recoveries(s, a, cmds, i) - LateFailures(s, cmds, i)
  {
    RunKeeps(s, a, cmds, i);
    hide Accounted, FailsLate, Recovers, Next;
    StepLost(Run(s, cmds, i), RunAccounts(s, a, cmds, i), cmds[i]);
    hide NextAccounts;
  }

  lemma StepLost(s: State, a: Accounts, cmd: Command)
    requires Accounted(s, a) && IsCommand(cmd)
    ensures |NextAccounts(s, a, cmd).lost| + (if Recovers(a, cmd) then 1 else 0)
            == |a.lost| + if cmd.Ask? && FailsLate(s, cmd.req) then 1 else 0
  {
    if Recovers(a, cmd) {
      LostStaysIff(s, a, cmd, PlaceOf(cmd.c));
      assert a.lost == (a.lost - {PlaceOf(cmd.c)}) + {PlaceOf(cmd.c)};
    }
  }

  // ----- the driver -----

  class Channels {
    const tx: array<Owner>
    const rx: array<Owner>

    /** Channels whose event is masked. */
    var txMask: set<nat>
    var rxMask: set<nat>

    var grants: nat

    ghost var accounts: Accounts

    function Now(): State
      reads this, tx, rx
    {
      State(tx[..], rx[..], txMask, rxMask, grants)
    }

    predicate Tables()
      reads this
    {
      tx != rx && tx.Length == rx.Length == CHANNELS
    }

    ghost predicate Valid()
      reads this, tx, rx
    {
      Tables() && Accounted(Now(), accounts)
    }

    constructor (txOwners: seq<Owner>, rxOwners: seq<Owner>, txMask: set<nat>, rxMask: set<nat>)
      requires |txOwners| == |rxOwners| == CHANNELS
      requires UsedByOffloader !in txOwners && UsedByOffloader !in rxOwners
      ensures Valid() && fresh(tx) && fresh(rx) && accounts == NO_ACCOUNTS
      ensures tx.Length == rx.Length == 8
      ensures Now() == State(txOwners, rxOwners, txMask, rxMask, 0)
    {
      tx := new Owner[CHANNELS](i requires 0 <= i < CHANNELS => txOwners[i]);
      rx := new Owner[CHANNELS](i requires 0 <= i < CHANNELS => rxOwners[i]);
      this.txMask, this.rxMask := txMask, rxMask;
      grants := 0;
      accounts := NO_ACCOUNTS;
      new;
      assert tx[..] == txOwners && rx[..] == rxOwners;
    }

    /** find_free_tx_channel and find_free_rx_channel: the first unused channel becomes the
        offloader's. */
    method FindFree(owners: array<Owner>) returns (found: Option<nat>)
      requires owners.Length == CHANNELS
      modifies owners
      ensures found == FirstUnused(old(owners[..]), 0)
      ensures owners[..] == match found
                            case None => old(owners[..])
                            case Some(ch) => old(owners[..])[ch := UsedByOffloader]
    {
      for ch := 0 to MAX_QUEUES_TO_USE
        invariant owners[..] == old(owners[..])
        invariant FirstUnused(owners[..], 0) == FirstUnused(owners[..], ch)
      {
        if owners[ch] == NotUsed {
          owners[ch] := UsedByOffloader;
          return Some(ch);
        }
      }
      found := None;
    }

    /** The search in the direction of the request. */
    method Claim(dir: Direction) returns (num: Option<nat>)
      requires Tables() && dir != NoDirection
      modifies tx, rx
      ensures num == old(Unused(Now(), dir))
      ensures Now() == match num
                       case None => old(Now())
                       case Some(ch) => Put(old(Now()), (dir, ch), UsedByOffloader)
    {
      if dir == Tx {
        num := FindFree(tx);
      } else {
        num := FindFree(rx);
      }
    }

    /** request_channel: a channel is granted exactly if one can be claimed and the memory suffices; a
        request that fails after claiming a channel loses it. */
    method RequestChannel(req: Request) returns (channel: Option<Channel>)
      requires Valid()
      modifies this, tx, rx
      ensures Valid() && Now() == Next(old(Now()), Ask(req))
      ensures accounts == NextAccounts(old(Now()), old(accounts), Ask(req))
      ensures channel.Some? <==> old(Claims(Now(), req) && !FailsLate(Now(), req))
      ensures channel.Some? ==> req.descCnt <= 512 && req.bufSize <= 9216 && channel.value.num < 2
      ensures channel.Some? && req.dir == Tx ==> old(tx[..])[channel.value.num] == NotUsed && rx[..] == old(rx[..])
      ensures channel.Some? && req.dir == Rx ==> old(rx[..])[channel.value.num] == NotUsed && tx[..] == old(tx[..])
      ensures channel.Some? ==> channel.value !in old(accounts).live && channel.value in accounts.live
                                && PlaceOf(channel.value) == old(ClaimedPlace(Now(), req))
    {
      ghost var s, a := Now(), accounts;
      StepAccounted(s, a, Ask(req));
      hide Accounted;
      accounts := NextAccounts(s, a, Ask(req));
      channel := None;
      if req.descCnt > IPA_MAX_DESC_CNT || req.bufSize > IPA_MAX_BUFFER_SIZE {
        return;
      }
      if !req.mem.channel || !req.mem.vaPool || !req.mem.dmaPool {
        return;
      }
      if req.dir == NoDirection {
        return;
      }
      var num := Claim(req.dir);
      if num.None? || !req.mem.resources {
        return;
      }
      channel := Some(Channel(grants, req.dir, num.value));
      grants := grants + 1;
      assert channel.value !in a.live by { NotYetGranted(s, a, channel.value); }
    }

    /** release_channel, for any channel: only a channel of the offloader is given back. */
    method ReleaseChannel(c: Channel, pointers: bool) returns (status: Status)
      requires Valid() && InTable(c)
      modifies this, tx, rx
      ensures Valid() && Now() == Next(old(Now()), Release(c, pointers))
      ensures accounts == NextAccounts(old(Now()), old(accounts), Release(c, pointers))
      ensures c.dir != Tx ==> tx[..] == old(tx[..])
      ensures c.dir != Rx ==> rx[..] == old(rx[..])
      ensures status == if !pointers || c.dir == NoDirection then Invalid
                        else if old(Permitted(Now(), c)) then Done else NotPermitted
    {
      ghost var s, a := Now(), accounts;
      StepAccounted(s, a, Release(c, pointers));
      hide Accounted;
      accounts := NextAccounts(s, a, Release(c, pointers));
      if !pointers {
        return Invalid;
      }
      if c.dir == Rx && rx[c.num] != UsedByOffloader {
        return NotPermitted;
      }
      if c.dir == Tx && tx[c.num] != UsedByOffloader {
        return NotPermitted;
      }
      match c.dir {
        case Tx => tx[c.num] := NotUsed;
        case Rx => rx[c.num] := NotUsed;
        case NoDirection => return Invalid;
      }
      status := Done;
    }

    /** enable_event and disable_event, for any channel: only the event of the offloader's own
        channel is unmasked or masked. */
    method SetEvent(c: Channel, enable: bool) returns (status: Status)
      requires Valid() && InTable(c)
      modifies this`txMask, this`rxMask
      ensures Valid() && Now() == Next(old(Now()), SetEvents(c, enable))
      ensures status == Done ==> Masked(Now(), PlaceOf(c)) == !enable
      ensures c.dir != Tx ==> txMask == old(txMask)
      ensures c.dir != Rx ==> rxMask == old(rxMask)
      ensures status == if c.dir == NoDirection then Invalid else if old(Permitted(Now(), c)) then Done
              else NotPermitted
    {
      StepAccounted(Now(), accounts, SetEvents(c, enable));
      hide Accounted;
      if c.dir == Rx && rx[c.num] != UsedByOffloader {
        return NotPermitted;
      }
      if c.dir == Tx && tx[c.num] != UsedByOffloader {
        return NotPermitted;
      }
      match c.dir {
        case Tx => txMask := SetMask(txMask, c.num, enable);
        case Rx => rxMask := SetMask(rxMask, c.num, enable);
        case NoDirection => return Invalid;
      }
      status := Done;
    }
  }

  lemma NotYetGranted(s: State, a: Accounts, c: Channel)
    requires Accounted(s, a) && c.id == s.grants
    ensures c !in a.live
  {
  }

  /** Any run of commands, on any channels.  No run changes the owner or the event mask of a channel
      that the driver uses, and the offloader loses exactly one channel by each late failure until
      it releases that channel. */
  method Serve(channels: Channels, cmds: seq<Command>)
    requires channels.Valid() && IsRun(cmds)
    modifies channels, channels.tx, channels.rx
    ensures channels.Valid() && channels.Now() == Run(old(channels.Now()), cmds, |cmds|)
    ensures channels.accounts == RunAccounts(old(channels.Now()), old(channels.accounts), cmds, |cmds|)
    ensures forall p: Place :: IsPlace(p) ==>
              && (OwnerOf(channels.Now(), p) == UsedByDriver <==> OwnerOf(old(channels.Now()), p) == UsedByDriver)
              && (OwnerOf(channels.Now(), p) == UsedByDriver ==>
                    Masked(channels.Now(), p) == Masked(old(channels.Now()), p))
    ensures |channels.accounts.lost| + Recoveries(old(channels.Now()), old(channels.accounts), cmds, |cmds|)
            == |old(channels.accounts).lost| + LateFailures(old(channels.Now()), cmds, |cmds|)
  {
    ghost var s, a := channels.Now(), channels.accounts;
    RunKeeps(s, a, cmds, |cmds|);
    LostCount(s, a, cmds, |cmds|);
    hide Accounted, Next, NextAccounts, OwnerOf, Masked;
    for i := 0 to |cmds|
      invariant channels.Valid() && channels.Now() == Run(s, cmds, i)
      invariant channels.accounts == RunAccounts(s, a, cmds, i)
    {
      Perform(channels, cmds[i]);
    }
  }

  method Perform(channels: Channels, cmd: Command)
    requires channels.Valid() && IsCommand(cmd)
    modifies channels, channels.tx, channels.rx
    ensures channels.Valid() && channels.Now() == Next(old(channels.Now()), cmd)
    ensures channels.accounts == NextAccounts(old(channels.Now()), old(channels.accounts), cmd)
  {
    hide Accounted, Next;
    match cmd {
      case Ask(req) => var granted := channels.RequestChannel(req);
      case Release(c, pointers) => var status := channels.ReleaseChannel(c, pointers);
      case SetEvents(c, enable) => var status := channels.SetEvent(c, enable);
    }
  }
}
