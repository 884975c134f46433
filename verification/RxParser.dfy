/** The receive parser's registers and its indirect window into instruction memory, and the two
    routines that write one row through that window. */
module RxParser {
  import opened FrpRow
  import opened Waits

  /** Instruction memory holds 1024 words: 256 rows. */
  const IMEM_WORDS := 1024

  /** A register as its one named bit and the remaining bits. */
  datatype RxConfig = RxConfig(receiveEnable: bool, other: nat)
  datatype OpMode = OpMode(parserEnable: bool, other: nat)

  datatype AccessCtrl = AccessCtrl(addr: nat, write: bool, startBusy: bool)

  /** A word stored in instruction memory, and what was enabled at that moment. */
  datatype TableWrite = TableWrite(addr: nat, data: Word, receiving: bool, parsing: bool)

  /** What happens on the window: a wait for it to be ready, and writes to its two registers. */
  datatype BusStep = WaitReady | WriteData(data: Word) | WriteCtrl(ctrl: AccessCtrl)

  /** One word by dwxgmac3_rxp_update_single_entry: ready, data, address, operation, start, done. */
  function UpdateSteps(w: Word, addr: nat): seq<BusStep> {
    [WaitReady, WriteData(w), WriteCtrl(AccessCtrl(addr, false, false)),
     WriteCtrl(AccessCtrl(addr, true, false)), WriteCtrl(AccessCtrl(addr, true, true)), WaitReady]
  }

  /** One word by dwxgmac2_rx_parser_write_entry: data, address, ready, operation, start, done. */
  function WriteSteps(w: Word, addr: nat): seq<BusStep> {
    [WriteData(w), WriteCtrl(AccessCtrl(addr, false, false)), WaitReady,
     WriteCtrl(AccessCtrl(addr, true, false)), WriteCtrl(AccessCtrl(addr, true, true)), WaitReady]
  }

  /** real_pos & XGMAC_ADDR */
  function MaskedAddr(n: nat): (a: nat)
    ensures a < IMEM_WORDS
  {
    n % IMEM_WORDS
  }

  /** The address of a row's first word. */
  function RowAddr(pos: nat): (a: nat)
    ensures a == 4 * (pos % 256) && a + WORDS_PER_ROW <= IMEM_WORDS
  {
    assert pos * WORDS_PER_ROW == (pos / 256) * IMEM_WORDS + 4 * (pos % 256);
    MaskedAddr(pos * WORDS_PER_ROW)
  }

  /** A row's words are never split by the wrap-around of the address. */
  lemma RowAddrWord(pos: nat, i: nat)
    requires i < WORDS_PER_ROW
    ensures MaskedAddr(pos * WORDS_PER_ROW + i) == RowAddr(pos) + i
  {
    RestOfRows(pos / 256, 4 * (pos % 256) + i);
  }

  lemma RestOfRows(q: nat, x: nat)
    requires x < 1024
    ensures (q * 1024 + x) % 1024 == x
  {
  }

  /** Memory after storing `ws` from word `at` on. */
  function Stored(mem: seq<Word>, at: nat, ws: seq<Word>): (r: seq<Word>)
    requires at + |ws| <= |mem|
    ensures |r| == |mem|
  {
    mem[..at] + ws + mem[at + |ws|..]
  }

  lemma StoredNext(mem: seq<Word>, at: nat, ws: seq<Word>, w: Word)
    requires at + |ws| < |mem|
    ensures Stored(mem, at, ws)[at + |ws| := w] == Stored(mem, at, ws + [w])
  {
  }

  /** `later` is `earlier` and words stored with these two settings. */
  ghost predicate LogGrew(earlier: seq<TableWrite>, later: seq<TableWrite>, receiving: bool, parsing: bool) {
    && earlier <= later
    && forall i :: |earlier| <= i < |later| ==> later[i].receiving == receiving && later[i].parsing == parsing
  }

  lemma LogGrewRefl(a: seq<TableWrite>, receiving: bool, parsing: bool)
    ensures LogGrew(a, a, receiving, parsing)
  {
  }

  lemma LogGrewTrans(a: seq<TableWrite>, b: seq<TableWrite>, c: seq<TableWrite>, receiving: bool, parsing: bool)
    requires LogGrew(a, b, receiving, parsing) && LogGrew(b, c, receiving, parsing)
    ensures LogGrew(a, c, receiving, parsing)
  {
  }

  class Device {
    var rxConfig: RxConfig
    var opMode: OpMode
    var imem: seq<Word>
    var accessData: Word
    var accessCtrl: AccessCtrl
    var validEntries: nat
    var parsableEntries: nat

    /** Whether the n-th wait for the hardware times out: any pattern whatever. */
    const timesOut: nat -> bool
    var waits: nat

    ghost var log: seq<TableWrite>

    /** Everything that has happened on the window. */
    ghost var bus: seq<BusStep>

    ghost predicate Valid()
      reads this
    {
      |imem| == IMEM_WORDS
    }

    constructor (timesOut: nat -> bool, rxConfig: RxConfig, opMode: OpMode, imem: seq<Word>)
      requires |imem| == IMEM_WORDS
      ensures Valid() && this.rxConfig == rxConfig && this.opMode == opMode && this.imem == imem
      ensures this.timesOut == timesOut && waits == 0 && log == []
    {
      this.timesOut := timesOut;
      this.rxConfig := rxConfig;
      this.opMode := opMode;
      this.imem := imem;
      accessData := ZERO_WORD;
      accessCtrl := AccessCtrl(0, false, false);
      validEntries, parsableEntries := 0, 0;
      waits := 0;
      log, bus := [], [];
    }

    /** The registers that only the configuration routines change. */
    twostate predicate SameConfig()
      reads this
    {
      rxConfig == old(rxConfig) && opMode == old(opMode)
      && validEntries == old(validEntries) && parsableEntries == old(parsableEntries)
    }

    /** No wait from the `n`-th to the last one made so far timed out. */
    ghost predicate NoTimeoutSince(n: nat)
      reads this
    {
      NoTimeout(timesOut, n, waits)
    }

    /** Every word stored since the log was `earlier` was stored with these two settings. */
    ghost predicate StoredWith(earlier: seq<TableWrite>, receiving: bool, parsing: bool)
      reads this
    {
      LogGrew(earlier, log, receiving, parsing)
    }

    /** readl_poll_timeout, or the bounded busy loop of the other writer. */
    method Wait() returns (ok: bool)
      modifies this`waits, this`bus
      ensures waits == old(waits) + 1 && ok == !timesOut(old(waits)) && bus == old(bus) + [WaitReady]
    {
      ok := !timesOut(waits);
      waits := waits + 1;
      bus := bus + [WaitReady];
    }

    /** A write to the data register of the window. */
    method WriteAccessData(w: Word)
      modifies this`accessData, this`bus
      ensures accessData == w && bus == old(bus) + [WriteData(w)]
    {
      accessData := w;
      bus := bus + [WriteData(w)];
    }

    /** A write to the control register of the window; setting the start bit of a write access
        stores the data word. */
    method WriteAccessCtrl(c: AccessCtrl)
      requires Valid() && c.addr < IMEM_WORDS
      modifies this`accessCtrl, this`imem, this`log, this`bus
      ensures Valid() && accessCtrl == c && bus == old(bus) + [WriteCtrl(c)]
      ensures imem == if c.write && c.startBusy then old(imem)[c.addr := accessData] else old(imem)
      ensures log == old(log) + if c.write && c.startBusy
                                then [TableWrite(c.addr, accessData, rxConfig.receiveEnable, opMode.parserEnable)]
                                else []
    {
      accessCtrl := c;
      bus := bus + [WriteCtrl(c)];
      if c.write && c.startBusy {
        imem := imem[c.addr := accessData];
        log := log + [TableWrite(c.addr, accessData, rxConfig.receiveEnable, opMode.parserEnable)];
      }
    }

    /** The operation and the start of a write of the data word at `addr`. */
    method StartWrite(addr: nat)
      requires Valid() && addr < IMEM_WORDS
      modifies this`accessCtrl, this`imem, this`log, this`bus
      ensures Valid() && imem == old(imem)[addr := accessData]
      ensures StoredWith(old(log), rxConfig.receiveEnable, opMode.parserEnable)
      ensures bus == old(bus) + [WriteCtrl(AccessCtrl(addr, true, false)), WriteCtrl(AccessCtrl(addr, true, true))]
    {
      WriteAccessCtrl(AccessCtrl(addr, true, false));
      WriteAccessCtrl(AccessCtrl(addr, true, true));
    }

    /** One word of dwxgmac3_rxp_update_single_entry: ready, data, address, operation, start,
        done. */
    method UpdateWord(w: Word, addr: nat) returns (ok: bool, ghost stored: bool)
      requires Valid() && addr < IMEM_WORDS
      modifies this
      ensures Valid() && SameConfig()
      ensures StoredWith(old(log), rxConfig.receiveEnable, opMode.parserEnable)
      ensures imem == if stored then old(imem)[addr := w] else old(imem)
      ensures ok ==> bus == old(bus) + UpdateSteps(w, addr)
      ensures ok ==> stored && waits == old(waits) + 2
      ensures ok == NoTimeoutSince(old(waits)) && waits > old(waits)
    {
      stored := false;
      ok := Wait();
      if !ok {
        return;
      }
      WriteAccessData(w);
      WriteAccessCtrl(AccessCtrl(addr, false, false));
      StartWrite(addr);
      stored := true;
      ok := Wait();
    }

    /** One word of dwxgmac2_rx_parser_write_entry: data, address, ready, operation, start,
        done. */
    method WriteWord(w: Word, addr: nat) returns (ok: bool, ghost stored: bool)
      requires Valid() && addr < IMEM_WORDS
      modifies this
      ensures Valid() && SameConfig()
      ensures StoredWith(old(log), rxConfig.receiveEnable, opMode.parserEnable)
      ensures imem == if stored then old(imem)[addr := w] else old(imem)
      ensures ok ==> bus == old(bus) + WriteSteps(w, addr)
      ensures ok ==> stored && waits == old(waits) + 2
      ensures ok == NoTimeoutSince(old(waits)) && waits > old(waits)
    {
      stored := false;
      WriteAccessData(w);
      WriteAccessCtrl(AccessCtrl(addr, false, false));
      ok := Wait();
      if !ok {
        return;
      }
      StartWrite(addr);
      stored := true;
      ok := Wait();
    }

    /** dwxgmac3_rxp_update_single_entry; `n` is how many words of the row were stored. */
    method UpdateSingleEntry(row: Row, pos: nat) returns (ok: bool, ghost n: nat)
      requires Valid()
      modifies this
      ensures Valid() && SameConfig()
      ensures StoredWith(old(log), rxConfig.receiveEnable, opMode.parserEnable)
      ensures n <= WORDS_PER_ROW && imem == Stored(old(imem), RowAddr(pos), Words(row)[..n])
      ensures ok ==> n == WORDS_PER_ROW && waits == old(waits) + 8
      ensures ok == NoTimeoutSince(old(waits)) && waits > old(waits)
    {
      var ws := Words(row);
      n := 0;
      hide MaskedAddr, RowAddr, LogGrew;
      assert StoredWith(old(log), rxConfig.receiveEnable, opMode.parserEnable) by {
        LogGrewRefl(log, rxConfig.receiveEnable, opMode.parserEnable);
      }
      for i := 0 to WORDS_PER_ROW
        invariant n == i && Valid() && SameConfig() && waits == old(waits) + 2 * i && NoTimeoutSince(old(waits))
        invariant StoredWith(old(log), rxConfig.receiveEnable, opMode.parserEnable)
        invariant imem == Stored(old(imem), RowAddr(pos), ws[..n])
      {
        var addr := MaskedAddr(pos * WORDS_PER_ROW + i);
        RowAddrWord(pos, i);
        ghost var stored, earlier := *, log;
        ok, stored := UpdateWord(ws[i], addr);
        LogGrewTrans(old(log), earlier, log, rxConfig.receiveEnable, opMode.parserEnable);
        StoredNext(old(imem), RowAddr(pos), ws[..i], ws[i]);
        assert ws[..i + 1] == ws[..i] + [ws[i]];
        n := if stored then i + 1 else i;
        if !ok {
          return;
        }
      }
      ok := true;
    }

    /** dwxgmac2_rx_parser_write_entry; `n` is how many words of the row were stored. */
    method WriteEntry(ws: seq<Word>, pos: nat) returns (ok: bool, ghost n: nat)
      requires Valid() && |ws| == WORDS_PER_ROW
      modifies this
      ensures Valid() && SameConfig()
      ensures StoredWith(old(log), rxConfig.receiveEnable, opMode.parserEnable)
      ensures n <= WORDS_PER_ROW && imem == Stored(old(imem), RowAddr(pos), ws[..n])
      ensures ok ==> n == WORDS_PER_ROW && waits == old(waits) + 8
      ensures ok == NoTimeoutSince(old(waits)) && waits > old(waits)
    {
      n := 0;
      hide MaskedAddr, RowAddr, LogGrew;
      assert StoredWith(old(log), rxConfig.receiveEnable, opMode.parserEnable) by {
        LogGrewRefl(log, rxConfig.receiveEnable, opMode.parserEnable);
      }
      for i := 0 to WORDS_PER_ROW
        invariant n == i && Valid() && SameConfig() && waits == old(waits) + 2 * i && NoTimeoutSince(old(waits))
        invariant StoredWith(old(log), rxConfig.receiveEnable, opMode.parserEnable)
        invariant imem == Stored(old(imem), RowAddr(pos), ws[..n])
      {
        var addr := MaskedAddr(pos * WORDS_PER_ROW + i);
        RowAddrWord(pos, i);
        ghost var stored, earlier := *, log;
        ok, stored := WriteWord(ws[i], addr);
        LogGrewTrans(old(log), earlier, log, rxConfig.receiveEnable, opMode.parserEnable);
        StoredNext(old(imem), RowAddr(pos), ws[..i], ws[i]);
        assert ws[..i + 1] == ws[..i] + [ws[i]];
        n := if stored then i + 1 else i;
        if !ok {
          return;
        }
      }
      ok := true;
    }
  }
}
