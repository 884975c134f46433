/** The direct configuration of the parser (dwxgmac2_rx_parser_init): a ready-made table of rows,
    written by the second row writer. */
module RxpDirect {
  import opened FrpRow
  import opened RxParser
  import opened Waits
  import opened Wrappers

  /** A table of rows, each as its four words; `npe` and `nve` count parsable and valid rows. */
  datatype ParserCfg = ParserCfg(npe: nat, nve: nat, entries: seq<seq<Word>>)

  datatype InitStatus = Done | Refused | Busy

  predicate CfgValid(cfg: ParserCfg) {
    cfg.nve <= |cfg.entries| && forall r :: 0 <= r < |cfg.entries| ==> |cfg.entries[r]| == WORDS_PER_ROW
  }

  /** Instruction memory holds the first `n` rows: word `4 * r + i` is word `i` of row `r`. */
  predicate HoldsRows(mem: seq<Word>, entries: seq<seq<Word>>, n: nat)
    requires n <= |entries| && 4 * n <= |mem| && forall r :: 0 <= r < |entries| ==> |entries[r]| == WORDS_PER_ROW
  {
    forall r, i :: 0 <= r < n && 0 <= i < WORDS_PER_ROW ==> mem[4 * r + i] == entries[r][i]
  }

  lemma HoldsOneMore(mem: seq<Word>, entries: seq<seq<Word>>, n: nat)
    requires |mem| == IMEM_WORDS && n < |entries| && n < 256
    requires forall r :: 0 <= r < |entries| ==> |entries[r]| == WORDS_PER_ROW
    requires HoldsRows(mem, entries, n)
    ensures RowAddr(n) == 4 * n && HoldsRows(Stored(mem, 4 * n, entries[n]), entries, n + 1)
  {
    var mem' := Stored(mem, 4 * n, entries[n]);
    forall r, i | 0 <= r < n + 1 && 0 <= i < WORDS_PER_ROW
      ensures mem'[4 * r + i] == entries[r][i]
    {
      if r == n { assert mem'[4 * n + i] == entries[n][i]; }
    }
  }

  /** dwxgmac2_rx_parser_config */
  method ParserConfig(dev: Device, cfg: ParserCfg) returns (status: InitStatus)
    requires dev.Valid() && CfgValid(cfg) && cfg.nve <= 256
    modifies dev
    ensures dev.Valid() && dev.rxConfig == old(dev.rxConfig) && dev.opMode == old(dev.opMode)
    ensures dev.StoredWith(old(dev.log), dev.rxConfig.receiveEnable, dev.opMode.parserEnable)
    ensures status == Refused <==> cfg.npe == 0 || cfg.nve == 0
    ensures status == Busy ==> !dev.NoTimeoutSince(old(dev.waits))
    ensures status == Done ==> && HoldsRows(dev.imem, cfg.entries, cfg.nve) && dev.NoTimeoutSince(old(dev.waits))
                               && dev.parsableEntries == cfg.npe - 1 && dev.validEntries == cfg.nve - 1
    ensures dev.waits >= old(dev.waits)
  {
    if cfg.npe == 0 || cfg.nve == 0 {
      return Refused;
    }
    dev.parsableEntries, dev.validEntries := cfg.npe - 1, cfg.nve - 1;
    for i := 0 to cfg.nve
      invariant dev.Valid() && dev.rxConfig == old(dev.rxConfig) && dev.opMode == old(dev.opMode)
      invariant dev.parsableEntries == cfg.npe - 1 && dev.validEntries == cfg.nve - 1
      invariant dev.StoredWith(old(dev.log), dev.rxConfig.receiveEnable, dev.opMode.parserEnable)
      invariant dev.NoTimeoutSince(old(dev.waits)) && dev.waits >= old(dev.waits)
      invariant HoldsRows(dev.imem, cfg.entries, i)
    {
      ghost var mem, log := dev.imem, dev.log;
      var ok;
      ghost var n;
      ok, n := dev.WriteEntry(cfg.entries[i], i);
      LogGrewTrans(old(dev.log), log, dev.log, dev.rxConfig.receiveEnable, dev.opMode.parserEnable);
      if !ok {
        return Busy;
      }
      assert cfg.entries[i][..WORDS_PER_ROW] == cfg.entries[i];
      HoldsOneMore(mem, cfg.entries, i);
    }
    status := Done;
  }

  /** The refusals before anything is touched. */
  predicate TooLarge(cfg: Option<ParserCfg>, frpsel: bool, maxEntries: nat) {
    cfg.None? || !frpsel || cfg.value.nve > maxEntries || cfg.value.npe > maxEntries
  }

  /** dwxgmac2_rx_parser_init.  Words are stored only while reception and the parser are off, and
      the parser ends up on only with the whole table stored.  Unlike dwxgmac3_rxp_config, a
      timeout leaves reception off: it is restored on every other exit. */
  method ParserInit(dev: Device, cfg: Option<ParserCfg>, frpsel: bool, maxEntries: nat) returns (status: InitStatus)
    requires dev.Valid() && (cfg.Some? ==> CfgValid(cfg.value)) && maxEntries <= 256
    modifies dev
    ensures dev.Valid() && dev.opMode.other == old(dev.opMode.other) && dev.rxConfig.other == old(dev.rxConfig.other)
    ensures dev.StoredWith(old(dev.log), false, false)
    ensures status == Busy <==> !dev.NoTimeoutSince(old(dev.waits))
    ensures dev.rxConfig == if status == Busy then old(dev.rxConfig).(receiveEnable := false) else old(dev.rxConfig)
    ensures TooLarge(cfg, frpsel, maxEntries) ==> status == Refused && unchanged(dev)
    ensures !TooLarge(cfg, frpsel, maxEntries) && status != Busy ==>
              (status == Refused <==> cfg.value.nve == 0 || cfg.value.npe == 0)
    ensures status == Done ==> && dev.opMode.parserEnable && cfg.Some? && cfg.value.nve <= maxEntries
                               && HoldsRows(dev.imem, cfg.value.entries, cfg.value.nve)
                               && dev.validEntries == cfg.value.nve - 1 && dev.parsableEntries == cfg.value.npe - 1
    ensures dev.opMode.parserEnable ==>
              status == Done || (status == Refused && dev.opMode == old(dev.opMode) && dev.log == old(dev.log))
  {
    var oldValue := dev.rxConfig;
    if cfg.None? || !frpsel {
      return Refused;
    }
    if cfg.value.nve > maxEntries || cfg.value.npe > maxEntries {
      return Refused;
    }
    dev.rxConfig := oldValue.(receiveEnable := false);
    dev.opMode := dev.opMode.(parserEnable := false);
    var ok := dev.Wait();
    if !ok {
      return Busy;
    }
    if cfg.value.nve == 0 || cfg.value.npe == 0 {
      dev.rxConfig := oldValue;
      return Refused;
    }
    ghost var waits := dev.waits;
    status := ParserConfig(dev, cfg.value);
    NoTimeoutSplit(dev.timesOut, old(dev.waits), waits, dev.waits);
    if status != Done {
      return;
    }
    dev.opMode := dev.opMode.(parserEnable := true);
    dev.rxConfig := oldValue;
  }
}
