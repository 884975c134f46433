/** One row of the Flexible Receive Parser (FRP) table, its four-word layout, and an
    interpreter for a table of rows.

    The driver never states what the hardware does with a row.  The reading fixed here is:
    a row hits when the four frame bytes at word `frameOffset` agree with `matchData` on the
    bits of `matchEn`; without `nc` a hit decides the frame and a miss goes on to the next
    row; with `nc` a hit goes on to the next row and a miss jumps to `okIndex`. */
module FrpRow {
  /** The unsigned 8-bit numbers. */
  type Byte = n: nat | n < 256

  /** A 32-bit word as its four little-endian bytes.  Every shift and mask this code applies
      to a word is by whole bytes. */
  datatype Word = Word(b0: Byte, b1: Byte, b2: Byte, b3: Byte)

  const ZERO_WORD := Word(0, 0, 0, 0)

  /** The bytes of a received frame.  Bytes past its end are whatever the parser reads there. */
  type Frame = nat -> Byte

  datatype Row = Row(matchData: Word, matchEn: Word, af: bool, rf: bool, im: bool, nc: bool,
                     frameOffset: Byte, okIndex: Byte, dmaChNo: Byte, res2: Word)

  const ZERO_ROW := Row(ZERO_WORD, ZERO_WORD, false, false, false, false, 0, 0, 0, ZERO_WORD)

  /** Accepts every frame. */
  const ALL_PASS_ROW := ZERO_ROW.(af := true)

  const WORDS_PER_ROW := 4

  // ----- the four 32-bit words of a row -----

  function FlagByte(r: Row): Byte {
    (if r.af then 1 else 0) + (if r.rf then 2 else 0) + (if r.im then 4 else 0) + (if r.nc then 8 else 0)
  }

  function ControlWord(r: Row): Word {
    Word(FlagByte(r), r.frameOffset, r.okIndex, r.dmaChNo)
  }

  function Words(r: Row): seq<Word> {
    [r.matchData, r.matchEn, ControlWord(r), r.res2]
  }

  /** How the hardware reads a row back from four consecutive words of instruction memory. */
  function RowOfWords(ws: seq<Word>): Row
    requires |ws| == WORDS_PER_ROW
  {
    var c := ws[2];
    Row(ws[0], ws[1], c.b0 % 2 == 1, (c.b0 / 2) % 2 == 1, (c.b0 / 4) % 2 == 1, (c.b0 / 8) % 2 == 1,
        c.b1, c.b2, c.b3, ws[3])
  }

  /** The packed structure survives the trip through instruction memory. */
  lemma RowOfWordsOfRow(r: Row)
    ensures RowOfWords(Words(r)) == r
  {
    var b := FlagByte(r);
    assert (b % 2 == 1) == r.af && ((b / 2) % 2 == 1) == r.rf && ((b / 4) % 2 == 1) == r.im
        && ((b / 8) % 2 == 1) == r.nc;
  }

  /** The 32-bit number of a word. */
  function WordValue(w: Word): nat {
    w.b0 + 0x100 * w.b1 + 0x1_0000 * w.b2 + 0x100_0000 * w.b3
  }

  function Bit(b: bool): nat { if b then 1 else 0 }

  /** The layout of the packed structure: match data, match enable, then one word with the flags in
      bits 0 to 3, the frame offset from bit 8, the jump index from bit 16 and the channel from
      bit 24, then the reserved word. */
  lemma RowLayout(r: Row)
    ensures |Words(r)| == 4 && Words(r)[0] == r.matchData && Words(r)[1] == r.matchEn && Words(r)[3] == r.res2
    ensures WordValue(Words(r)[2])
            == Bit(r.af) + 2 * Bit(r.rf) + 4 * Bit(r.im) + 8 * Bit(r.nc)
               + 0x100 * r.frameOffset + 0x1_0000 * r.okIndex + 0x100_0000 * r.dmaChNo
  {
  }

  /** The fields of a row that the driver clears and never sets. */
  predicate PlainRow(r: Row) {
    !r.im && r.dmaChNo == 0 && r.res2 == ZERO_WORD
  }

  // ----- matching -----

  /** The little-endian 32-bit word that starts at byte `i`. */
  function WordAt(frame: Frame, i: nat): Word {
    Word(frame(i), frame(i + 1), frame(i + 2), frame(i + 3))
  }

  type Bits = bv8

  /** The eight bits of a number. */
  function BitsOf(n: Byte): (b: Bits)
    ensures b as nat == n
  {
    if n == 0 then 0 else BitsOf(n - 1) + 1
  }

  predicate BitsAgree(b: Bits, data: Bits, mask: Bits) {
    (b ^ data) & mask == 0
  }

  /** (b ^ data) & mask == 0 */
  predicate ByteAgrees(b: Byte, data: Byte, mask: Byte) {
    BitsAgree(BitsOf(b), BitsOf(data), BitsOf(mask))
  }

  /** (w ^ data) & mask == 0 */
  predicate Agrees(w: Word, data: Word, mask: Word) {
    && ByteAgrees(w.b0, data.b0, mask.b0) && ByteAgrees(w.b1, data.b1, mask.b1)
    && ByteAgrees(w.b2, data.b2, mask.b2) && ByteAgrees(w.b3, data.b3, mask.b3)
  }

  predicate Hit(r: Row, frame: Frame) {
    Agrees(WordAt(frame, 4 * r.frameOffset), r.matchData, r.matchEn)
  }

  // ----- the interpreter -----

  datatype Verdict = Accept | Drop

  /** `Stuck`: a deciding row with no single decision, a jump that does not go forward, or a
      walk past the last row. */
  datatype Outcome = Decided(verdict: Verdict) | Stuck

  function RowOutcome(r: Row): Outcome {
    if r.af && !r.rf then Decided(Accept)
    else if r.rf && !r.af then Decided(Drop)
    else Stuck
  }

  function Run(rows: seq<Row>, frame: Frame, pc: nat): Outcome
    decreases |rows| - pc
  {
    if pc >= |rows| then
      Stuck
    else
      var r := rows[pc];
      if !r.nc then
        if Hit(r, frame) then RowOutcome(r) else Run(rows, frame, pc + 1)
      else if Hit(r, frame) then
        Run(rows, frame, pc + 1)
      else if r.okIndex <= pc then
        Stuck
      else
        Run(rows, frame, r.okIndex)
  }
}
