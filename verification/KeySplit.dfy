/** The word split of tc_fill_entry: a masked 32-bit key at any byte offset becomes one
    word-aligned row, or a main row and a fragment row. */
module KeySplit {
  import opened FrpRow

  /** One u32 selector key at its final byte offset. */
  datatype Key = Key(off: nat, data: Word, mask: Word)

  /** The meaning of a key: it matches the four frame bytes from `off` on. */
  predicate KeyMatches(key: Key, frame: Frame) {
    Agrees(WordAt(frame, key.off), key.data, key.mask)
  }

  // ----- the split as the driver computes it -----

  /** w << (rem * 8) */
  function ShiftUp(w: Word, rem: nat): Word
    requires 1 <= rem <= 3
  {
    match rem
    case 1 => Word(0, w.b0, w.b1, w.b2)
    case 2 => Word(0, 0, w.b0, w.b1)
    case _ => Word(0, 0, 0, w.b0)
  }

  /** w >> (rem * 8) */
  function ShiftDown(w: Word, rem: nat): Word
    requires 1 <= rem <= 3
  {
    match rem
    case 1 => Word(w.b1, w.b2, w.b3, 0)
    case 2 => Word(w.b2, w.b3, 0, 0)
    case _ => Word(w.b3, 0, 0, 0)
  }

  /** w & GENMASK(31, rem * 8) */
  function KeepHigh(w: Word, rem: nat): Word
    requires 1 <= rem <= 3
  {
    Word(0, if rem <= 1 then w.b1 else 0, if rem <= 2 then w.b2 else 0, w.b3)
  }

  /** w & GENMASK(rem * 8 - 1, 0) */
  function KeepLow(w: Word, rem: nat): Word
    requires 1 <= rem <= 3
  {
    Word(w.b0, if rem >= 2 then w.b1 else 0, if rem >= 3 then w.b2 else 0, 0)
  }

  /** The largest byte offset at which the 8-bit frame offsets of both rows are exact. */
  const OFF_LIMIT := 1019

  function MainRow(key: Key): Row
    requires key.off <= OFF_LIMIT
  {
    var rem := key.off % 4;
    var base := ZERO_ROW.(frameOffset := key.off / 4);
    if rem == 0 then
      base.(matchEn := key.mask, matchData := key.data)
    else
      base.(matchEn := KeepHigh(ShiftUp(key.mask, rem), rem),
            matchData := KeepHigh(ShiftUp(key.data, rem), rem))
  }

  function FragRow(key: Key): Row
    requires key.off <= OFF_LIMIT && key.off % 4 != 0
  {
    var rem := key.off % 4;
    ZERO_ROW.(frameOffset := key.off / 4 + 1,
              matchEn := KeepLow(ShiftDown(key.mask, rem), rem),
              matchData := KeepLow(ShiftDown(key.data, rem), rem))
  }

  /** What the emitted rows test: the main row and, if there is one, the fragment row. */
  predicate RowsHit(key: Key, frame: Frame)
    requires key.off <= OFF_LIMIT
  {
    Hit(MainRow(key), frame) && (key.off % 4 != 0 ==> Hit(FragRow(key), frame))
  }

  // ----- when the split is exact -----

  /** The fragment is shifted down by `rem` bytes where `4 - rem` are missing.  The split is
      exact for an even remainder, and for an odd one only when the bytes it mixes up ask
      the same question. */
  predicate SplitExact(key: Key) {
    match key.off % 4
    case 1 => key.mask.b1 == key.mask.b3 && ByteAgrees(key.data.b1, key.data.b3, key.mask.b3)
    case 3 => key.mask.b1 == 0 && key.mask.b2 == 0 && key.mask.b3 == 0
    case _ => true
  }

  // ----- proofs -----

  lemma OwnBitsAgree(d: Bits, m: Bits)
    ensures BitsAgree(d, d, m)
  {
  }

  lemma OwnByteAgrees(d: Byte, m: Byte)
    ensures ByteAgrees(d, d, m)
  {
    OwnBitsAgree(BitsOf(d), BitsOf(m));
  }

  lemma BitsTestMoves(b: Bits, d: Bits, d': Bits, m: Bits)
    requires BitsAgree(d, d', m) && BitsAgree(b, d, m)
    ensures BitsAgree(b, d', m)
  {
  }

  lemma BitsAgreeSymmetric(d: Bits, d': Bits, m: Bits)
    requires BitsAgree(d, d', m)
    ensures BitsAgree(d', d, m)
  {
  }

  /** Data bytes that agree under the mask give the same test. */
  lemma SameByteTest(b: Byte, d: Byte, d': Byte, m: Byte)
    requires ByteAgrees(d, d', m)
    ensures ByteAgrees(b, d, m) == ByteAgrees(b, d', m)
  {
    hide BitsAgree;
    BitsAgreeSymmetric(BitsOf(d), BitsOf(d'), BitsOf(m));
    if ByteAgrees(b, d, m) {
      BitsTestMoves(BitsOf(b), BitsOf(d), BitsOf(d'), BitsOf(m));
    } else if ByteAgrees(b, d', m) {
      BitsTestMoves(BitsOf(b), BitsOf(d'), BitsOf(d), BitsOf(m));
    }
  }

  lemma FlipUnderMask(d: Bits, d': Bits, m: Bits, x: Bits)
    requires BitsAgree(d', d, m) && x & m == x && x != 0
    ensures !BitsAgree(d' ^ x, d, m)
  {
  }

  lemma FlipOutsideMask(d: Bits, m: Bits, x: Bits)
    requires x & m == 0
    ensures BitsAgree(d ^ x, d, m)
  {
  }

  lemma MaskDifference(m: Bits, m': Bits)
    ensures (m & !m') & m == m & !m' && (m & !m') & m' == 0
  {
  }

  lemma MasksDiffer(m: Bits, m': Bits)
    requires m != m'
    ensures m & !m' != 0 || m' & !m != 0
  {
  }

  /** A bit that only the first mask asks for tells the two tests apart. */
  lemma FlippedBitsDistinguish(d: Bits, m: Bits, d': Bits, m': Bits, x: Bits)
    requires x == m & !m' && x != 0 && BitsAgree(d', d, m)
    ensures BitsAgree(d' ^ x, d', m') && !BitsAgree(d' ^ x, d, m)
  {
    hide BitsAgree;
    MaskDifference(m, m');
    FlipUnderMask(d, d', m, x);
    FlipOutsideMask(d', m', x);
  }

  /** Bits that pass one of two tests and fail the other. */
  lemma DistinguishingBits(d: Bits, m: Bits, d': Bits, m': Bits) returns (b: Bits)
    requires m != m' || !BitsAgree(d, d', m)
    ensures BitsAgree(b, d, m) != BitsAgree(b, d', m')
  {
    hide BitsAgree;
    OwnBitsAgree(d, m);
    OwnBitsAgree(d', m');
    var x, x' := m & !m', m' & !m;
    if !BitsAgree(d, d', m') {
      b := d;
    } else if !BitsAgree(d', d, m) {
      b := d';
    } else if x != 0 {
      b := d' ^ x;
      FlippedBitsDistinguish(d, m, d', m', x);
    } else {
      b := d ^ x';
      MasksDiffer(m, m');
      FlippedBitsDistinguish(d', m', d, m, x');
    }
  }

  lemma BitsOfBits(b: Bits)
    ensures b as nat < 256 && BitsOf(b as nat) == b
  {
    var c := BitsOf(b as nat);
    assert (b as nat) as Bits == b && (c as nat) as Bits == c;
  }

  /** A byte that passes one of two byte tests and fails the other. */
  lemma DistinguishingByte(d: Byte, m: Byte, d': Byte, m': Byte) returns (b: Byte)
    requires m != m' || !ByteAgrees(d, d', m)
    ensures ByteAgrees(b, d, m) != ByteAgrees(b, d', m')
  {
    hide BitsAgree;
    assert m != m' ==> BitsOf(m) != BitsOf(m');
    var bits := DistinguishingBits(BitsOf(d), BitsOf(m), BitsOf(d'), BitsOf(m'));
    BitsOfBits(bits);
    b := bits as nat;
  }

  lemma ZeroBitsAgree(b: Bits, d: Bits)
    ensures BitsAgree(b, d, 0)
  {
  }

  lemma ZeroMaskAgrees(b: Byte, d: Byte)
    ensures ByteAgrees(b, d, 0)
  {
    ZeroBitsAgree(BitsOf(b), BitsOf(d));
  }

  /** What the rows test, read off byte by byte. */
  predicate RowTest(rem: nat, w: Word, data: Word, mask: Word)
    requires rem <= 3
  {
    match rem
    case 0 => Agrees(w, data, mask)
    case 1 => ByteAgrees(w.b0, data.b0, mask.b0) && ByteAgrees(w.b1, data.b1, mask.b1)
              && ByteAgrees(w.b2, data.b2, mask.b2) && ByteAgrees(w.b3, data.b1, mask.b1)
    case 2 => Agrees(w, data, mask)
    case 3 => ByteAgrees(w.b0, data.b0, mask.b0) && ByteAgrees(w.b1, data.b3, mask.b3)
  }

  lemma RowsHitIsRowTest(key: Key, frame: Frame)
    requires key.off <= OFF_LIMIT
    ensures RowsHit(key, frame) == RowTest(key.off % 4, WordAt(frame, key.off), key.data, key.mask)
  {
    hide ByteAgrees;
    forall b: Byte, d: Byte
      ensures ByteAgrees(b, d, 0)
    {
      ZeroMaskAgrees(b, d);
    }
  }

  lemma ExactSplitCorrect(key: Key, frame: Frame)
    requires key.off <= OFF_LIMIT && SplitExact(key)
    ensures RowsHit(key, frame) == KeyMatches(key, frame)
  {
    RowsHitIsRowTest(key, frame);
    var w := WordAt(frame, key.off);
    if key.off % 4 == 1 {
      SameByteTest(w.b3, key.data.b1, key.data.b3, key.mask.b3);
    } else if key.off % 4 == 3 {
      ZeroMaskAgrees(w.b1, key.data.b1);
      ZeroMaskAgrees(w.b1, key.data.b3);
      ZeroMaskAgrees(w.b2, key.data.b2);
      ZeroMaskAgrees(w.b3, key.data.b3);
    }
  }

  /** A frame that holds `w` at byte `off`. */
  function FrameWith(off: nat, w: Word): Frame {
    (i: nat) => ByteOf(w, i - off)
  }

  /** Byte `i` of a word, and zero outside it. */
  function ByteOf(w: Word, i: int): Byte {
    if i == 0 then w.b0 else if i == 1 then w.b1 else if i == 2 then w.b2 else if i == 3 then w.b3 else 0
  }

  lemma FrameWithWord(off: nat, w: Word)
    ensures WordAt(FrameWith(off, w), off) == w
  {
    var f := FrameWith(off, w);
    assert f(off) == ByteOf(w, 0) && f(off + 1) == ByteOf(w, 1) && f(off + 2) == ByteOf(w, 2)
        && f(off + 3) == ByteOf(w, 3);
  }

  /** For a key whose split is not exact, a word on which rows and key disagree. */
  lemma InexactSplitWitness(key: Key) returns (w: Word)
    requires !SplitExact(key)
    ensures RowTest(key.off % 4, w, key.data, key.mask) != Agrees(w, key.data, key.mask)
  {
    var d, m := key.data, key.mask;
    hide ByteAgrees;
    OwnByteAgrees(d.b0, m.b0);
    OwnByteAgrees(d.b1, m.b1);
    OwnByteAgrees(d.b2, m.b2);
    OwnByteAgrees(d.b3, m.b3);
    if key.off % 4 == 1 {
      if m.b1 == m.b3 && ByteAgrees(d.b1, d.b3, m.b1) {
        assert false;
      }
      var b := DistinguishingByte(d.b1, m.b1, d.b3, m.b3);
      w := d.(b3 := b);
    } else if !ByteAgrees(d.b1, d.b3, m.b3) {
      w := d;
    } else if m.b2 != 0 {
      var b := FailingByte(d.b2, m.b2);
      w := d.(b2 := b);
    } else if m.b3 != 0 {
      var b := FailingByte(d.b3, m.b3);
      w := d.(b3 := b);
    } else {
      var b := FailingByte(d.b1, m.b1);
      w := d.(b1 := b);
      ZeroMaskAgrees(b, d.b3);
    }
  }

  lemma FailingByte(d: Byte, m: Byte) returns (b: Byte)
    requires m != 0
    ensures !ByteAgrees(b, d, m)
  {
    hide ByteAgrees;
    b := DistinguishingByte(d, m, d, 0);
    ZeroMaskAgrees(b, d);
  }

  // ----- the rows byte by byte -----

  /** The two rows of a key, byte by byte.  The main row has the key's bytes from byte `off % 4` of
      word `off / 4` on; the fragment row has bytes `rem` to `2 * rem - 1` of the key in the first
      `rem` bytes of the next word.  Nothing else is set. */
  lemma RowBytes(key: Key, j: nat)
    requires key.off <= OFF_LIMIT && j < 4
    ensures var rem, r := key.off % 4, MainRow(key);
            && r.frameOffset == key.off / 4
            && ByteOf(r.matchEn, j) == (if j >= rem then ByteOf(key.mask, j - rem) else 0)
            && ByteOf(r.matchData, j) == (if j >= rem then ByteOf(key.data, j - rem) else 0)
            && NothingSet(r)
    ensures key.off % 4 != 0 ==>
              var rem, r := key.off % 4, FragRow(key);
              && r.frameOffset == key.off / 4 + 1
              && ByteOf(r.matchEn, j) == (if j < rem then ByteOf(key.mask, j + rem) else 0)
              && ByteOf(r.matchData, j) == (if j < rem then ByteOf(key.data, j + rem) else 0)
              && NothingSet(r)
  {
  }

  /** No decision, no jump, and none of the fields that stay clear. */
  predicate NothingSet(r: Row) {
    PlainRow(r) && !r.af && !r.rf && !r.nc && r.okIndex == 0
  }

  // ----- main results -----

  /** The emitted rows test a frame exactly as the key does, on every frame, if and only if
      the split is exact. */
  lemma SplitCorrectIffExact(key: Key)
    requires key.off <= OFF_LIMIT
    ensures (forall frame: Frame :: RowsHit(key, frame) == KeyMatches(key, frame)) <==> SplitExact(key)
  {
    hide ByteAgrees;
    if SplitExact(key) {
      forall frame: Frame
        ensures RowsHit(key, frame) == KeyMatches(key, frame)
      {
        ExactSplitCorrect(key, frame);
      }
    } else {
      var w := InexactSplitWitness(key);
      var frame := FrameWith(key.off, w);
      RowsHitIsRowTest(key, frame);
      FrameWithWord(key.off, w);
      assert RowsHit(key, frame) != KeyMatches(key, frame);
    }
  }

  /** A one-byte match at byte offset 4, asked for as the last byte of a key at byte 1: the key
      accepts a frame that the rows miss. */
  lemma OddRemainderFails()
    ensures exists key: Key, frame: Frame :: key.off == 1 && KeyMatches(key, frame) && !RowsHit(key, frame)
  {
    hide ByteAgrees, FrameWith;
    var w := Word(0, 1, 0, 0);
    var key, frame := Key(1, w, w), FrameWith(1, w);
    FrameWithWord(1, w);
    RowsHitIsRowTest(key, frame);
    ZeroMaskAgrees(0, 0);
    OwnByteAgrees(1, 1);
    OneBitTest();
    assert KeyMatches(key, frame) && !RowsHit(key, frame);
  }

  lemma OneBitTest()
    ensures !ByteAgrees(0, 1, 1)
  {
    assert BitsOf(0) == 0 && BitsOf(1) == 1;
  }
}
