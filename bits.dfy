/** Words, rows and coordinates of the bitmap index (matrix.go).
    A row is a sequence of unsigned 64-bit words; a coordinate (word, offset)
    names bit `offset - 1` of word `word`, so offsets run from 1 to 64 and an
    offset of 0 means "unassigned". */
module Bits {

  type Word = bv64
  type Row = seq<Word>

  /** The `[2]int` coordinate pair of the source: `coord[0]` is the word index,
      `coord[1]` the bit offset. */
  datatype Coord = Coord(word: int, offset: int)

  predicate ValidCoord(c: Coord)
  {
    0 <= c.word && 1 <= c.offset <= 64
  }

  // ---------------------------------------------------------------------
  // The word operations of the source, each behind a name of its own so that
  // proofs about them can refer to them without unfolding the bit-vector terms.

  /** The shift amount `offset - 1` of `uint64(1) << (coord[1] - 1)`, as a small
      bit-vector, counted up from 0 (no integer-to-bits conversion needed). */
  function ShiftOf(offset: int): (s: bv7)
    requires 1 <= offset <= 64
    ensures s < 64 && s as int == offset - 1
  {
    if offset == 1 then 0 else ShiftOf(offset - 1) + 1
  }

  /** The single-bit mask `factor` (or `judge`) of the source. */
  function Factor(offset: int): Word
    requires 1 <= offset <= 64
  {
    (1 as Word) << ShiftOf(offset)
  }

  /** `x | m` */
  function SetMask(x: Word, m: Word): Word
  {
    x | m
  }

  /** `x &^ m`, written `x &= ^m` in the source. */
  function ClearMask(x: Word, m: Word): Word
  {
    x & !m
  }

  /** `x << 1` */
  function ShiftLeft(x: Word): Word
  {
    x << 1
  }

  /** `x & y` */
  function WordAnd(x: Word, y: Word): Word
  {
    x & y
  }

  /** `x | y` */
  function WordOr(x: Word, y: Word): Word
  {
    x | y
  }

  /** No bit of m is set in x. */
  predicate MaskClear(x: Word, m: Word)
  {
    x & m == 0
  }

  /** The bit at the offset is set in x (`(judge & point) > 0`). */
  predicate HasBit(x: Word, offset: int)
    requires 1 <= offset <= 64
  {
    !MaskClear(x, Factor(offset))
  }

  /** isPointHit: the coordinate's word exists in the row and its bit is set;
      a word beyond the end of the row counts as unset. */
  predicate IsPointHit(c: Coord, points: Row)
    requires ValidCoord(c)
  {
    c.word < |points| && HasBit(points[c.word], c.offset)
  }

  /** The row with the coordinate's bit set (`points[coord[0]] |= factor`). */
  function LightUp(row: Row, c: Coord): Row
    requires ValidCoord(c) && c.word < |row|
  {
    row[c.word := SetMask(row[c.word], Factor(c.offset))]
  }

  /** The row with the coordinate's bit cleared (`points[coord[0]] &= ^factor`). */
  function TurnOff(row: Row, c: Coord): Row
    requires ValidCoord(c) && c.word < |row|
  {
    row[c.word := ClearMask(row[c.word], Factor(c.offset))]
  }

  /** A row of n zero words (`make([]uint64, n)`). */
  function Zeros(n: nat): Row
  {
    seq(n, _ => 0 as Word)
  }

  predicate IsZero(row: Row)
  {
    forall w :: 0 <= w < |row| ==> row[w] == 0
  }

  // ---------------------------------------------------------------------
  // Facts about single-bit masks, on bv7 shift amounts.

  lemma NonZeroBv(s: bv7)
    requires s < 64
    ensures (1 as Word) << s != 0
  {
  }

  lemma StepBv(s: bv7)
    requires s < 63
    ensures ShiftLeft((1 as Word) << s) == (1 as Word) << (s + 1)
    ensures ((1 as Word) << s) & 0x8000_0000_0000_0000 == 0
  {
  }

  lemma OneHotBv(x: Word, s: bv7)
    requires s < 64
    requires x & (1 << s) != 0
    ensures x & (1 << s) == 1 << s
  {
  }

  lemma DisjointBv(s: bv7, t: bv7)
    requires s < 64 && t < 64 && s != t
    ensures ((1 as Word) << s) & ((1 as Word) << t) == 0
  {
  }

  lemma ShiftOfInjective(o: int, p: int)
    requires 1 <= o <= 64 && 1 <= p <= 64 && o != p
    ensures ShiftOf(o) != ShiftOf(p)
  {
    assert ShiftOf(o) as int != ShiftOf(p) as int;
  }

  lemma FactorNonZero(o: int)
    requires 1 <= o <= 64
    ensures Factor(o) != 0
  {
    NonZeroBv(ShiftOf(o));
  }

  lemma FactorStep(o: int)
    requires 1 <= o < 64
    ensures Factor(o + 1) == ShiftLeft(Factor(o))
    ensures Factor(o) & 0x8000_0000_0000_0000 == 0
  {
    assert ShiftOf(o + 1) == ShiftOf(o) + 1;
    StepBv(ShiftOf(o));
  }

  lemma FactorOneHot(x: Word, o: int)
    requires 1 <= o <= 64
    requires !MaskClear(x, Factor(o))
    ensures WordAnd(x, Factor(o)) == Factor(o)
  {
    OneHotBv(x, ShiftOf(o));
  }

  lemma FactorDisjoint(o: int, p: int)
    requires 1 <= o <= 64 && 1 <= p <= 64 && o != p
    ensures Factor(o) & Factor(p) == 0
  {
    ShiftOfInjective(o, p);
    DisjointBv(ShiftOf(o), ShiftOf(p));
  }

  // ---------------------------------------------------------------------
  // Word-level facts about an arbitrary mask m.

  lemma SetMaskBv(x: Word, m: Word)
    requires m != 0
    ensures !MaskClear(SetMask(x, m), m)
  {
  }

  lemma SetOtherMaskBv(x: Word, m: Word, n: Word)
    requires m & n == 0
    ensures MaskClear(SetMask(x, m), n) == MaskClear(x, n)
  {
  }

  lemma ClearMaskBv(x: Word, m: Word)
    ensures MaskClear(ClearMask(x, m), m)
  {
  }

  lemma ClearOtherMaskBv(x: Word, m: Word, n: Word)
    requires m & n == 0
    ensures MaskClear(ClearMask(x, m), n) == MaskClear(x, n)
  {
  }

  lemma ShiftMaskBv(x: Word, m: Word)
    requires m & 0x8000_0000_0000_0000 == 0
    ensures MaskClear(ShiftLeft(x), ShiftLeft(m)) == MaskClear(x, m)
  {
  }

  lemma LowestMaskBv(x: Word)
    ensures MaskClear(ShiftLeft(x), 1)
  {
  }

  lemma AndClearLeftBv(x: Word, y: Word, m: Word)
    requires MaskClear(x, m)
    ensures MaskClear(WordAnd(x, y), m)
  {
  }

  lemma AndClearRightBv(x: Word, y: Word, m: Word)
    requires MaskClear(y, m)
    ensures MaskClear(WordAnd(x, y), m)
  {
  }

  lemma AndFullBv(x: Word, y: Word, m: Word)
    requires m != 0 && WordAnd(x, m) == m && WordAnd(y, m) == m
    ensures !MaskClear(WordAnd(x, y), m)
  {
  }

  lemma OrSetLeftBv(x: Word, y: Word, m: Word)
    requires !MaskClear(x, m)
    ensures !MaskClear(WordOr(x, y), m)
  {
  }

  lemma OrSetRightBv(x: Word, y: Word, m: Word)
    requires !MaskClear(y, m)
    ensures !MaskClear(WordOr(x, y), m)
  {
  }

  lemma OrClearBothBv(x: Word, y: Word, m: Word)
    requires MaskClear(x, m) && MaskClear(y, m)
    ensures MaskClear(WordOr(x, y), m)
  {
  }

  lemma ZeroMaskBv(x: Word, m: Word)
    requires x == 0
    ensures MaskClear(x, m)
  {
  }

  // ---------------------------------------------------------------------
  // The same facts on the source's integer offsets.

  lemma SetSame(x: Word, o: int)
    requires 1 <= o <= 64
    ensures HasBit(SetMask(x, Factor(o)), o)
  {
    FactorNonZero(o);
    SetMaskBv(x, Factor(o));
  }

  lemma SetOther(x: Word, o: int, p: int)
    requires 1 <= o <= 64 && 1 <= p <= 64 && o != p
    ensures HasBit(SetMask(x, Factor(o)), p) == HasBit(x, p)
  {
    FactorDisjoint(o, p);
    SetOtherMaskBv(x, Factor(o), Factor(p));
  }

  lemma ClearSame(x: Word, o: int)
    requires 1 <= o <= 64
    ensures !HasBit(ClearMask(x, Factor(o)), o)
  {
    ClearMaskBv(x, Factor(o));
  }

  lemma ClearOther(x: Word, o: int, p: int)
    requires 1 <= o <= 64 && 1 <= p <= 64 && o != p
    ensures HasBit(ClearMask(x, Factor(o)), p) == HasBit(x, p)
  {
    FactorDisjoint(o, p);
    ClearOtherMaskBv(x, Factor(o), Factor(p));
  }

  /** Shifting a word left by one moves the bit at offset p to offset p + 1. */
  lemma ShiftUp(x: Word, p: int)
    requires 1 <= p < 64
    ensures HasBit(ShiftLeft(x), p + 1) == HasBit(x, p)
  {
    FactorStep(p);
    ShiftMaskBv(x, Factor(p));
  }

  /** After a left shift by one the lowest bit (offset 1) is clear. */
  lemma ShiftClearsLowest(x: Word)
    ensures !HasBit(ShiftLeft(x), 1)
  {
    assert Factor(1) == 1;
    LowestMaskBv(x);
  }

  lemma AndBit(x: Word, y: Word, o: int)
    requires 1 <= o <= 64
    ensures HasBit(WordAnd(x, y), o) <==> HasBit(x, o) && HasBit(y, o)
  {
    if HasBit(x, o) && HasBit(y, o) {
      FactorNonZero(o);
      FactorOneHot(x, o);
      FactorOneHot(y, o);
      AndFullBv(x, y, Factor(o));
    } else if !HasBit(x, o) {
      AndClearLeftBv(x, y, Factor(o));
    } else {
      AndClearRightBv(x, y, Factor(o));
    }
  }

  lemma OrBit(x: Word, y: Word, o: int)
    requires 1 <= o <= 64
    ensures HasBit(WordOr(x, y), o) <==> HasBit(x, o) || HasBit(y, o)
  {
    if HasBit(x, o) {
      OrSetLeftBv(x, y, Factor(o));
    } else if HasBit(y, o) {
      OrSetRightBv(x, y, Factor(o));
    } else {
      OrClearBothBv(x, y, Factor(o));
    }
  }

  // ---------------------------------------------------------------------
  // Row-level facts.

  /** Lighting up c sets exactly c: every other coordinate keeps its bit. */
  lemma LightUpHit(row: Row, c: Coord, d: Coord)
    requires ValidCoord(c) && c.word < |row| && ValidCoord(d)
    ensures |LightUp(row, c)| == |row|
    ensures IsPointHit(d, LightUp(row, c)) <==> d == c || IsPointHit(d, row)
  {
    if d.word == c.word {
      if d.offset == c.offset {
        SetSame(row[c.word], c.offset);
      } else {
        SetOther(row[c.word], c.offset, d.offset);
      }
    }
  }

  /** Turning off c clears exactly c: every other coordinate keeps its bit. */
  lemma TurnOffHit(row: Row, c: Coord, d: Coord)
    requires ValidCoord(c) && c.word < |row| && ValidCoord(d)
    ensures |TurnOff(row, c)| == |row|
    ensures IsPointHit(d, TurnOff(row, c)) <==> d != c && IsPointHit(d, row)
  {
    if d.word == c.word {
      if d.offset == c.offset {
        ClearSame(row[c.word], c.offset);
      } else {
        ClearOther(row[c.word], c.offset, d.offset);
      }
    }
  }

  /** A row of zero words, such as the default row, has no coordinate set. */
  lemma ZeroRowNoHit(row: Row, c: Coord)
    requires IsZero(row) && ValidCoord(c)
    ensures !IsPointHit(c, row)
  {
    if c.word < |row| {
      ZeroMaskBv(row[c.word], Factor(c.offset));
    }
  }
}
