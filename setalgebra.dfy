/** Word-wise AND / OR of rows (BitAndOperate, BitOrOperate) and the folds
    over several rows that GetAndPoint and GetOrPoint compute (matrix.go). */
module SetAlgebra {
  import opened Bits

  function Min(a: int, b: int): int
  {
    if a > b then b else a
  }

  /** The word-wise AND of the common prefix of two rows. */
  function AndWords(a: Row, b: Row): Row
  {
    seq(Min(|a|, |b|), i requires 0 <= i < Min(|a|, |b|) => WordAnd(a[i], b[i]))
  }

  /** The word-wise OR of the common prefix of two rows. */
  function OrWords(a: Row, b: Row): Row
  {
    seq(Min(|a|, |b|), i requires 0 <= i < Min(|a|, |b|) => WordOr(a[i], b[i]))
  }

  /** Some word of the row is non-zero (the `flg` of the source). */
  predicate AnyNonZero(r: Row)
  {
    exists i :: 0 <= i < |r| && r[i] != 0
  }

  // ---------------------------------------------------------------------
  // What AND and OR mean for the coordinates of a row.

  /** A coordinate is set in `a AND b` exactly when it is set in both rows. */
  lemma AndHit(a: Row, b: Row, c: Coord)
    requires ValidCoord(c)
    ensures |AndWords(a, b)| == Min(|a|, |b|)
    ensures IsPointHit(c, AndWords(a, b)) <==> IsPointHit(c, a) && IsPointHit(c, b)
  {
    if c.word < Min(|a|, |b|) {
      AndBit(a[c.word], b[c.word], c.offset);
    }
  }

  /** A coordinate is set in `a OR b` exactly when its word lies in the
      common prefix and it is set in either row: OR truncates to the shorter
      row like AND does. */
  lemma OrHit(a: Row, b: Row, c: Coord)
    requires ValidCoord(c)
    ensures |OrWords(a, b)| == Min(|a|, |b|)
    ensures IsPointHit(c, OrWords(a, b)) <==>
              c.word < Min(|a|, |b|) && (IsPointHit(c, a) || IsPointHit(c, b))
  {
    if c.word < Min(|a|, |b|) {
      OrBit(a[c.word], b[c.word], c.offset);
    }
  }

  lemma AndWordCommutes(x: Word, y: Word)
    ensures WordAnd(x, y) == WordAnd(y, x)
  {
  }

  lemma OrWordCommutes(x: Word, y: Word)
    ensures WordOr(x, y) == WordOr(y, x)
  {
  }

  /** The operand order of BitAndOperate does not matter. */
  lemma AndWordsCommute(a: Row, b: Row)
    ensures AndWords(a, b) == AndWords(b, a)
  {
    forall i | 0 <= i < Min(|a|, |b|)
      ensures AndWords(a, b)[i] == AndWords(b, a)[i]
    {
      AndWordCommutes(a[i], b[i]);
    }
  }

  /** The operand order of BitOrOperate does not matter. */
  lemma OrWordsCommute(a: Row, b: Row)
    ensures OrWords(a, b) == OrWords(b, a)
  {
    forall i | 0 <= i < Min(|a|, |b|)
      ensures OrWords(a, b)[i] == OrWords(b, a)[i]
    {
      OrWordCommutes(a[i], b[i]);
    }
  }

  /** AND of a row with itself is the row. */
  lemma AndIdem(a: Row)
    ensures AndWords(a, a) == a
  {
  }

  /** OR of a row with itself is the row. */
  lemma OrIdem(a: Row)
    ensures OrWords(a, a) == a
  {
  }

  /** An all-zero operand makes the AND all zeros, so BitAndOperate reports
      no hit. */
  lemma AndZero(a: Row, b: Row)
    requires IsZero(a) || IsZero(b)
    ensures IsZero(AndWords(a, b)) && !AnyNonZero(AndWords(a, b))
  {
    forall i | 0 <= i < Min(|a|, |b|)
      ensures AndWords(a, b)[i] == 0
    {
      if IsZero(a) {
        assert a[i] == 0;
      } else {
        assert b[i] == 0;
      }
    }
  }

  /** ORing with an all-zero row at least as long gives the other row. */
  lemma OrZero(a: Row, b: Row)
    requires IsZero(b) && |a| <= |b|
    ensures OrWords(a, b) == a
  {
    forall i | 0 <= i < |a|
      ensures OrWords(a, b)[i] == a[i]
    {
      assert b[i] == 0;
    }
  }

  // ---------------------------------------------------------------------
  // The two binary operations of the source.

  /** BitAndOperate: `min(len a, len b)` words of `a[i] & b[i]`, with a flag
      telling whether any of them is non-zero; empty input gives `([], false)`. */
  method BitAndOperate(idx1: Row, idx2: Row) returns (res: Row, flg: bool)
    ensures res == AndWords(idx1, idx2)
    ensures flg <==> AnyNonZero(res)
  {
    flg := false;
    var l1 := |idx1|;
    var l2 := |idx2|;
    if l1 > l2 {
      l1 := l2;
    }
    if l1 == 0 {
      return [], false;
    }
    var buf := new Word[l1];
    var i := 0;
    while i < l1
      invariant 0 <= i <= l1
      invariant forall j :: 0 <= j < i ==> buf[j] == WordAnd(idx1[j], idx2[j])
      invariant flg <==> exists j :: 0 <= j < i && buf[j] != 0
    {
      buf[i] := WordAnd(idx1[i], idx2[i]);
      flg := flg || buf[i] != 0;
      i := i + 1;
    }
    res := buf[..];
  }

  /** BitOrOperate: `min(len a, len b)` words of `a[i] | b[i]`, with a flag
      telling whether any of them is non-zero; empty input gives `([], false)`. */
  method BitOrOperate(idx1: Row, idx2: Row) returns (res: Row, flg: bool)
    ensures res == OrWords(idx1, idx2)
    ensures flg <==> AnyNonZero(res)
  {
    flg := false;
    var l1 := |idx1|;
    var l2 := |idx2|;
    if l1 > l2 {
      l1 := l2;
    }
    if l1 == 0 {
      return [], false;
    }
    var buf := new Word[l1];
    var i := 0;
    while i < l1
      invariant 0 <= i <= l1
      invariant forall j :: 0 <= j < i ==> buf[j] == WordOr(idx1[j], idx2[j])
      invariant flg <==> exists j :: 0 <= j < i && buf[j] != 0
    {
      buf[i] := WordOr(idx1[i], idx2[i]);
      flg := flg || buf[i] != 0;
      i := i + 1;
    }
    res := buf[..];
  }

  /** The in-place loop of GetAndPoint (`points[j] &= val` for each word of
      the later row): the first |r| words of acc are ANDed with r, the rest
      stay. On rows of one width this is AndWords. */
  method AndInto(acc: Row, r: Row) returns (points: Row)
    requires |r| <= |acc|
    ensures |points| == |acc|
    ensures forall w :: 0 <= w < |r| ==> points[w] == WordAnd(acc[w], r[w])
    ensures forall w :: |r| <= w < |acc| ==> points[w] == acc[w]
    ensures |acc| == |r| ==> points == AndWords(acc, r)
  {
    points := acc;
    var j := 0;
    while j < |r|
      invariant 0 <= j <= |r| && |points| == |acc|
      invariant forall w :: 0 <= w < j ==> points[w] == WordAnd(acc[w], r[w])
      invariant forall w :: j <= w < |acc| ==> points[w] == acc[w]
    {
      points := points[j := WordAnd(points[j], r[j])];
      j := j + 1;
    }
  }

  /** The in-place loop of GetOrPoint (`points[j] |= val` for each word of
      the later row): the first |r| words of acc are ORed with r, the rest
      stay. On rows of one width this is OrWords. */
  method OrInto(acc: Row, r: Row) returns (points: Row)
    requires |r| <= |acc|
    ensures |points| == |acc|
    ensures forall w :: 0 <= w < |r| ==> points[w] == WordOr(acc[w], r[w])
    ensures forall w :: |r| <= w < |acc| ==> points[w] == acc[w]
    ensures |acc| == |r| ==> points == OrWords(acc, r)
  {
    points := acc;
    var j := 0;
    while j < |r|
      invariant 0 <= j <= |r| && |points| == |acc|
      invariant forall w :: 0 <= w < j ==> points[w] == WordOr(acc[w], r[w])
      invariant forall w :: j <= w < |acc| ==> points[w] == acc[w]
    {
      points := points[j := WordOr(points[j], r[j])];
      j := j + 1;
    }
  }

  // ---------------------------------------------------------------------
  // Folds over several rows (the accumulator of GetAndPoint / GetOrPoint).

  /** The first row, ANDed word-wise with each later one; no rows give []. */
  function AndFold(rows: seq<Row>): Row
  {
    if |rows| == 0 then []
    else if |rows| == 1 then rows[0]
    else AndWords(AndFold(rows[..|rows| - 1]), rows[|rows| - 1])
  }

  /** The first row, ORed word-wise with each later one; no rows give []. */
  function OrFold(rows: seq<Row>): Row
  {
    if |rows| == 0 then []
    else if |rows| == 1 then rows[0]
    else OrWords(OrFold(rows[..|rows| - 1]), rows[|rows| - 1])
  }
}
