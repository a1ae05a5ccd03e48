/** The id -> coordinate table of the bitmap index (matrix.go): integer widths,
    row-key allocation, the de-duplication and coordinate layout of Init, and
    what a row means for the ids in the table (the set GetIds returns). */
module IdIndex {
  import opened Bits

  const MaxUint64: int := 0xFFFF_FFFF_FFFF_FFFF

  /** Data ids are Go `int64`. */
  type Int64 = x: int | -0x8000_0000_0000_0000 <= x < 0x8000_0000_0000_0000

  /** Row keys and the key counter are Go `uint64`. */
  type Uint64 = x: int | 0 <= x <= MaxUint64

  // ---------------------------------------------------------------------
  // Row-key allocation (GetIndex, and LightUpPoint with key 0).

  /** The next key: one more than the counter, saturating at MaxUint64.
      It is never the key 0 that asks for an allocation, it never goes back,
      and it stands still only once the counter is saturated. */
  function NextIndex(n: Uint64): (r: Uint64)
    ensures r != 0
    ensures n <= r <= n + 1
    ensures r == n <==> n == MaxUint64
  {
    if n == MaxUint64 then n else n + 1
  }

  /** The counter after k allocations starting from n. */
  function Allocate(n: Uint64, k: nat): Uint64
  {
    if k == 0 then n else NextIndex(Allocate(n, k - 1))
  }

  /** Allocation hands out n + 1, n + 2, ... until the counter saturates and
      stays there. */
  lemma {:induction false} AllocateCounts(n: Uint64, k: nat)
    ensures n + k <= MaxUint64 ==> Allocate(n, k) == n + k
    ensures n + k > MaxUint64 ==> Allocate(n, k) == MaxUint64
  {
    if k > 0 {
      AllocateCounts(n, k - 1);
    }
  }

  /** Keys handed out before saturation are pairwise distinct. */
  lemma AllocateDistinct(n: Uint64, j: nat, k: nat)
    requires j < k && n + k <= MaxUint64
    ensures Allocate(n, j) != Allocate(n, k)
  {
    AllocateCounts(n, j);
    AllocateCounts(n, k);
  }

  // ---------------------------------------------------------------------
  // De-duplication in Init (first occurrences kept, in order).

  /** `ids` with every repeated id dropped after its first occurrence. */
  function Dedup(s: seq<Int64>): seq<Int64>
  {
    if |s| == 0 then []
    else
      var d := Dedup(s[..|s| - 1]);
      if s[|s| - 1] in d then d else d + [s[|s| - 1]]
  }

  /** Dedup keeps exactly the ids of the input. */
  lemma {:induction false} DedupElements(s: seq<Int64>)
    ensures forall x :: x in Dedup(s) <==> x in s
  {
    if |s| > 0 {
      var init := s[..|s| - 1];
      DedupElements(init);
      assert s == init + [s[|s| - 1]];
    }
  }

  /** No id occurs twice in the output of Dedup. */
  lemma {:induction false} DedupDistinct(s: seq<Int64>)
    ensures forall i, j :: 0 <= i < j < |Dedup(s)| ==> Dedup(s)[i] != Dedup(s)[j]
  {
    if |s| > 0 {
      DedupDistinct(s[..|s| - 1]);
    }
  }

  /** Dedup lists ids in the order of their first occurrence in the input:
      wherever a later id of the output occurs in the input, every earlier
      id of the output has occurred before that point. */
  lemma {:induction false} DedupFirstOrder(s: seq<Int64>)
    ensures forall i, j, p :: 0 <= i < j < |Dedup(s)| && 0 <= p < |s| && s[p] == Dedup(s)[j] ==>
              Dedup(s)[i] in s[..p]
  {
    if |s| > 0 {
      var init := s[..|s| - 1];
      var last := s[|s| - 1];
      var d := Dedup(init);
      DedupFirstOrder(init);
      DedupElements(init);
      forall i, j, p | 0 <= i < j < |Dedup(s)| && 0 <= p < |s| && s[p] == Dedup(s)[j]
        ensures Dedup(s)[i] in s[..p]
      {
        assert Dedup(s)[i] == d[i];
        if p < |init| {
          assert init[p] == s[p] && s[p] in init;
          assert j < |d|;
          assert Dedup(s)[j] == d[j];
          assert d[i] in init[..p];
          assert init[..p] == s[..p];
        } else {
          assert d[i] in init;
          assert init == s[..p];
        }
      }
    }
  }

  // ---------------------------------------------------------------------
  // The coordinate layout of Init.

  /** ceil(n / 64): the number of words that hold n slots. */
  function WordsFor(n: int): int
  {
    n / 64 + (if n % 64 > 0 then 1 else 0)
  }

  /** The coordinate Init gives to the i-th of n distinct ids: word i / 64,
      and within a word the earliest id takes the highest offset; in a last
      word that is not full the offsets count down from n % 64. */
  function InitCoord(i: int, n: int): Coord
  {
    var bnum := WordsFor(n);
    var numless := n % 64;
    var ridx := i / 64;
    var res := i % 64;
    Coord(ridx, if ridx + 1 >= bnum && numless > 0 then numless - res else 64 - res)
  }

  /** The slot of a coordinate, counting from 0 at (0, 1): a table with n
      slots uses the coordinates whose slot is below n. */
  predicate InSlot(c: Coord, n: int)
  {
    ValidCoord(c) && 64 * c.word + c.offset <= n
  }

  /** A coordinate inside n slots lies in one of the WordsFor(n) words, and
      in the last of them only when its offset does not pass n % 64. */
  lemma InSlotWord(c: Coord, n: int)
    requires InSlot(c, n)
    ensures 0 <= c.word < WordsFor(n)
    ensures c.word == WordsFor(n) - 1 && n % 64 != 0 ==> c.offset <= n % 64
  {
  }

  /** Init places every id inside the n slots, in word i / 64. */
  lemma InitCoordInSlot(i: int, n: int)
    requires 0 <= i < n
    ensures InitCoord(i, n).word == i / 64
    ensures InSlot(InitCoord(i, n), n)
  {
  }

  /** Init gives distinct ids distinct coordinates. */
  lemma InitCoordInjective(i: int, j: int, n: int)
    requires 0 <= i < n && 0 <= j < n && i != j
    ensures InitCoord(i, n) != InitCoord(j, n)
  {
    if i / 64 == j / 64 {
      assert i % 64 != j % 64;
    }
  }

  /** Within one word, an id listed earlier sits at a higher bit. */
  lemma InitCoordDescending(i: int, j: int, n: int)
    requires 0 <= i < j < n && i / 64 == j / 64
    ensures InitCoord(i, n).offset > InitCoord(j, n).offset
  {
    assert i % 64 < j % 64;
  }

  // ---------------------------------------------------------------------
  // The table and the meaning of a row.

  type Index = map<Int64, Coord>

  /** No two ids share a coordinate. */
  predicate Unique(index: Index)
  {
    forall a, b :: a in index && b in index && index[a] == index[b] ==> a == b
  }

  /** No coordinate of one table appears in the other. */
  predicate Disjoint(a: Index, b: Index)
  {
    forall x, y :: x in a && y in b ==> a[x] != b[y]
  }

  /** Every coordinate of the table lies inside n slots. */
  predicate AllInSlots(index: Index, n: int)
  {
    forall id :: id in index ==> InSlot(index[id], n)
  }

  /** The ids whose bit is set in the row: what GetIds returns, as a set. */
  function Members(index: Index, row: Row): set<Int64>
  {
    set id | id in index && ValidCoord(index[id]) && IsPointHit(index[id], row)
  }

  /** Setting the bit of a live id adds exactly that id to the row's members. */
  lemma LightUpMembers(index: Index, row: Row, id: Int64)
    requires Unique(index) && id in index
    requires ValidCoord(index[id]) && index[id].word < |row|
    ensures Members(index, LightUp(row, index[id])) == Members(index, row) + {id}
  {
    var c := index[id];
    forall x | x in index && ValidCoord(index[x])
      ensures IsPointHit(index[x], LightUp(row, c)) <==> x == id || IsPointHit(index[x], row)
    {
      LightUpHit(row, c, index[x]);
    }
  }

  /** Clearing the bit of a live id removes exactly that id from the row's
      members. */
  lemma TurnOffMembers(index: Index, row: Row, id: Int64)
    requires Unique(index) && id in index
    requires ValidCoord(index[id]) && index[id].word < |row|
    ensures Members(index, TurnOff(row, index[id])) == Members(index, row) - {id}
  {
    var c := index[id];
    forall x | x in index && ValidCoord(index[x])
      ensures IsPointHit(index[x], TurnOff(row, c)) <==> x != id && IsPointHit(index[x], row)
    {
      TurnOffHit(row, c, index[x]);
    }
  }

  /** A row of zero words has no members. */
  lemma ZeroMembers(index: Index, row: Row)
    requires IsZero(row)
    ensures Members(index, row) == {}
  {
    forall x | x in index && ValidCoord(index[x])
      ensures !IsPointHit(index[x], row)
    {
      ZeroRowNoHit(row, index[x]);
    }
  }

  // ---------------------------------------------------------------------
  // Growing by one slot (the append path of AddPoint).

  /** The coordinate after a shift of the last word: ids in that word move up
      one offset, the others stay. */
  function GrowCoord(c: Coord, last: int): Coord
  {
    if c.word == last then Coord(c.word, c.offset + 1) else c
  }

  /** The table after the offsets of the last word move up by one. */
  function GrowIndex(index: Index, last: int): Index
  {
    map id | id in index :: GrowCoord(index[id], last)
  }

  /** The row with its last word shifted left by one (`row[last] <<= 1`). */
  function ShiftWord(row: Row, last: int): Row
    requires 0 <= last < |row|
  {
    row[last := ShiftLeft(row[last])]
  }

  /** Shifting the last word of a row together with the offsets of the ids in
      it keeps every id's membership; the new lowest bit is clear. */
  lemma ShiftMembers(index: Index, row: Row, last: int)
    requires 0 <= last < |row|
    requires forall id :: id in index ==> ValidCoord(index[id])
    requires forall id :: id in index && index[id].word == last ==> index[id].offset < 64
    ensures Members(GrowIndex(index, last), ShiftWord(row, last)) == Members(index, row)
    ensures !IsPointHit(Coord(last, 1), ShiftWord(row, last))
  {
    var g := GrowIndex(index, last);
    forall x | x in index
      ensures ValidCoord(g[x]) && (IsPointHit(g[x], ShiftWord(row, last)) <==> IsPointHit(index[x], row))
    {
      if index[x].word == last {
        ShiftUp(row[last], index[x].offset);
      }
    }
    ShiftClearsLowest(row[last]);
  }

  /** Appending a zero word to a row keeps every id's membership, and the
      first coordinate of the new word is clear. */
  lemma ExtendMembers(index: Index, row: Row)
    requires forall id :: id in index ==> ValidCoord(index[id]) && index[id].word < |row|
    ensures Members(index, row + [0]) == Members(index, row)
    ensures !IsPointHit(Coord(|row|, 1), row + [0])
  {
    forall x | x in index
      ensures IsPointHit(index[x], row + [0]) <==> IsPointHit(index[x], row)
    {
      assert (row + [0])[index[x].word] == row[index[x].word];
    }
    ZeroMaskBv(0, Factor(1));
  }

  /** Giving a new id a coordinate that is clear in the row adds no member;
      dropping an id from the table removes only that id. */
  lemma AddClearMembers(index: Index, row: Row, id: Int64, c: Coord)
    requires id !in index && ValidCoord(c) && !IsPointHit(c, row)
    ensures Members(index[id := c], row) == Members(index, row)
  {
  }

  lemma DropMembers(index: Index, row: Row, id: Int64)
    ensures Members(index - {id}, row) == Members(index, row) - {id}
  {
  }
}
