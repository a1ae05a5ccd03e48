/** The state of the bitmap index as plain values: the rows keyed by row key,
    the invariant the DataMatrix operations keep (matrix.go), how one table of
    rows relates to an earlier one bit by bit, and why each kind of update
    keeps the invariant and the members of every row. */
module RowTable {
  import opened Bits
  import opened SetAlgebra
  import opened IdIndex

  type Rows = map<Uint64, Row>

  /** Every row of the table has width w. */
  predicate RowsOfWidth(m: Rows, w: int)
  {
    forall k :: k in m ==> |m[k]| == w
  }

  /** Every coordinate of the index is valid and lies inside w words. */
  predicate InWords(index: Index, w: int)
  {
    forall id :: id in index ==> ValidCoord(index[id]) && index[id].word < w
  }

  /** No row has a bit set at a freed coordinate. */
  ghost predicate FreedClear(remove: Index, m: Rows)
  {
    forall id, k :: id in remove && k in m ==>
      ValidCoord(remove[id]) && !IsPointHit(remove[id], m[k])
  }

  /** The invariant of a DataMatrix: the template row has one zero word per
      64 slots and every row is that wide; live and freed coordinates lie in
      the slots, belong to one id each and never to both tables; freed
      coordinates are clear in every row. */
  ghost predicate ValidState(count: int, defPoint: Row, index: Index, m: Rows, remove: Index)
  {
    && 0 <= count
    && |defPoint| == WordsFor(count)
    && IsZero(defPoint)
    && RowsOfWidth(m, |defPoint|)
    && AllInSlots(index, count)
    && AllInSlots(remove, count)
    && InWords(index, |defPoint|)
    && InWords(remove, |defPoint|)
    && Unique(index)
    && Unique(remove)
    && Disjoint(index, remove)
    && FreedClear(remove, m)
  }

  /** Coordinates inside the slots lie inside the words of the template row. */
  lemma SlotsInWords(index: Index, count: int)
    requires AllInSlots(index, count)
    ensures InWords(index, WordsFor(count))
  {
    forall id | id in index
      ensures index[id].word < WordsFor(count)
    {
      InSlotWord(index[id], count);
    }
  }

  // ---------------------------------------------------------------------
  // How a table of rows relates to an earlier one.

  /** m has the row keys of m0, and a coordinate is set in row k of m exactly
      when it was set in m0 or the pair (k, coordinate) is in lit. */
  ghost predicate HitsAdded(m0: Rows, m: Rows, lit: set<(Uint64, Coord)>)
  {
    && m.Keys == m0.Keys
    && forall k, d :: k in m && ValidCoord(d) ==>
         (IsPointHit(d, m[k]) <==> IsPointHit(d, m0[k]) || (k, d) in lit)
  }

  /** m has the row keys of m0, and a coordinate is set in row k of m exactly
      when it was set in m0 and the pair (k, coordinate) is not in off. */
  ghost predicate HitsCleared(m0: Rows, m: Rows, off: set<(Uint64, Coord)>)
  {
    && m.Keys == m0.Keys
    && forall k, d :: k in m && ValidCoord(d) ==>
         (IsPointHit(d, m[k]) <==> IsPointHit(d, m0[k]) && (k, d) !in off)
  }

  /** m has the row keys of m0, and a coordinate is set in a row of m exactly
      when it was set in m0 and is not one of cs. */
  ghost predicate CoordsCleared(m0: Rows, m: Rows, cs: set<Coord>)
  {
    && m.Keys == m0.Keys
    && forall k, d :: k in m && ValidCoord(d) ==>
         (IsPointHit(d, m[k]) <==> IsPointHit(d, m0[k]) && d !in cs)
  }

  lemma AddedNothing(m: Rows, lit: set<(Uint64, Coord)>)
    requires forall k, d :: (k, d) in lit ==> k !in m
    ensures HitsAdded(m, m, lit)
  {
  }

  lemma ClearedNothing(m: Rows, off: set<(Uint64, Coord)>)
    requires forall k, d :: (k, d) in off ==> k !in m
    ensures HitsCleared(m, m, off)
  {
  }

  lemma AddedTrans(m0: Rows, m1: Rows, m2: Rows, a: set<(Uint64, Coord)>, b: set<(Uint64, Coord)>)
    requires HitsAdded(m0, m1, a) && HitsAdded(m1, m2, b)
    ensures HitsAdded(m0, m2, a + b)
  {
  }

  lemma ClearedTrans(m0: Rows, m1: Rows, m2: Rows, a: set<(Uint64, Coord)>, b: set<(Uint64, Coord)>)
    requires HitsCleared(m0, m1, a) && HitsCleared(m1, m2, b)
    ensures HitsCleared(m0, m2, a + b)
  {
  }

  lemma CoordsClearedTrans(m0: Rows, m1: Rows, m2: Rows, a: set<Coord>, b: set<Coord>)
    requires CoordsCleared(m0, m1, a) && CoordsCleared(m1, m2, b)
    ensures CoordsCleared(m0, m2, a + b)
  {
  }

  /** Setting one coordinate in one stored row adds exactly that pair. */
  lemma LightUpAdded(m: Rows, k: Uint64, c: Coord)
    requires k in m && ValidCoord(c) && c.word < |m[k]|
    ensures HitsAdded(m, m[k := LightUp(m[k], c)], {(k, c)})
  {
    forall d | ValidCoord(d)
      ensures IsPointHit(d, LightUp(m[k], c)) <==> d == c || IsPointHit(d, m[k])
    {
      LightUpHit(m[k], c, d);
    }
  }

  /** Clearing one coordinate in one stored row clears exactly that pair. */
  lemma TurnOffCleared(m: Rows, k: Uint64, c: Coord)
    requires k in m && ValidCoord(c) && c.word < |m[k]|
    ensures HitsCleared(m, m[k := TurnOff(m[k], c)], {(k, c)})
  {
    forall d | ValidCoord(d)
      ensures IsPointHit(d, TurnOff(m[k], c)) <==> d != c && IsPointHit(d, m[k])
    {
      TurnOffHit(m[k], c, d);
    }
  }

  /** Every row of the table with coordinate c cleared (turnOffPoint). */
  function TurnOffAll(m: Rows, c: Coord): Rows
    requires ValidCoord(c)
    requires forall k :: k in m ==> c.word < |m[k]|
  {
    map k | k in m :: TurnOff(m[k], c)
  }

  /** Clearing c in every row clears c and nothing else. */
  lemma TurnOffAllCleared(m: Rows, c: Coord)
    requires ValidCoord(c)
    requires forall k :: k in m ==> c.word < |m[k]|
    ensures CoordsCleared(m, TurnOffAll(m, c), {c})
  {
    var m2 := TurnOffAll(m, c);
    forall k | k in m
      ensures forall d :: ValidCoord(d) ==> (IsPointHit(d, m2[k]) <==> d != c && IsPointHit(d, m[k]))
    {
      TurnOffRowHits(m[k], c);
    }
  }

  lemma TurnOffRowHits(row: Row, c: Coord)
    requires ValidCoord(c) && c.word < |row|
    ensures forall d :: ValidCoord(d) ==> (IsPointHit(d, TurnOff(row, c)) <==> d != c && IsPointHit(d, row))
  {
    forall d | ValidCoord(d)
      ensures IsPointHit(d, TurnOff(row, c)) <==> d != c && IsPointHit(d, row)
    {
      TurnOffHit(row, c, d);
    }
  }

  // ---------------------------------------------------------------------
  // The requests of LightUpPoints / TurnOffPoints and the ids of the batch
  // operations.

  /** The (row key, coordinate) pairs a request names: every key listed for
      a live id among `ids`, with that id's coordinate. */
  function Requests(lmps: map<Int64, seq<Uint64>>, ids: set<Int64>, index: Index): set<(Uint64, Coord)>
  {
    set id, k | id in ids && id in lmps && id in index && k in lmps[id] :: (k, index[id])
  }

  /** The pairs one id of a request names for the keys in `idxs`. */
  function Pairs(id: Int64, idxs: seq<Uint64>, index: Index): set<(Uint64, Coord)>
  {
    if id in index then set k | k in idxs :: (k, index[id]) else {}
  }

  lemma RequestsStep(lmps: map<Int64, seq<Uint64>>, ids: set<Int64>, index: Index, id: Int64)
    requires id in lmps
    ensures Requests(lmps, ids + {id}, index) == Requests(lmps, ids, index) + Pairs(id, lmps[id], index)
  {
  }

  lemma PairsStep(id: Int64, idxs: seq<Uint64>, i: int, index: Index)
    requires 0 <= i < |idxs|
    ensures Pairs(id, idxs[..i + 1], index) ==
              Pairs(id, idxs[..i], index) + (if id in index then {(idxs[i], index[id])} else {})
  {
    assert idxs[..i + 1] == idxs[..i] + [idxs[i]];
  }

  /** One key of the inner loop of LightUpPoints: the pairs set so far grow
      by the pair of that key. */
  lemma AddedStep(m0: Rows, m1: Rows, m2: Rows, id: Int64, idxs: seq<Uint64>, i: int, index: Index)
    requires 0 <= i < |idxs|
    requires HitsAdded(m0, m1, Pairs(id, idxs[..i], index))
    requires HitsAdded(m1, m2, if id in index then {(idxs[i], index[id])} else {})
    ensures HitsAdded(m0, m2, Pairs(id, idxs[..i + 1], index))
  {
    AddedTrans(m0, m1, m2, Pairs(id, idxs[..i], index), if id in index then {(idxs[i], index[id])} else {});
    PairsStep(id, idxs, i, index);
  }

  /** One key of the inner loop of TurnOffPoints: the pairs cleared so far
      grow by the pair of that key. */
  lemma ClearedStep(m0: Rows, m1: Rows, m2: Rows, id: Int64, idxs: seq<Uint64>, i: int, index: Index)
    requires 0 <= i < |idxs|
    requires HitsCleared(m0, m1, Pairs(id, idxs[..i], index))
    requires HitsCleared(m1, m2, if id in index then {(idxs[i], index[id])} else {})
    ensures HitsCleared(m0, m2, Pairs(id, idxs[..i + 1], index))
  {
    ClearedTrans(m0, m1, m2, Pairs(id, idxs[..i], index), if id in index then {(idxs[i], index[id])} else {});
    PairsStep(id, idxs, i, index);
  }

  /** Setting the coordinates a request asks for keeps the invariant:
      freed coordinates belong to no live id, so they stay clear. */
  lemma AddedRequestsValid(count: int, defPoint: Row, index: Index, m: Rows, r: Rows, remove: Index,
                           lmps: map<Int64, seq<Uint64>>)
    requires ValidState(count, defPoint, index, m, remove)
    requires HitsAdded(m, r, Requests(lmps, lmps.Keys, index)) && RowsOfWidth(r, |defPoint|)
    ensures ValidState(count, defPoint, index, r, remove)
  {
    forall x, k | x in remove && k in r
      ensures !IsPointHit(remove[x], r[k])
    {
      assert (k, remove[x]) !in Requests(lmps, lmps.Keys, index);
    }
  }

  /** Clearing coordinates in every row keeps the invariant. */
  lemma CoordsClearedValid(count: int, defPoint: Row, index: Index, m: Rows, r: Rows, remove: Index,
                           cs: set<Coord>)
    requires ValidState(count, defPoint, index, m, remove)
    requires CoordsCleared(m, r, cs) && RowsOfWidth(r, |defPoint|)
    ensures ValidState(count, defPoint, index, r, remove)
  {
  }

  /** Clearing pairs keeps the invariant. */
  lemma ClearedValid(count: int, defPoint: Row, index: Index, m: Rows, r: Rows, remove: Index,
                     off: set<(Uint64, Coord)>)
    requires ValidState(count, defPoint, index, m, remove)
    requires HitsCleared(m, r, off) && RowsOfWidth(r, |defPoint|)
    ensures ValidState(count, defPoint, index, r, remove)
  {
  }

  /** With coordinates owned by one id each, a live id's coordinate is
      requested for key k exactly when the request lists k for that id. */
  lemma RequestsOwn(lmps: map<Int64, seq<Uint64>>, index: Index, id: Int64, k: Uint64)
    requires Unique(index) && id in index
    ensures (k, index[id]) in Requests(lmps, lmps.Keys, index) <==> id in lmps && k in lmps[id]
  {
  }

  /** The coordinates of the live ids among `ids`. */
  function LiveCoords(ids: seq<Int64>, index: Index): set<Coord>
  {
    set j | 0 <= j < |ids| && ids[j] in index :: index[ids[j]]
  }

  lemma LiveCoordsStep(ids: seq<Int64>, i: int, index: Index)
    requires 0 <= i < |ids|
    ensures LiveCoords(ids[..i + 1], index) ==
              LiveCoords(ids[..i], index) + (if ids[i] in index then {index[ids[i]]} else {})
  {
    var a := ids[..i + 1];
    var b := ids[..i];
    forall c | c in LiveCoords(a, index)
      ensures c in LiveCoords(b, index) || (ids[i] in index && c == index[ids[i]])
    {
      var j :| 0 <= j < |a| && a[j] in index && c == index[a[j]];
      if j < i {
        assert b[j] == a[j];
      }
    }
    forall c | c in LiveCoords(b, index)
      ensures c in LiveCoords(a, index)
    {
      var j :| 0 <= j < |b| && b[j] in index && c == index[b[j]];
      assert a[j] == b[j];
    }
    if ids[i] in index {
      assert a[i] == ids[i];
    }
  }

  /** The ids of a list, as a set. */
  function Listed(ids: seq<Int64>): set<Int64>
  {
    set x | x in ids
  }

  /** The coordinates the batch removal moves into the freed table. */
  function FreedBy(ids: seq<Int64>, index: Index): Index
  {
    map id | id in ids && id in index :: index[id]
  }

  // ---------------------------------------------------------------------
  // What the updates do to the members of a row.

  /** After bits are set per the pairs, a row's members are the old ones and
      the live ids whose coordinate is paired with its key. */
  lemma AddedMembers(m0: Rows, m: Rows, lit: set<(Uint64, Coord)>, index: Index, k: Uint64)
    requires HitsAdded(m0, m, lit) && k in m
    ensures Members(index, m[k]) ==
              Members(index, m0[k]) + (set id | id in index && ValidCoord(index[id]) && (k, index[id]) in lit)
  {
  }

  /** After bits are cleared per the pairs, a row's members are the old ones
      without the live ids whose coordinate is paired with its key. */
  lemma ClearedMembers(m0: Rows, m: Rows, off: set<(Uint64, Coord)>, index: Index, k: Uint64)
    requires HitsCleared(m0, m, off) && k in m
    ensures Members(index, m[k]) ==
              Members(index, m0[k]) - (set id | id in index && (k, index[id]) in off)
  {
  }

  /** After the coordinates of the listed ids are cleared everywhere, no
      listed id is a member of any row and every other id keeps its
      membership. */
  lemma CoordsClearedMembers(m0: Rows, m: Rows, ids: seq<Int64>, index: Index, k: Uint64)
    requires CoordsCleared(m0, m, LiveCoords(ids, index)) && Unique(index) && k in m
    ensures Members(index, m[k]) == Members(index, m0[k]) - (set id | id in ids)
  {
    forall id | id in index
      ensures index[id] in LiveCoords(ids, index) <==> id in ids
    {
      if id in ids {
        var j :| 0 <= j < |ids| && ids[j] == id;
        assert index[ids[j]] in LiveCoords(ids, index);
      }
    }
  }

  // ---------------------------------------------------------------------
  // Each update keeps the invariant.

  /** Setting a live id's bit in a stored row, or in a copy of the template
      for a new key, keeps the invariant. */
  lemma LightUpValid(count: int, defPoint: Row, index: Index, m: Rows, remove: Index, k: Uint64, id: Int64)
    requires ValidState(count, defPoint, index, m, remove) && id in index
    ensures var row := if k in m then m[k] else defPoint;
            && |row| == |defPoint|
            && ValidState(count, defPoint, index, m[k := LightUp(row, index[id])], remove)
  {
    var row := if k in m then m[k] else defPoint;
    var c := index[id];
    forall x | x in remove
      ensures !IsPointHit(remove[x], LightUp(row, c))
    {
      if k !in m {
        ZeroRowNoHit(row, remove[x]);
      }
      LightUpHit(row, c, remove[x]);
    }
  }

  /** Clearing any in-range coordinate in a stored row keeps the invariant. */
  lemma TurnOffValid(count: int, defPoint: Row, index: Index, m: Rows, remove: Index, k: Uint64, c: Coord)
    requires ValidState(count, defPoint, index, m, remove)
    requires k in m && ValidCoord(c) && c.word < |defPoint|
    ensures ValidState(count, defPoint, index, m[k := TurnOff(m[k], c)], remove)
  {
    forall x | x in remove
      ensures !IsPointHit(remove[x], TurnOff(m[k], c))
    {
      TurnOffHit(m[k], c, remove[x]);
    }
  }

  /** Clearing a coordinate in every row keeps the invariant. */
  lemma TurnOffAllValid(count: int, defPoint: Row, index: Index, m: Rows, remove: Index, c: Coord)
    requires ValidState(count, defPoint, index, m, remove)
    requires ValidCoord(c) && c.word < |defPoint|
    ensures ValidState(count, defPoint, index, TurnOffAll(m, c), remove)
  {
    forall x, k | x in remove && k in m
      ensures !IsPointHit(remove[x], TurnOff(m[k], c))
    {
      TurnOffHit(m[k], c, remove[x]);
    }
  }

  /** Removing a live id (RemovePoint) keeps the invariant: its coordinate is
      freed under the id and cleared in every row. */
  lemma RemoveValid(count: int, defPoint: Row, index: Index, m: Rows, remove: Index, id: Int64)
    requires ValidState(count, defPoint, index, m, remove) && id in index
    ensures ValidState(count, defPoint, index - {id}, TurnOffAll(m, index[id]), remove[id := index[id]])
  {
    var c := index[id];
    var r := remove[id := c];
    var m2 := TurnOffAll(m, c);
    forall x, k | x in r && k in m2
      ensures !IsPointHit(r[x], m2[k])
    {
      TurnOffHit(m[k], c, r[x]);
    }
  }

  /** Giving a new id a freed coordinate (the reuse path of AddPoint) keeps
      the invariant. */
  lemma ReuseValid(count: int, defPoint: Row, index: Index, m: Rows, remove: Index, id: Int64, del: Int64)
    requires ValidState(count, defPoint, index, m, remove)
    requires id !in index && del in remove
    ensures ValidState(count, defPoint, index[id := remove[del]], m, remove - {del})
  {
  }

  /** The reused coordinate is clear in every row, so no row gains a member. */
  lemma ReuseMembers(count: int, defPoint: Row, index: Index, m: Rows, remove: Index, id: Int64, del: Int64, k: Uint64)
    requires ValidState(count, defPoint, index, m, remove)
    requires id !in index && del in remove && k in m
    ensures Members(index[id := remove[del]], m[k]) == Members(index, m[k])
    ensures id !in Members(index[id := remove[del]], m[k])
  {
    AddClearMembers(index, m[k], id, remove[del]);
  }

  /** Every row with a zero word appended, or with its last word shifted left
      by one (the row loop of AddPoint). */
  function GrowRows(m: Rows, last: int, expand: bool): Rows
    requires expand || forall k :: k in m ==> 0 <= last < |m[k]|
  {
    map k | k in m :: if expand then m[k] + [0] else ShiftWord(m[k], last)
  }

  /** The table after the offset loop of AddPoint: unchanged when a word is
      added, otherwise the ids of the last word move up one offset. */
  function GrowOffsets(index: Index, last: int, expand: bool): Index
  {
    if expand then index else GrowIndex(index, last)
  }

  /** The coordinate AddPoint gives a new id: offset 1 of the added word, or
      of the last word after its shift. */
  function NewCoord(last: int, expand: bool): Coord
  {
    Coord(if expand then last + 1 else last, 1)
  }

  /** Appending a slot when the last word is full keeps the invariant. */
  lemma ExpandValid(count: int, defPoint: Row, index: Index, m: Rows, id: Int64)
    requires ValidState(count, defPoint, index, m, map[])
    requires |defPoint| > 0 && id !in index && count % 64 == 0
    ensures ValidState(count + 1, defPoint + [0], index[id := NewCoord(|defPoint| - 1, true)],
                       GrowRows(m, |defPoint| - 1, true), map[])
  {
    var last := |defPoint| - 1;
    assert |defPoint| == count / 64 && last + 1 == count / 64;
    assert WordsFor(count + 1) == count / 64 + 1;
    var c := NewCoord(last, true);
    assert InSlot(c, count + 1);
    var i2 := index[id := c];
    forall x | x in i2
      ensures InSlot(i2[x], count + 1) && i2[x].word < |defPoint| + 1
    {
    }
    forall a, b | a in i2 && b in i2 && i2[a] == i2[b]
      ensures a == b
    {
    }
  }

  /** Appending a slot to a last word that has room keeps the invariant. */
  lemma ShiftValid(count: int, defPoint: Row, index: Index, m: Rows, id: Int64)
    requires ValidState(count, defPoint, index, m, map[])
    requires |defPoint| > 0 && id !in index && count % 64 != 0
    ensures forall k :: k in m ==> 0 <= |defPoint| - 1 < |m[k]|
    ensures ValidState(count + 1, defPoint,
                       GrowIndex(index, |defPoint| - 1)[id := NewCoord(|defPoint| - 1, false)],
                       GrowRows(m, |defPoint| - 1, false), map[])
  {
    var last := |defPoint| - 1;
    assert last == count / 64;
    assert WordsFor(count + 1) == WordsFor(count);
    var g := GrowIndex(index, last);
    var c := NewCoord(last, false);
    var i2 := g[id := c];
    forall x | x in index
      ensures InSlot(g[x], count + 1) && g[x].word < |defPoint|
      ensures g[x].word == last ==> g[x].offset >= 2
    {
      InSlotWord(index[x], count);
    }
    assert InSlot(c, count + 1);
    forall a, b | a in i2 && b in i2 && i2[a] == i2[b]
      ensures a == b
    {
      if a != id && b != id {
        assert index[a] == index[b];
      }
    }
    var m2 := GrowRows(m, last, false);
    forall k | k in m2
      ensures |m2[k]| == |defPoint|
    {
    }
  }

  /** Appending a slot keeps every pre-existing id's membership in every row,
      and the new id is in no row. */
  lemma AppendMembers(count: int, defPoint: Row, index: Index, m: Rows, id: Int64, k: Uint64)
    requires ValidState(count, defPoint, index, m, map[])
    requires |defPoint| > 0 && id !in index && k in m
    ensures var last := |defPoint| - 1;
            var expand := count % 64 == 0;
            var i2 := GrowOffsets(index, last, expand)[id := NewCoord(last, expand)];
            && Members(i2, GrowRows(m, last, expand)[k]) == Members(index, m[k])
            && id !in Members(i2, GrowRows(m, last, expand)[k])
  {
    var last := |defPoint| - 1;
    var row := m[k];
    if count % 64 == 0 {
      ExtendMembers(index, row);
      AddClearMembers(index, row + [0], id, NewCoord(last, true));
    } else {
      assert last == count / 64;
      forall x | x in index && index[x].word == last
        ensures index[x].offset < 64
      {
        InSlotWord(index[x], count);
      }
      ShiftMembers(index, row, last);
      AddClearMembers(GrowIndex(index, last), ShiftWord(row, last), id, NewCoord(last, false));
    }
  }

  /** Removing a live id takes exactly that id out of every row's members. */
  lemma RemoveMembers(index: Index, m: Rows, id: Int64, k: Uint64)
    requires Unique(index) && id in index && k in m && InWords(index, |m[k]|)
    requires forall j :: j in m ==> index[id].word < |m[j]|
    ensures Members(index - {id}, TurnOffAll(m, index[id])[k]) == Members(index, m[k]) - {id}
  {
    TurnOffMembers(index, m[k], id);
    DropMembers(index, TurnOff(m[k], index[id]), id);
  }
  // ---------------------------------------------------------------------
  // Reading several rows (GetAndPoint, GetOrPoint).

  /** The rows stored under the listed keys, in list order; keys without a
      row are skipped. */
  function PresentRows(m: Rows, keys: seq<Uint64>): seq<Row>
  {
    if |keys| == 0 then []
    else PresentRows(m, keys[..|keys| - 1]) +
         (if keys[|keys| - 1] in m then [m[keys[|keys| - 1]]] else [])
  }

  /** The position of the first listed key that has no row, or the length of
      the list when every key has one. */
  function FirstMissing(m: Rows, keys: seq<Uint64>): (r: nat)
    ensures r <= |keys|
    ensures forall j :: 0 <= j < r ==> keys[j] in m
    ensures r < |keys| ==> keys[r] !in m
  {
    if |keys| == 0 then 0
    else if keys[0] !in m then 0
    else 1 + FirstMissing(m, keys[1..])
  }

  lemma PresentStep(m: Rows, keys: seq<Uint64>, i: int)
    requires 0 <= i < |keys|
    ensures PresentRows(m, keys[..i + 1]) ==
              PresentRows(m, keys[..i]) + (if keys[i] in m then [m[keys[i]]] else [])
  {
    assert keys[..i + 1][..i] == keys[..i];
  }

  /** Some listed key has a row. */
  predicate AnyPresent(m: Rows, keys: seq<Uint64>)
  {
    exists j :: 0 <= j < |keys| && keys[j] in m
  }

  /** The coordinate is set in the row of every listed key that has one. */
  predicate HitInAll(m: Rows, keys: seq<Uint64>, c: Coord)
    requires ValidCoord(c)
  {
    forall j :: 0 <= j < |keys| && keys[j] in m ==> IsPointHit(c, m[keys[j]])
  }

  /** The coordinate is set in the row of some listed key. */
  predicate HitInSome(m: Rows, keys: seq<Uint64>, c: Coord)
    requires ValidCoord(c)
  {
    exists j :: 0 <= j < |keys| && keys[j] in m && IsPointHit(c, m[keys[j]])
  }

  lemma ListedSnoc(m: Rows, keys: seq<Uint64>, c: Coord)
    requires |keys| > 0 && ValidCoord(c)
    ensures var init := keys[..|keys| - 1];
            var last := keys[|keys| - 1];
            && (AnyPresent(m, keys) <==> AnyPresent(m, init) || last in m)
            && (HitInAll(m, keys, c) <==> HitInAll(m, init, c) && (last in m ==> IsPointHit(c, m[last])))
            && (HitInSome(m, keys, c) <==> HitInSome(m, init, c) || (last in m && IsPointHit(c, m[last])))
  {
    var init := keys[..|keys| - 1];
    var last := keys[|keys| - 1];
    assert forall j :: 0 <= j < |init| ==> init[j] == keys[j];
    if AnyPresent(m, keys) && last !in m {
      var j :| 0 <= j < |keys| && keys[j] in m;
      assert init[j] in m;
    }
    if HitInSome(m, keys, c) && !(last in m && IsPointHit(c, m[last])) {
      var j :| 0 <= j < |keys| && keys[j] in m && IsPointHit(c, m[keys[j]]);
      assert init[j] in m && IsPointHit(c, m[init[j]]);
    }
  }

  /** No row is present exactly when no listed key has a row. */
  lemma {:induction false} PresentEmpty(m: Rows, keys: seq<Uint64>)
    ensures |PresentRows(m, keys)| == 0 <==> !AnyPresent(m, keys)
  {
    if |keys| > 0 {
      var init := keys[..|keys| - 1];
      PresentEmpty(m, init);
      ListedSnoc(m, keys, Coord(0, 1));
    }
  }

  lemma AndFoldSnoc(rows: seq<Row>, r: Row)
    ensures |rows| == 0 ==> AndFold(rows + [r]) == r
    ensures |rows| > 0 ==> AndFold(rows + [r]) == AndWords(AndFold(rows), r)
  {
    assert (rows + [r])[..|rows|] == rows;
  }

  lemma OrFoldSnoc(rows: seq<Row>, r: Row)
    ensures |rows| == 0 ==> OrFold(rows + [r]) == r
    ensures |rows| > 0 ==> OrFold(rows + [r]) == OrWords(OrFold(rows), r)
  {
    assert (rows + [r])[..|rows|] == rows;
  }

  /** Over rows of one width w, the AND of the present rows is w wide and sets
      exactly the coordinates set in the row of every listed key that has
      one; with no such key it is empty. */
  lemma {:induction false} AndPresentHit(m: Rows, keys: seq<Uint64>, w: int, c: Coord)
    requires RowsOfWidth(m, w) && ValidCoord(c)
    ensures !AnyPresent(m, keys) ==> AndFold(PresentRows(m, keys)) == []
    ensures AnyPresent(m, keys) ==>
              && |AndFold(PresentRows(m, keys))| == w
              && (IsPointHit(c, AndFold(PresentRows(m, keys))) <==> HitInAll(m, keys, c))
  {
    PresentEmpty(m, keys);
    if |keys| > 0 {
      var init := keys[..|keys| - 1];
      var last := keys[|keys| - 1];
      AndPresentHit(m, init, w, c);
      PresentEmpty(m, init);
      ListedSnoc(m, keys, c);
      var p := PresentRows(m, init);
      if last in m {
        assert PresentRows(m, keys) == p + [m[last]];
        AndFoldSnoc(p, m[last]);
        if |p| > 0 {
          AndHit(AndFold(p), m[last], c);
          assert Min(w, w) == w;
        }
      } else {
        assert PresentRows(m, keys) == p;
      }
    }
  }

  /** Over rows of one width w, the OR of the present rows is w wide and sets
      exactly the coordinates set in the row of some listed key; with no such
      key it is empty. */
  lemma {:induction false} OrPresentHit(m: Rows, keys: seq<Uint64>, w: int, c: Coord)
    requires RowsOfWidth(m, w) && ValidCoord(c)
    ensures !AnyPresent(m, keys) ==> OrFold(PresentRows(m, keys)) == []
    ensures AnyPresent(m, keys) ==>
              && |OrFold(PresentRows(m, keys))| == w
              && (IsPointHit(c, OrFold(PresentRows(m, keys))) <==> HitInSome(m, keys, c))
  {
    PresentEmpty(m, keys);
    if |keys| > 0 {
      var init := keys[..|keys| - 1];
      var last := keys[|keys| - 1];
      OrPresentHit(m, init, w, c);
      PresentEmpty(m, init);
      ListedSnoc(m, keys, c);
      var p := PresentRows(m, init);
      if last in m {
        assert PresentRows(m, keys) == p + [m[last]];
        OrFoldSnoc(p, m[last]);
        if |p| > 0 {
          OrHit(OrFold(p), m[last], c);
          assert Min(w, w) == w;
        }
      } else {
        assert PresentRows(m, keys) == p;
      }
    }
  }

  /** After the batch removal the listed ids are gone from every row and the
      other ids keep their membership. */
  lemma RemovedIdsMembers(m0: Rows, m: Rows, ids: seq<Int64>, index0: Index, k: Uint64)
    requires CoordsCleared(m0, m, LiveCoords(ids, index0)) && Unique(index0) && k in m
    ensures Members(index0 - Listed(ids), m[k]) == Members(index0, m0[k]) - Listed(ids)
  {
    CoordsClearedMembers(m0, m, ids, index0, k);
  }

  /** One step of the batch removal: the state after removing ids[i] (or
      leaving it when it is no longer live) is the state the prefix up to and
      including ids[i] describes. */
  lemma RemoveStep(ids: seq<Int64>, i: int, index0: Index, remove0: Index, cur: Index)
    requires 0 <= i < |ids|
    requires cur == index0 - Listed(ids[..i])
    ensures ids[i] in cur ==>
              && ids[i] in index0 && cur[ids[i]] == index0[ids[i]]
              && cur - {ids[i]} == index0 - Listed(ids[..i + 1])
              && (remove0 + FreedBy(ids[..i], index0))[ids[i] := cur[ids[i]]] ==
                   remove0 + FreedBy(ids[..i + 1], index0)
    ensures ids[i] !in cur ==>
              && cur == index0 - Listed(ids[..i + 1])
              && remove0 + FreedBy(ids[..i], index0) == remove0 + FreedBy(ids[..i + 1], index0)
              && LiveCoords(ids[..i + 1], index0) == LiveCoords(ids[..i], index0)
  {
    var id := ids[i];
    var a := ids[..i + 1];
    var b := ids[..i];
    assert a == b + [id];
    assert Listed(a) == Listed(b) + {id};
    LiveCoordsStep(ids, i, index0);
    if id !in cur && id in index0 {
      assert id in b;
      var j :| 0 <= j < |b| && b[j] == id;
      assert index0[id] in LiveCoords(b, index0);
    }
  }

  /** One step of RemovePoints: whatever RemovePoint did with ids[i], the
      state is the one the prefix up to and including ids[i] describes. */
  lemma RemovePointsStep(ids: seq<Int64>, i: int, index0: Index, remove0: Index, m0: Rows,
                         index: Index, remove: Index, m: Rows,
                         index2: Index, remove2: Index, m2: Rows)
    requires 0 <= i < |ids|
    requires index == index0 - Listed(ids[..i])
    requires remove == remove0 + FreedBy(ids[..i], index0)
    requires CoordsCleared(m0, m, LiveCoords(ids[..i], index0))
    requires ids[i] !in index ==> index2 == index && remove2 == remove && m2 == m
    requires ids[i] in index ==>
               && index2 == index - {ids[i]}
               && remove2 == remove[ids[i] := index[ids[i]]]
               && ValidCoord(index[ids[i]])
               && (forall k :: k in m ==> index[ids[i]].word < |m[k]|)
               && m2 == TurnOffAll(m, index[ids[i]])
    ensures index2 == index0 - Listed(ids[..i + 1])
    ensures remove2 == remove0 + FreedBy(ids[..i + 1], index0)
    ensures CoordsCleared(m0, m2, LiveCoords(ids[..i + 1], index0))
  {
    RemoveStep(ids, i, index0, remove0, index);
    LiveCoordsStep(ids, i, index0);
    if ids[i] in index {
      var c := index[ids[i]];
      TurnOffAllCleared(m, c);
      CoordsClearedTrans(m0, m, m2, LiveCoords(ids[..i], index0), {c});
    }
  }
}
