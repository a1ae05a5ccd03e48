/** The DataMatrix bitmap index of matrix.go: a table from data ids to bit
    coordinates, a zero template row, rows of bits keyed by uint64 row keys,
    and a table of freed coordinates waiting to be reused. */
module Matrix {
  import opened Bits
  import opened SetAlgebra
  import opened IdIndex
  import opened RowTable

  /** The de-duplication loop of Init (the `unik` set of ids already seen). */
  method DedupIds(ids: seq<Int64>) returns (nIds: seq<Int64>)
    ensures nIds == Dedup(ids)
  {
    var unik: set<Int64> := {};
    nIds := [];
    var i := 0;
    while i < |ids|
      invariant 0 <= i <= |ids|
      invariant nIds == Dedup(ids[..i])
      invariant unik == set id | id in ids[..i]
    {
      DedupElements(ids[..i]);
      assert ids[..i + 1][..i] == ids[..i];
      var id := ids[i];
      if id !in unik {
        nIds := nIds + [id];
        unik := unik + {id};
      }
      i := i + 1;
    }
    assert ids[..|ids|] == ids;
  }

  /** The coordinate loop of Init: the i-th id gets word i / 64 and an offset
      counting down from the top of its word (from n % 64 in a last word
      that is not full). */
  method Layout(nIds: seq<Int64>, bnum: int, numless: int, hasles: bool) returns (index: Index)
    requires forall i, j :: 0 <= i < j < |nIds| ==> nIds[i] != nIds[j]
    requires bnum == WordsFor(|nIds|) && numless == |nIds| % 64 && hasles == (numless > 0)
    ensures forall id :: id in index <==> id in nIds
    ensures forall j :: 0 <= j < |nIds| ==> nIds[j] in index && index[nIds[j]] == InitCoord(j, |nIds|)
  {
    index := map[];
    var idx := 0;
    while idx < |nIds|
      invariant 0 <= idx <= |nIds|
      invariant forall id :: id in index <==> id in nIds[..idx]
      invariant forall j :: 0 <= j < idx ==> nIds[j] in index && index[nIds[j]] == InitCoord(j, |nIds|)
    {
      var ridx := idx / 64;
      var res := idx % 64;
      var point := 64 - res;
      if ridx + 1 >= bnum && hasles {
        point := numless - res;
      }
      assert Coord(ridx, point) == InitCoord(idx, |nIds|);
      assert nIds[..idx + 1] == nIds[..idx] + [nIds[idx]];
      index := index[nIds[idx] := Coord(ridx, point)];
      idx := idx + 1;
    }
    assert nIds[..|nIds|] == nIds;
  }

  /** The non-empty path of Init: the ids are de-duplicated (first
      occurrences kept), the i-th gets InitCoord(i, n), and the template row
      gets one zero word per 64 slots, which together with empty row and
      freed tables is a valid state. */
  method Build(ids: seq<Int64>) returns (count: int, defPoint: Row, index: Index)
    ensures count == |Dedup(ids)|
    ensures defPoint == Zeros(WordsFor(count))
    ensures forall id :: id in index <==> id in ids
    ensures forall i :: 0 <= i < count ==>
              Dedup(ids)[i] in index && index[Dedup(ids)[i]] == InitCoord(i, count)
    ensures ValidState(count, defPoint, index, map[], map[])
  {
    var nIds := DedupIds(ids);
    DedupElements(ids);
    DedupDistinct(ids);
    count := |nIds|;

    var bnum := |nIds| / 64;
    var numless := |nIds| % 64;
    var hasles := numless > 0;
    if hasles {
      bnum := bnum + 1;
    }
    defPoint := Zeros(bnum);
    index := Layout(nIds, bnum, numless, hasles);
    InitValid(nIds, index);
    SlotsInWords(index, count);
    assert IsZero(defPoint);
  }

  /** The table Init builds lies inside the slots and gives no coordinate
      to two ids. */
  lemma InitValid(u: seq<Int64>, index: Index)
    requires forall i, j :: 0 <= i < j < |u| ==> u[i] != u[j]
    requires forall id :: id in index <==> id in u
    requires forall j :: 0 <= j < |u| ==> u[j] in index && index[u[j]] == InitCoord(j, |u|)
    ensures AllInSlots(index, |u|) && Unique(index)
  {
    forall id | id in index
      ensures InSlot(index[id], |u|)
    {
      var j :| 0 <= j < |u| && u[j] == id;
      InitCoordInSlot(j, |u|);
    }
    forall a, b | a in index && b in index && index[a] == index[b]
      ensures a == b
    {
      var i :| 0 <= i < |u| && u[i] == a;
      var j :| 0 <= j < |u| && u[j] == b;
      if i != j {
        InitCoordInjective(i, j, |u|);
      }
    }
  }

  /** lightUpPoint: sets a live id's bit in an existing row; a missing row
      or an unknown id changes nothing. */
  method LightUpStored(m: Rows, index: Index, id: Int64, idx: Uint64, ghost w: int) returns (r: Rows)
    requires RowsOfWidth(m, w) && InWords(index, w)
    ensures r == if idx in m && id in index then m[idx := LightUp(m[idx], index[id])] else m
    ensures RowsOfWidth(r, w)
    ensures HitsAdded(m, r, if id in index then {(idx, index[id])} else {})
  {
    if idx !in m {
      AddedNothing(m, if id in index then {(idx, index[id])} else {});
      return m;
    }
    var points := m[idx];
    if id !in index {
      AddedNothing(m, {});
      return m;
    }
    var coord := index[id];
    LightUpAdded(m, idx, coord);
    points := points[coord.word := SetMask(points[coord.word], Factor(coord.offset))];
    r := m[idx := points];
  }

  /** The row update of TurnOffPoint: clears a live id's bit in an existing
      row; a missing row or an unknown id changes nothing. */
  method TurnOffStored(m: Rows, index: Index, id: Int64, idx: Uint64, ghost w: int) returns (r: Rows)
    requires RowsOfWidth(m, w) && InWords(index, w)
    ensures r == if idx in m && id in index then m[idx := TurnOff(m[idx], index[id])] else m
    ensures RowsOfWidth(r, w)
    ensures HitsCleared(m, r, if id in index then {(idx, index[id])} else {})
  {
    if idx !in m {
      ClearedNothing(m, if id in index then {(idx, index[id])} else {});
      return m;
    }
    var points := m[idx];
    if id !in index {
      ClearedNothing(m, {});
      return m;
    }
    var coord := index[id];
    TurnOffCleared(m, idx, coord);
    points := points[coord.word := ClearMask(points[coord.word], Factor(coord.offset))];
    r := m[idx := points];
  }

  /** The inner loop of LightUpPoints: lightUpPoint for one id and each key
      listed for it. */
  method LightUpKeys(m: Rows, index: Index, id: Int64, idxs: seq<Uint64>, ghost w: int) returns (r: Rows)
    requires RowsOfWidth(m, w) && InWords(index, w)
    ensures RowsOfWidth(r, w)
    ensures HitsAdded(m, r, Pairs(id, idxs, index))
  {
    r := m;
    var i := 0;
    while i < |idxs|
      invariant 0 <= i <= |idxs|
      invariant RowsOfWidth(r, w)
      invariant HitsAdded(m, r, Pairs(id, idxs[..i], index))
    {
      ghost var before := r;
      r := LightUpStored(r, index, id, idxs[i], w);
      AddedStep(m, before, r, id, idxs, i, index);
      i := i + 1;
    }
    assert idxs[..i] == idxs;
  }

  /** The inner loop of TurnOffPoints: the row update of TurnOffPoint for one
      id and each key listed for it. */
  method TurnOffKeys(m: Rows, index: Index, id: Int64, idxs: seq<Uint64>, ghost w: int) returns (r: Rows)
    requires RowsOfWidth(m, w) && InWords(index, w)
    ensures RowsOfWidth(r, w)
    ensures HitsCleared(m, r, Pairs(id, idxs, index))
  {
    r := m;
    var i := 0;
    while i < |idxs|
      invariant 0 <= i <= |idxs|
      invariant RowsOfWidth(r, w)
      invariant HitsCleared(m, r, Pairs(id, idxs[..i], index))
    {
      ghost var before := r;
      r := TurnOffStored(r, index, id, idxs[i], w);
      ClearedStep(m, before, r, id, idxs, i, index);
      i := i + 1;
    }
    assert idxs[..i] == idxs;
  }

  /** The loop of LightUpPoints: LightUpKeys for every id of the request, in
      the order the map yields them. */
  method LightUpRequests(m: Rows, index: Index, lmps: map<Int64, seq<Uint64>>, ghost w: int) returns (r: Rows)
    requires RowsOfWidth(m, w) && InWords(index, w)
    ensures RowsOfWidth(r, w)
    ensures HitsAdded(m, r, Requests(lmps, lmps.Keys, index))
  {
    r := m;
    var todo := lmps.Keys;
    while todo != {}
      invariant todo <= lmps.Keys
      invariant RowsOfWidth(r, w)
      invariant HitsAdded(m, r, Requests(lmps, lmps.Keys - todo, index))
      decreases todo
    {
      var id :| id in todo;
      ghost var before := r;
      r := LightUpKeys(r, index, id, lmps[id], w);
      AddedTrans(m, before, r, Requests(lmps, lmps.Keys - todo, index), Pairs(id, lmps[id], index));
      RequestsStep(lmps, lmps.Keys - todo, index, id);
      assert lmps.Keys - (todo - {id}) == (lmps.Keys - todo) + {id};
      todo := todo - {id};
    }
  }

  /** The loop of TurnOffPoints: TurnOffKeys for every id of the request, in
      the order the map yields them. */
  method TurnOffRequests(m: Rows, index: Index, lmps: map<Int64, seq<Uint64>>, ghost w: int) returns (r: Rows)
    requires RowsOfWidth(m, w) && InWords(index, w)
    ensures RowsOfWidth(r, w)
    ensures HitsCleared(m, r, Requests(lmps, lmps.Keys, index))
  {
    r := m;
    var todo := lmps.Keys;
    while todo != {}
      invariant todo <= lmps.Keys
      invariant RowsOfWidth(r, w)
      invariant HitsCleared(m, r, Requests(lmps, lmps.Keys - todo, index))
      decreases todo
    {
      var id :| id in todo;
      ghost var before := r;
      r := TurnOffKeys(r, index, id, lmps[id], w);
      ClearedTrans(m, before, r, Requests(lmps, lmps.Keys - todo, index), Pairs(id, lmps[id], index));
      RequestsStep(lmps, lmps.Keys - todo, index, id);
      assert lmps.Keys - (todo - {id}) == (lmps.Keys - todo) + {id};
      todo := todo - {id};
    }
  }

  /** turnOffPoint: clears coordinate c in every row, one row's word at a
      time. */
  method TurnOffEverywhere(m: Rows, c: Coord) returns (r: Rows)
    requires ValidCoord(c)
    requires forall k :: k in m ==> c.word < |m[k]|
    ensures r == TurnOffAll(m, c)
  {
    r := m;
    var todo := m.Keys;
    while todo != {}
      invariant todo <= m.Keys && r.Keys == m.Keys
      invariant forall k :: k in r ==> r[k] == if k in todo then m[k] else TurnOff(m[k], c)
      decreases todo
    {
      var k :| k in todo;
      var points := r[k];
      r := r[k := points[c.word := ClearMask(points[c.word], Factor(c.offset))]];
      todo := todo - {k};
    }
  }

  /** The offset loop of AddPoint: unless a word was added, every id in the
      last word moves up one offset. */
  method ShiftOffsets(index: Index, last: int, expand: bool) returns (r: Index)
    ensures r == GrowOffsets(index, last, expand)
  {
    r := index;
    var todo := index.Keys;
    while todo != {}
      invariant todo <= index.Keys && r.Keys == index.Keys
      invariant forall x :: x in r ==>
                  r[x] == if x in todo then index[x] else GrowOffsets(index, last, expand)[x]
      decreases todo
    {
      var x :| x in todo;
      var coord := r[x];
      if !expand && coord.word == last {
        r := r[x := Coord(coord.word, coord.offset + 1)];
      }
      todo := todo - {x};
    }
  }

  /** The row loop of AddPoint: every row gets a zero word appended, or has
      its last word shifted left by one. */
  method ShiftRows(m: Rows, last: int, expand: bool) returns (r: Rows)
    requires expand || forall k :: k in m ==> 0 <= last < |m[k]|
    ensures r == GrowRows(m, last, expand)
  {
    r := m;
    var todo := m.Keys;
    while todo != {}
      invariant todo <= m.Keys && r.Keys == m.Keys
      invariant forall k :: k in r ==>
                  r[k] == if k in todo then m[k] else GrowRows(m, last, expand)[k]
      decreases todo
    {
      var k :| k in todo;
      var points := r[k];
      if !expand {
        r := r[k := points[last := ShiftLeft(points[last])]];
      } else {
        r := r[k := points + [0]];
      }
      todo := todo - {k};
    }
  }

  /** The growing path of AddPoint: with no freed coordinate the structure
      gets one more slot. When the last word is full a zero word is appended
      to the template and to every row; otherwise the ids of the last word
      move up one offset and every row's last word shifts left by one. The
      new id takes offset 1 of the last word, and the invariant is kept. */
  method AppendSlot(count: int, defPoint: Row, index: Index, m: Rows, id: Int64)
    returns (count2: int, defPoint2: Row, index2: Index, m2: Rows)
    requires ValidState(count, defPoint, index, m, map[])
    requires |defPoint| > 0 && id !in index
    ensures var last := |defPoint| - 1;
            var expand := count % 64 == 0;
            && count2 == count + 1
            && defPoint2 == (if expand then defPoint + [0] else defPoint)
            && index2 == GrowOffsets(index, last, expand)[id := NewCoord(last, expand)]
            && m2 == GrowRows(m, last, expand)
    ensures ValidState(count2, defPoint2, index2, m2, map[])
  {
    var res := count % 64;
    var oldRdx := |defPoint| - 1;
    var newRdx := oldRdx;
    var expand := res == 0;
    defPoint2 := defPoint;
    if expand {
      newRdx := newRdx + 1;
      defPoint2 := defPoint + [0];
      ExpandValid(count, defPoint, index, m, id);
    } else {
      ShiftValid(count, defPoint, index, m, id);
    }
    var grown := ShiftOffsets(index, oldRdx, expand);
    assert Coord(newRdx, 1) == NewCoord(oldRdx, expand);
    index2 := grown[id := Coord(newRdx, 1)];
    m2 := ShiftRows(m, oldRdx, expand);
    count2 := count + 1;
  }

  /** The loop of TurnOffPointsByIds: turnOffPoint for the coordinate of
      every live listed id, in order; unknown ids are skipped. */
  method TurnOffIds(m: Rows, index: Index, ids: seq<Int64>, ghost w: int) returns (r: Rows)
    requires RowsOfWidth(m, w) && InWords(index, w)
    ensures RowsOfWidth(r, w)
    ensures CoordsCleared(m, r, LiveCoords(ids, index))
  {
    r := m;
    var i := 0;
    while i < |ids|
      invariant 0 <= i <= |ids|
      invariant RowsOfWidth(r, w)
      invariant CoordsCleared(m, r, LiveCoords(ids[..i], index))
    {
      var id := ids[i];
      LiveCoordsStep(ids, i, index);
      if id in index {
        var coord := index[id];
        ghost var before := r;
        TurnOffAllCleared(r, coord);
        r := TurnOffEverywhere(r, coord);
        CoordsClearedTrans(m, before, r, LiveCoords(ids[..i], index), {coord});
      }
      i := i + 1;
    }
    assert ids[..i] == ids;
  }

  class DataMatrix {
    var name: string
    /** Number of slots handed out since the last non-empty Init; removing an
        id does not lower it. */
    var count: int
    /** The all-zero template row, one word per 64 slots. */
    var defPoint: Row
    /** Live data id -> coordinate. */
    var index: Index
    /** The last row key handed out by GetIndex. */
    var indexNumber: Uint64
    /** Row key -> row of bits. */
    var matrix: Rows
    /** Removed data id -> its freed coordinate. */
    var remove: Index

    /** The invariant the operations keep. */
    ghost predicate Valid()
      reads this
    {
      ValidState(count, defPoint, index, matrix, remove)
    }

    /** A Go zero value: no slots, no rows, no ids. */
    constructor ()
      ensures Valid()
      ensures count == 0 && defPoint == [] && indexNumber == 0
      ensures index == map[] && matrix == map[] && remove == map[]
    {
      name := "";
      count := 0;
      defPoint := [];
      index := map[];
      indexNumber := 0;
      matrix := map[];
      remove := map[];
    }

    /** Init: with no ids only the three tables are emptied; otherwise the ids
        are de-duplicated (first occurrences kept), each gets its slot in
        order, and the template row gets one zero word per 64 slots. */
    method Init(name: string, ids: seq<Int64>)
      requires Valid()
      modifies this
      ensures Valid()
      ensures this.name == name && indexNumber == old(indexNumber)
      ensures matrix == map[] && remove == map[]
      ensures |ids| == 0 ==>
                index == map[] && count == old(count) && defPoint == old(defPoint)
      ensures |ids| > 0 ==>
                && count == |Dedup(ids)|
                && defPoint == Zeros(WordsFor(count))
                && (forall id :: id in index <==> id in ids)
                && forall i :: 0 <= i < count ==>
                     Dedup(ids)[i] in index && index[Dedup(ids)[i]] == InitCoord(i, count)
    {
      this.name := name;
      if |ids| == 0 {
        index := map[];
        matrix := map[];
        remove := map[];
        return;
      }

      count, defPoint, index := Build(ids);
      matrix := map[];
      remove := map[];
    }

    /** GetIndex: hands out the next row key, saturating at MaxUint64. */
    method GetIndex() returns (r: Uint64)
      requires Valid()
      modifies this
      ensures Valid()
      ensures r == NextIndex(old(indexNumber)) && indexNumber == r
      ensures count == old(count) && defPoint == old(defPoint) && index == old(index)
      ensures matrix == old(matrix) && remove == old(remove) && name == old(name)
    {
      if indexNumber == MaxUint64 {
        return indexNumber;
      }
      indexNumber := indexNumber + 1;
      return indexNumber;
    }

    /** RemoveIndex: deletes one row. */
    method RemoveIndex(idx: Uint64)
      requires Valid()
      modifies this
      ensures Valid()
      ensures matrix == old(matrix) - {idx}
      ensures count == old(count) && defPoint == old(defPoint) && index == old(index)
      ensures remove == old(remove) && indexNumber == old(indexNumber) && name == old(name)
    {
      matrix := matrix - {idx};
    }

    /** RemoveIndexs: deletes exactly the listed rows. */
    method RemoveIndexs(idxs: seq<Uint64>)
      requires Valid()
      modifies this
      ensures Valid()
      ensures matrix == old(matrix) - (set k | k in idxs)
      ensures count == old(count) && defPoint == old(defPoint) && index == old(index)
      ensures remove == old(remove) && indexNumber == old(indexNumber) && name == old(name)
    {
      var i := 0;
      while i < |idxs|
        invariant 0 <= i <= |idxs|
        invariant Valid()
        invariant matrix == old(matrix) - (set j | 0 <= j < i :: idxs[j])
        invariant count == old(count) && defPoint == old(defPoint) && index == old(index)
        invariant remove == old(remove) && indexNumber == old(indexNumber) && name == old(name)
      {
        matrix := matrix - {idxs[i]};
        i := i + 1;
      }
      assert (set j | 0 <= j < |idxs| :: idxs[j]) == (set k | k in idxs);
    }

    // -------------------------------------------------------------------
    // Setting bits.

    /** LightUpPoint: key 0 first allocates a key as GetIndex does. For a live
        id the row (a copy of the template if the key had none) gets the id's
        bit set and is stored; for an unknown id no row changes. */
    method LightUpPoint(id: Int64, idx0: Uint64) returns (idx: Uint64)
      requires Valid()
      modifies this
      ensures Valid()
      ensures count == old(count) && defPoint == old(defPoint) && index == old(index)
      ensures remove == old(remove) && name == old(name)
      ensures idx == (if idx0 == 0 then NextIndex(old(indexNumber)) else idx0)
      ensures indexNumber == (if idx0 == 0 then idx else old(indexNumber))
      ensures id !in index ==> matrix == old(matrix)
      ensures id in index ==>
                matrix == old(matrix)[idx := LightUp(if idx in old(matrix) then old(matrix)[idx] else defPoint, index[id])]
      ensures id in index ==>
                Members(index, matrix[idx]) ==
                  (if idx in old(matrix) then Members(index, old(matrix)[idx]) else {}) + {id}
    {
      idx := idx0;
      if idx == 0 {
        if indexNumber != MaxUint64 {
          indexNumber := indexNumber + 1;
        }
        idx := indexNumber;
      }

      var has := idx in matrix;
      var points := if has then matrix[idx] else defPoint;
      if id !in index {
        return;
      }
      var coord := index[id];
      LightUpValid(count, defPoint, index, matrix, remove, idx, id);
      if !has {
        ZeroMembers(index, points);
      }
      LightUpMembers(index, points, id);
      // A stored row is updated in place; a new one is stored afterwards.
      points := points[coord.word := SetMask(points[coord.word], Factor(coord.offset))];
      matrix := matrix[idx := points];
    }

    /** LightUpPoints: for every id of the request and every key listed for it,
        sets the id's bit in that row if the row exists. No row is added; a
        coordinate ends up set exactly when it was set or a live id of the
        request owns it and lists the row. */
    method LightUpPoints(lmps: map<Int64, seq<Uint64>>)
      requires Valid()
      modifies this
      ensures Valid()
      ensures HitsAdded(old(matrix), matrix, Requests(lmps, lmps.Keys, index))
      ensures count == old(count) && defPoint == old(defPoint) && index == old(index)
      ensures remove == old(remove) && indexNumber == old(indexNumber) && name == old(name)
    {
      var m := LightUpRequests(matrix, index, lmps, |defPoint|);
      AddedRequestsValid(count, defPoint, index, matrix, m, remove, lmps);
      matrix := m;
    }

    // -------------------------------------------------------------------
    // Clearing bits.

    /** TurnOffPoint: clears a live id's bit in an existing row; a missing row
        or an unknown id changes nothing. */
    method TurnOffPoint(id: Int64, idx: Uint64)
      requires Valid()
      modifies this
      ensures Valid()
      ensures count == old(count) && defPoint == old(defPoint) && index == old(index)
      ensures remove == old(remove) && indexNumber == old(indexNumber) && name == old(name)
      ensures matrix == if idx in old(matrix) && id in index
                        then old(matrix)[idx := TurnOff(old(matrix)[idx], index[id])]
                        else old(matrix)
      ensures HitsCleared(old(matrix), matrix, if id in index then {(idx, index[id])} else {})
      ensures idx in matrix && id in index ==>
                Members(index, matrix[idx]) == Members(index, old(matrix)[idx]) - {id}
    {
      if idx in matrix && id in index {
        TurnOffValid(count, defPoint, index, matrix, remove, idx, index[id]);
        TurnOffMembers(index, matrix[idx], id);
      }
      matrix := TurnOffStored(matrix, index, id, idx, |defPoint|);
    }

    /** TurnOffPoints: for every id of the request and every key listed for
        it, clears the id's bit in that row if the row exists. No row is added
        or deleted; a coordinate stays set exactly when it was set and no live
        id of the request owns it and lists the row. */
    method TurnOffPoints(lmps: map<Int64, seq<Uint64>>)
      requires Valid()
      modifies this
      ensures Valid()
      ensures HitsCleared(old(matrix), matrix, Requests(lmps, lmps.Keys, index))
      ensures count == old(count) && defPoint == old(defPoint) && index == old(index)
      ensures remove == old(remove) && indexNumber == old(indexNumber) && name == old(name)
    {
      var m := TurnOffRequests(matrix, index, lmps, |defPoint|);
      ClearedValid(count, defPoint, index, matrix, m, remove, Requests(lmps, lmps.Keys, index));
      matrix := m;
    }

    /** TurnOffPointsByIds: clears the coordinate of every live listed id in
        every row; unknown ids are skipped. */
    method TurnOffPointsByIds(ids: seq<Int64>)
      requires Valid()
      modifies this
      ensures Valid()
      ensures CoordsCleared(old(matrix), matrix, LiveCoords(ids, index))
      ensures count == old(count) && defPoint == old(defPoint) && index == old(index)
      ensures remove == old(remove) && indexNumber == old(indexNumber) && name == old(name)
    {
      var m := TurnOffIds(matrix, index, ids, |defPoint|);
      CoordsClearedValid(count, defPoint, index, matrix, m, remove, LiveCoords(ids, index));
      matrix := m;
    }

    // -------------------------------------------------------------------
    // Removing and adding ids.

    /** RemovePoint (and removePoint, its unlocked twin): a live id's
        coordinate is recorded as freed under the id, cleared in every row,
        and the id leaves the table; an unknown id changes nothing. */
    method RemovePoint(id: Int64)
      requires Valid()
      modifies this
      ensures Valid()
      ensures id !in old(index) ==>
                index == old(index) && remove == old(remove) && matrix == old(matrix)
      ensures id in old(index) ==>
                && index == old(index) - {id}
                && remove == old(remove)[id := old(index)[id]]
                && matrix == TurnOffAll(old(matrix), old(index)[id])
      ensures count == old(count) && defPoint == old(defPoint)
      ensures indexNumber == old(indexNumber) && name == old(name)
    {
      if id !in index {
        return;
      }
      var points := index[id];
      RemoveValid(count, defPoint, index, matrix, remove, id);
      remove := remove[id := points];
      matrix := TurnOffEverywhere(matrix, points);
      index := index - {id};
    }

    /** RemovePoints: removes the listed ids in order. Every listed live id
        leaves the table and has its coordinate freed under its id and
        cleared in every row. */
    method RemovePoints(ids: seq<Int64>)
      requires Valid()
      modifies this
      ensures Valid()
      ensures index == old(index) - Listed(ids)
      ensures remove == old(remove) + FreedBy(ids, old(index))
      ensures CoordsCleared(old(matrix), matrix, LiveCoords(ids, old(index)))
      ensures count == old(count) && defPoint == old(defPoint)
      ensures indexNumber == old(indexNumber) && name == old(name)
    {
      var i := 0;
      while i < |ids|
        invariant 0 <= i <= |ids|
        invariant Valid()
        invariant index == old(index) - Listed(ids[..i])
        invariant remove == old(remove) + FreedBy(ids[..i], old(index))
        invariant CoordsCleared(old(matrix), matrix, LiveCoords(ids[..i], old(index)))
        invariant count == old(count) && defPoint == old(defPoint)
        invariant indexNumber == old(indexNumber) && name == old(name)
      {
        ghost var index1, remove1, matrix1 := index, remove, matrix;
        RemovePoint(ids[i]);
        RemovePointsStep(ids, i, old(index), old(remove), old(matrix),
                         index1, remove1, matrix1, index, remove, matrix);
        i := i + 1;
      }
      assert ids[..i] == ids;
    }

    /** AddPoint: nothing happens before Init or for a live id. Otherwise a
        freed coordinate, if any, goes to the new id; if there is none the
        structure grows by one slot: a zero word is appended to the template
        and to every row when the last word is full, else the ids of the last
        word move up one offset and every row's last word shifts left by one;
        the new id takes offset 1 of the last word. */
    method AddPoint(id: Int64)
      requires Valid()
      modifies this
      ensures Valid()
      ensures indexNumber == old(indexNumber) && name == old(name)
      ensures |old(defPoint)| == 0 || id in old(index) ==>
                && count == old(count) && defPoint == old(defPoint) && index == old(index)
                && matrix == old(matrix) && remove == old(remove)
      ensures |old(defPoint)| > 0 && id !in old(index) && old(remove) != map[] ==>
                && count == old(count) && defPoint == old(defPoint) && matrix == old(matrix)
                && exists del :: del in old(remove) &&
                     index == old(index)[id := old(remove)[del]] && remove == old(remove) - {del}
      ensures |old(defPoint)| > 0 && id !in old(index) && old(remove) == map[] ==>
                var last := |old(defPoint)| - 1;
                var expand := old(count) % 64 == 0;
                && count == old(count) + 1
                && defPoint == (if expand then old(defPoint) + [0] else old(defPoint))
                && index == GrowOffsets(old(index), last, expand)[id := NewCoord(last, expand)]
                && matrix == GrowRows(old(matrix), last, expand)
                && remove == old(remove)
    {
      if |defPoint| == 0 {
        return;
      }
      if id in index {
        return;
      }
      if remove != map[] {
        assert exists del :: del in remove;
        var del :| del in remove;
        ReuseValid(count, defPoint, index, matrix, remove, id, del);
        index := index[id := remove[del]];
        remove := remove - {del};
        return;
      }

      count, defPoint, index, matrix := AppendSlot(count, defPoint, index, matrix, id);
    }

    // -------------------------------------------------------------------
    // Reads.

    /** GetPoint: the stored row and true, or the template row and false. A
        row read back always has the template's width, and a missing row
        reads as all zeros. */
    function GetPoint(idx: Uint64): (r: (Row, bool))
      reads this
      ensures r.1 <==> idx in matrix
      ensures r.1 ==> r.0 == matrix[idx]
      ensures Valid() ==> |r.0| == |defPoint|
      ensures Valid() && !r.1 ==> IsZero(r.0)
    {
      if idx in matrix then (matrix[idx], true) else (defPoint, false)
    }

    /** GetAndPoint: copies the first present row and ANDs the later present
        rows into it. A missing key is skipped when empFull holds; otherwise it
        makes the result empty. */
    method GetAndPoint(idxs: seq<Uint64>, empFull: bool) returns (points: Row)
      requires RowsOfWidth(matrix, |defPoint|)
      ensures !empFull && FirstMissing(matrix, idxs) < |idxs| ==> points == []
      ensures empFull || FirstMissing(matrix, idxs) == |idxs| ==>
                points == AndFold(PresentRows(matrix, idxs))
    {
      points := [];
      var assign := true;
      var i := 0;
      while i < |idxs|
        invariant 0 <= i <= |idxs|
        invariant assign <==> |PresentRows(matrix, idxs[..i])| == 0
        invariant points == AndFold(PresentRows(matrix, idxs[..i]))
        invariant !assign ==> |points| == |defPoint|
        invariant !empFull ==> i <= FirstMissing(matrix, idxs)
      {
        var idx := idxs[i];
        PresentStep(matrix, idxs, i);
        ghost var p := PresentRows(matrix, idxs[..i]);
        if idx !in matrix {
          if !empFull {
            return [];
          }
          assert PresentRows(matrix, idxs[..i + 1]) == p;
        } else {
          var tmp := matrix[idx];
          AndFoldSnoc(p, tmp);
          assert PresentRows(matrix, idxs[..i + 1]) == p + [tmp];
          if assign {
            points := tmp;
            assign := false;
          } else {
            points := AndInto(points, tmp);
          }
        }
        i := i + 1;
      }
      assert idxs[..i] == idxs;
    }

    /** GetOrPoint: copies the first present row and ORs the later present
        rows into it. A missing key is skipped when empFull holds; otherwise
        the fold stops there and returns what it has so far. */
    method GetOrPoint(idxs: seq<Uint64>, empFull: bool) returns (points: Row)
      requires RowsOfWidth(matrix, |defPoint|)
      ensures points == OrFold(PresentRows(matrix, if empFull then idxs else idxs[..FirstMissing(matrix, idxs)]))
    {
      points := [];
      var assign := true;
      var i := 0;
      while i < |idxs|
        invariant 0 <= i <= |idxs|
        invariant assign <==> |PresentRows(matrix, idxs[..i])| == 0
        invariant points == OrFold(PresentRows(matrix, idxs[..i]))
        invariant !assign ==> |points| == |defPoint|
        invariant !empFull ==> i <= FirstMissing(matrix, idxs)
      {
        var idx := idxs[i];
        PresentStep(matrix, idxs, i);
        ghost var p := PresentRows(matrix, idxs[..i]);
        if idx !in matrix {
          if !empFull {
            return points;
          }
          assert PresentRows(matrix, idxs[..i + 1]) == p;
        } else {
          var tmp := matrix[idx];
          OrFoldSnoc(p, tmp);
          assert PresentRows(matrix, idxs[..i + 1]) == p + [tmp];
          if assign {
            points := tmp;
            assign := false;
          } else {
            points := OrInto(points, tmp);
          }
        }
        i := i + 1;
      }
      assert idxs[..i] == idxs;
    }

    /** GetIds: the live ids whose bit is set in the row, each once, in no
        particular order; an empty row gives no ids. */
    method GetIds(points: Row) returns (ids: seq<Int64>)
      requires Valid()
      ensures |points| == 0 ==> ids == []
      ensures forall id :: id in ids <==> id in Members(index, points)
      ensures forall i, j :: 0 <= i < j < |ids| ==> ids[i] != ids[j]
    {
      if |points| == 0 {
        return [];
      }
      ids := [];
      var todo := index.Keys;
      while todo != {}
        invariant todo <= index.Keys
        invariant forall id :: id in ids <==> id in Members(index, points) && id !in todo
        invariant forall i, j :: 0 <= i < j < |ids| ==> ids[i] != ids[j]
        decreases todo
      {
        var id :| id in todo;
        var coord := index[id];
        if IsPointHit(coord, points) {
          ids := ids + [id];
        }
        todo := todo - {id};
      }
    }
  }
}
