# DataMatrix bitmap index, modelled in Dafny

`DataMatrix` (matrix.go) is an in-memory bitmap index. Every data id owns
one bit coordinate `(word, offset)`: a word index and a bit offset 1..64,
offset `o` being bit `o - 1` of the word. A *row* is a slice of `uint64`
words; a set bit means "this id matches the row". The structure holds:

- `index`: live id -> coordinate;
- `defPoint`: the all-zero template row, one word per 64 slots;
- `matrix`: row key -> row;
- `remove`: removed id -> its freed coordinate, reused by `AddPoint`;
- `count`: the number of slots handed out since the last non-empty `Init`
  (removing an id does not lower it);
- `indexNumber`: the last row key handed out.

Operations set and clear bits, add and remove ids and rows, and read rows
back: a single row, word-wise AND/OR folds over several rows, and the set
of ids whose bits a row has set.

The model keeps the shape of the Go code. `Matrix.DataMatrix` is a class
with the fields of the Go struct, and its methods change those fields.
Each loop of the source is a method with a loop over the same collection:

- a loop over a Go map picks its keys in no fixed order (`:|` over the key
  set);
- an in-place update of a slice in a map is written as a new value stored
  under the same key.

The loops work on the value of a table, and the class method stores the
result in its field. The shared invariant is `RowTable.ValidState`:

- every row is as wide as `defPoint`, and `defPoint` has
  `ceil(count / 64)` zero words;
- every live and freed coordinate lies in a slot below `count`;
- no two ids share a coordinate, and no live id holds a freed one;
- every freed coordinate is clear in every row.

Every state-changing method keeps this invariant (`Valid()`).

Modules:

- `Bits` (bits.dfy): words and rows, the coordinate's bit (`Factor`), the
  hit test (`isPointHit`), and setting, clearing and shifting a bit.
- `SetAlgebra` (setalgebra.dfy): `BitAndOperate`/`BitOrOperate`, the
  in-place fold steps, and the folds over several rows.
- `IdIndex` (idindex.dfy): row-key allocation, de-duplication and the
  coordinate layout of `Init`, the coordinate table, and `Members`, the
  set `GetIds` returns.
- `RowTable` (rowtable.dfy): the row table, the invariant, and the frame
  predicates:
  - `HitsAdded`: which bits an operation may set;
  - `HitsCleared` and `CoordsCleared`: which bits it may clear;
  - lemmas that every operation keeps the invariant and what it does to
    each row's members.
- `Matrix` (matrix.dfy): the loops as value methods, and the class
  `DataMatrix`.

`index` and `remove` map ids to `Coord` values. A Go `[2]int` coordinate
is copied on assignment, so nothing is lost by treating it as a value.

## Model

| member | source | states |
|---|---|---|
| Bits.ShiftOf | matrix.go:175 | the shift `coord[1] - 1` of an offset 1..64 is below 64 and equals offset − 1 |
| Bits.SetSame | matrix.go:175-176 | after `points[w] \|= factor` the offset's bit is set |
| Bits.SetOther | matrix.go:175-176 | setting one offset leaves every other offset of the word as it was |
| Bits.ClearSame | matrix.go:237-238 | after `points[w] &= ^factor` the offset's bit is clear |
| Bits.ClearOther | matrix.go:237-238 | clearing one offset leaves every other offset of the word as it was |
| Bits.ShiftUp | matrix.go:397 | after `word <<= 1` offset p + 1 holds what offset p held |
| Bits.ShiftClearsLowest | matrix.go:397 | after `word <<= 1` offset 1 is clear, so it is free for the new id |
| Bits.AndBit | matrix.go:435 | a bit is set in `x & y` exactly when it is set in both words |
| Bits.OrBit | matrix.go:458 | a bit is set in `x \| y` exactly when it is set in either word |
| Bits.LightUpHit | matrix.go:175-176 | setting coordinate c keeps the row's width; afterwards coordinate d is hit exactly when d == c or d was hit before |
| Bits.TurnOffHit | matrix.go:237-238 | clearing coordinate c keeps the row's width; afterwards d is hit exactly when d != c and d was hit before |
| Bits.ZeroRowNoHit | matrix.go:538-548 | no coordinate is hit in a row of zero words, whatever its length (a short row counts as unset) |
| SetAlgebra.BitAndOperate | matrix.go:420-440 | the result is `min(len a, len b)` words of `a[i] & b[i]`; the flag is true exactly when some result word is non-zero; empty input gives `([], false)` |
| SetAlgebra.BitOrOperate | matrix.go:443-463 | the result is `min(len a, len b)` words of `a[i] \| b[i]`; the flag is true exactly when some result word is non-zero |
| SetAlgebra.AndHit | matrix.go:420-440 | a coordinate is hit in the AND of two rows exactly when it is hit in both |
| SetAlgebra.OrHit | matrix.go:443-463 | a coordinate is hit in the OR of two rows exactly when its word lies in both rows and it is hit in either |
| SetAlgebra.AndWordsCommute | matrix.go:420-440 | BitAndOperate does not depend on operand order |
| SetAlgebra.OrWordsCommute | matrix.go:443-463 | BitOrOperate does not depend on operand order |
| SetAlgebra.AndIdem | matrix.go:420-440 | ANDing a row with itself gives the row back |
| SetAlgebra.OrIdem | matrix.go:443-463 | ORing a row with itself gives the row back |
| SetAlgebra.AndZero | matrix.go:420-440 | if either input is all zeros, the AND is all zeros and its flag is false |
| SetAlgebra.OrZero | matrix.go:443-463 | ORing with an all-zero row at least as long gives the other row back |
| SetAlgebra.AndInto | matrix.go:493-495 | the loop `points[j] &= val` ANDs the first \|tmp\| words and leaves the rest; on rows of one width it equals the word-wise AND |
| SetAlgebra.OrInto | matrix.go:529-531 | the loop `points[j] \|= val` ORs the first \|tmp\| words and leaves the rest; on rows of one width it equals the word-wise OR |
| IdIndex.NextIndex | matrix.go:112-122 | the next row key is never 0 and is the counter plus one; it equals the counter exactly when the counter is MaxUint64 |
| IdIndex.AllocateCounts | matrix.go:112-122 | k allocations from n give n + k, or MaxUint64 once that is passed |
| IdIndex.AllocateDistinct | matrix.go:112-122 | keys handed out before saturation are pairwise distinct |
| IdIndex.DedupElements | matrix.go:60-70 | de-duplication keeps exactly the ids of the input |
| IdIndex.DedupDistinct | matrix.go:60-70 | no id occurs twice after de-duplication |
| IdIndex.DedupFirstOrder | matrix.go:60-70 | ids keep the order of their first occurrence |
| IdIndex.InSlotWord | matrix.go:74-79 | a coordinate inside n slots lies in one of the ceil(n/64) words, and in a last partial word its offset is at most n % 64 |
| IdIndex.InitCoordInSlot | matrix.go:86-96 | the i-th distinct id gets word i / 64 and a coordinate inside the count slots |
| IdIndex.InitCoordInjective | matrix.go:86-96 | distinct ids get distinct coordinates |
| IdIndex.InitCoordDescending | matrix.go:86-96 | within a word an id listed earlier gets a higher offset |
| IdIndex.LightUpMembers | matrix.go:175-176 | setting a live id's bit adds exactly that id to the ids GetIds finds in the row |
| IdIndex.TurnOffMembers | matrix.go:237-238 | clearing a live id's bit removes exactly that id from the ids GetIds finds |
| IdIndex.ZeroMembers | matrix.go:164-167 | a copy of the zero template has no members |
| IdIndex.ShiftMembers | matrix.go:382-401 | shifting the last word together with the offsets in it keeps every id's membership, and offset 1 becomes clear |
| IdIndex.ExtendMembers | matrix.go:395-401 | appending a zero word keeps every id's membership, and offset 1 of the new word is clear |
| IdIndex.AddClearMembers | matrix.go:361-362 | giving a new id a coordinate that is clear in the row adds no member |
| IdIndex.DropMembers | matrix.go:312 | deleting an id from the table removes only that id from every row's members |
| RowTable.SlotsInWords | matrix.go:74-96 | coordinates inside count slots lie in the template's words |
| RowTable.LightUpAdded | matrix.go:186-205 | setting a coordinate in one stored row adds exactly that (row, coordinate) pair |
| RowTable.TurnOffCleared | matrix.go:221-239 | clearing a coordinate in one stored row clears exactly that pair |
| RowTable.TurnOffAllCleared | matrix.go:242-248 | clearing a coordinate in every row clears exactly that coordinate everywhere and keeps the row keys |
| RowTable.AddedTrans | matrix.go:209-218 | two batches of bit setting compose into one that sets the union of their pairs |
| RowTable.ClearedTrans | matrix.go:251-273 | two batches of bit clearing compose into one that clears the union of their pairs |
| RowTable.CoordsClearedTrans | matrix.go:276-293 | two batches of clearing coordinates compose into one that clears the union |
| RowTable.RequestsOwn | matrix.go:209-218 | a live id's coordinate is requested for row k exactly when the request lists k for that id |
| RowTable.AddedMembers | matrix.go:209-218 | after a batch of bit setting, a row's members are the old ones plus the live ids whose coordinate was requested for that row |
| RowTable.ClearedMembers | matrix.go:251-273 | after a batch of bit clearing, a row's members are the old ones minus the live ids whose coordinate was requested for that row |
| RowTable.CoordsClearedMembers | matrix.go:276-293 | after TurnOffPointsByIds no listed id is a member of any row, and every other id keeps its membership |
| RowTable.LightUpValid | matrix.go:150-183 | setting a live id's bit in a stored row or in a copy of the template keeps the invariant |
| RowTable.TurnOffValid | matrix.go:221-239 | clearing a bit in one row keeps the invariant |
| RowTable.TurnOffAllValid | matrix.go:242-248 | clearing a coordinate in every row keeps the invariant |
| RowTable.AddedRequestsValid | matrix.go:209-218 | setting the bits a request names keeps the invariant: freed coordinates stay clear |
| RowTable.ClearedValid | matrix.go:251-273 | clearing bits keeps the invariant |
| RowTable.CoordsClearedValid | matrix.go:276-293 | clearing coordinates in every row keeps the invariant |
| RowTable.RemoveValid | matrix.go:296-313 | removing a live id keeps the invariant: its coordinate is freed, and it is cleared in every row |
| RowTable.ReuseValid | matrix.go:358-367 | moving a freed coordinate to a new id keeps the invariant |
| RowTable.ReuseMembers | matrix.go:358-367 | a reused coordinate is clear in every row: no row gains a member, and the new id is in no row |
| RowTable.ExpandValid | matrix.go:372-403 | appending a slot when the last word is full keeps the invariant (template and rows grow by one zero word) |
| RowTable.ShiftValid | matrix.go:372-403 | appending a slot by shifting the last word keeps the invariant: the ids of that word stay below offset 64 |
| RowTable.AppendMembers | matrix.go:372-403 | growing keeps every existing id's membership in every row, and the new id is in no row |
| RowTable.RemoveMembers | matrix.go:296-313 | removing a live id takes exactly that id out of every row's members |
| RowTable.RemovedIdsMembers | matrix.go:333-340 | after RemovePoints the listed ids are gone from every row and the other ids keep their membership |
| RowTable.RemovePointsStep | matrix.go:333-340 | each removal step extends the batch state by one listed id, live or not |
| RowTable.FirstMissing | matrix.go:478-483 | the position of the first requested key without a row, or the list length |
| RowTable.AndPresentHit | matrix.go:467-499 | over rows of one width, the AND fold of the present rows is that wide and hits exactly the coordinates hit in every present row; with none it is empty |
| RowTable.OrPresentHit | matrix.go:503-535 | over rows of one width, the OR fold of the present rows is that wide and hits exactly the coordinates hit in some present row; with none it is empty |
| Matrix.DedupIds | matrix.go:60-70 | the `unik` loop computes the de-duplication of the ids |
| Matrix.Layout | matrix.go:86-96 | the coordinate loop gives exactly the distinct ids, the i-th the coordinate InitCoord(i, n) |
| Matrix.Build | matrix.go:60-96 | count is the number of distinct ids, defPoint is ceil(count/64) zero words, the i-th distinct id gets InitCoord(i, count), and with empty row and freed tables this is a valid state |
| Matrix.InitValid | matrix.go:86-96 | the table Init builds is inside the slots and gives no coordinate to two ids |
| Matrix.LightUpStored | matrix.go:186-205 | lightUpPoint sets exactly the pair (key, id's coordinate) in an existing row; a missing row or an unknown id changes nothing; widths are kept |
| Matrix.TurnOffStored | matrix.go:229-238 | the row update clears exactly the pair (key, id's coordinate) in an existing row; a missing row or an unknown id changes nothing |
| Matrix.LightUpKeys | matrix.go:213-215 | for one id and its keys, exactly the pairs (key, coordinate) are set; no row is added |
| Matrix.TurnOffKeys | matrix.go:255-271 | for one id and its keys, exactly the pairs (key, coordinate) are cleared; no row is added or deleted |
| Matrix.LightUpRequests | matrix.go:209-218 | afterwards a coordinate is set in row k exactly when it was set or the request asks for it in k; the row keys are unchanged |
| Matrix.TurnOffRequests | matrix.go:251-273 | afterwards a coordinate is set in row k exactly when it was set and the request does not ask for it in k; the row keys are unchanged |
| Matrix.TurnOffEverywhere | matrix.go:242-248 | turnOffPoint result: every row with that coordinate cleared |
| Matrix.TurnOffIds | matrix.go:276-293 | afterwards a coordinate is set exactly when it was set and is not the coordinate of a live listed id |
| Matrix.ShiftOffsets | matrix.go:382-391 | the offset loop moves the ids of the last word up one offset, unless a word was added |
| Matrix.ShiftRows | matrix.go:395-401 | the row loop shifts every row's last word left by one, or appends a zero word |
| Matrix.AppendSlot | matrix.go:372-403 | the growing path: count + 1, the template grows by a word exactly when the last was full, the new id takes offset 1 of the last word, and the invariant is kept |
| Matrix.DataMatrix.constructor | matrix.go:21-41 | the Go zero value: empty tables, no slots, valid |
| Matrix.DataMatrix.Init | matrix.go:46-99 | with no ids only the three tables are emptied (count and defPoint stay); otherwise the state Build describes |
| Matrix.DataMatrix.GetIndex | matrix.go:112-122 | returns and stores the next key, saturating at MaxUint64; nothing else changes |
| Matrix.DataMatrix.RemoveIndex | matrix.go:125-131 | deletes exactly that row |
| Matrix.DataMatrix.RemoveIndexs | matrix.go:134-142 | deletes exactly the listed rows |
| Matrix.DataMatrix.LightUpPoint | matrix.go:150-183 | key 0 allocates as GetIndex does; for a live id the row (a copy of the template if new) gets the id's bit set, and its members gain exactly the id; for an unknown id no row changes |
| Matrix.DataMatrix.LightUpPoints | matrix.go:209-218 | as LightUpRequests, on the instance, keeping the invariant |
| Matrix.DataMatrix.TurnOffPoint | matrix.go:221-239 | clears a live id's bit in an existing row, and the row's members lose exactly that id; otherwise nothing changes |
| Matrix.DataMatrix.TurnOffPoints | matrix.go:251-273 | as TurnOffRequests, on the instance, keeping the invariant |
| Matrix.DataMatrix.TurnOffPointsByIds | matrix.go:276-293 | as TurnOffIds, on the instance, keeping the invariant |
| Matrix.DataMatrix.RemovePoint | matrix.go:296-313 | a live id leaves the table, its coordinate is recorded under it in remove (overwriting any earlier entry) and cleared in every row; an absent id changes nothing |
| Matrix.DataMatrix.RemovePoints | matrix.go:316-340 | the listed ids leave the table, the coordinates of the live ones are freed under their ids and cleared in every row |
| Matrix.DataMatrix.AddPoint | matrix.go:343-404 | no-op before Init or for a live id; otherwise one freed entry, any one, goes to the new id; with none, the growing path of AppendSlot |
| Matrix.DataMatrix.GetPoint | matrix.go:407-417 | the stored row and true, or the template and false; a row read back is as wide as the template, and a missing one reads as zeros |
| Matrix.DataMatrix.GetAndPoint | matrix.go:467-499 | with empFull false and a missing key the result is empty; otherwise it is the AND fold of the present rows |
| Matrix.DataMatrix.GetOrPoint | matrix.go:503-535 | the OR fold of the present rows; with empFull false only those before the first missing key |
| Matrix.DataMatrix.GetIds | matrix.go:538-568 | exactly the live ids whose bit is set in the row, each once; an empty row gives no ids |

## Left out

- Locking (`sync.RWMutex`, every `Lock`/`RLock` pair): the model is sequential.
- `GetName`, `CreateTime` and `CurrentIndexNum` (matrix.go:102-109, 145-147): plain field reads. The creation time, `StartMrcs` and `FinishMrcs` (matrix.go:624-639) read the clock.
- `String` (matrix.go:576-621) and the debug print at matrix.go:359: formatting and output only.
- `Handler` and `HandleFunc` (matrix.go:571-573): a call into a user callback.
- Matrix.DataMatrix.GetPoint: returns the row as a value. The Go method returns the stored slice or `defPoint` itself, so a caller that writes into the result changes the structure; that aliasing is not modelled.
- In-place slice updates are modelled as new values stored under the same key. Two keys whose rows share a backing array cannot arise from these operations, so nothing observable is lost.
- The loops over rows and requests work on a local value of the table that the class method stores at the end. The Go code writes each row as it goes; without concurrency the final state is the same.
- Go map iteration order is left open: the loops pick any remaining key, and `AddPoint` may reuse any freed entry. `GetIds` is stated as a set without duplicates, not as a particular order.
- `count` is an unbounded integer. A Go `int` would overflow only after 2^63 slots.
- `nil` maps: Go reads a nil map as empty, and only writes to one would panic. The model's tables are always maps; before `Init` has run, they are empty.
- TurnOffPoints: the Go method repeats the body of `TurnOffPoint` inline. The model shares `TurnOffStored` between the two.
- removePoint (matrix.go:316-330) is the unlocked twin of `RemovePoint`, which `RemovePoints` calls once per id. Without the lock the two are the same, so `Matrix.DataMatrix.RemovePoint` models both.
- isPointHit: its unused `id` parameter is dropped. The check itself is `Bits.IsPointHit`.
- BitAndOperate and BitOrOperate: they read no field of the struct, so they are modelled as module-level methods.
- Matrix.DataMatrix.GetAndPoint, Matrix.DataMatrix.GetOrPoint: require every row to be as wide as the template, which the invariant guarantees. With a wider later row, the Go loop would index past the accumulator and panic; that case is not modelled.
- Matrix.DataMatrix.LightUpPoints, Matrix.DataMatrix.TurnOffPoints, Matrix.DataMatrix.TurnOffPointsByIds: their ensures state which bits end up set, per row and coordinate. What that means for each row's ids is stated by the lemmas `RowTable.AddedMembers`, `RowTable.ClearedMembers` and `RowTable.CoordsClearedMembers`, not by the methods themselves.
- Freed coordinates are not conserved: `RemovePoint` overwrites `remove[id]`, so an id that is removed, reused and removed again loses its first freed coordinate. The model reproduces this and claims no conservation.
