# XOR-linked doubly-linked list

A Dafny model of `dllist<T>`, a doubly-linked list in which every node
stores a single word, the exclusive or of the addresses of its two
neighbours (`xorptr<T>`), and two sentinel nodes `front_` and `back_`
close the payload nodes into a ring `[front_, n1, .., nk, back_]`.
Walking the list needs two adjacent addresses: the one you come from
unlocks the one you go to.

The model has six modules:

- `Bits`: bitwise exclusive or on unbounded naturals, defined bit by bit,
  with its algebra (commutative, self-inverse, zero-neutral, bounded,
  splittable into high and low parts).
- `XorPtr` (`include/xorptr.hxx`): addresses are 64-bit words (`Addr`, an
  integer subset below `2^64`, zero being `nullptr`). It models both
  variants of `xorptr_traits`. The whole-word `uintptr_t` variant is
  `Create`, `CreateNull` and `Extract`. The byte-by-byte
  `reinterpret_cast` variant is `CreateBytewise`, `CreateNullBytewise` and
  `ExtractBytewise`, whose loop XORs an `array` holding the eight bytes of
  `vp1` in place. The byte loop is proved to compute the whole-word value.
  The `xorptr<T>` class is the value `Cell`, with its constructors
  `NullCell`/`CellOf` and its `operator ^` as `Xor`.
- `Ring`: a ring is a sequence of distinct addresses where the cell of every
  address encodes its two cyclic neighbours (`Linked`, `Distinct`). A ring
  can be read from any position and in either direction.
- `Node` (`dllist_node_ptr_only`, `dllist_node`): the class `Arena` holds
  the `xorptr_` cell of every allocated node (`link`) and the `datum_` of
  every payload node (`datum`). Its methods are `nextptr`, `updateptr`,
  `setptr`, `swap` and the static `insert` and `remove`. They are
  specified by the pure maps `Updated`, `Inserted` and `Removed`, and
  the lemmas state what they do to a ring.
- `Cursor` (`dllist_iter`, `dllist_citer`): the iterator `(prevptr_,
  nodeptr_)` with `++`, `--` and `==`.
- `Shape` and `Dllist` (`dllist<T>`): the class `DList` with `size_`, the
  sentinel addresses, the shared arena and the ghost sequence of payload
  nodes. `Valid()` says that the ring is linked and duplicate-free, that
  exactly the payload nodes carry data, and that `size_` counts them. Every
  operation keeps `Valid()`. It states the new node sequence, the new
  element sequence, the cells allocated or released, and that no cell
  outside the list's ring changes. `Shape` states the same steps on plain
  values, including the fix-up of `swap`.

Allocation is a parameter: each operation that calls `new` takes the
address the allocator returned, which must be unused in the arena. `delete`
removes the address from the arena.

## Model

| member | source | states |
|---|---|---|
| Bits.XorComm | include/dllist.hxx:229-248 | XOR is commutative |
| Bits.XorSelf | include/dllist.hxx:229-248 | `a ^ a == 0` |
| Bits.XorZero | include/dllist.hxx:229-248 | `a ^ 0 == a` on both sides |
| Bits.XorRecover | include/dllist.hxx:229-248 | XORing either operand in again gives back the other one |
| Bits.XorBound | include/xorptr.hxx:23-25 | the XOR of two numbers below `2^k` is below `2^k`, so the XOR of two words is a word |
| Bits.XorSplit | include/xorptr.hxx:61-63 | XORing `q * 2^k + r` splits into XORing the high parts and the low `k` bits separately |
| XorPtr.WordXor | include/xorptr.hxx:23-25 | the XOR of two 64-bit words is a 64-bit word equal to their bitwise XOR |
| XorPtr.Create | include/xorptr.hxx:23-29 | `create(p1, p2)`: extracting with `p1` gives `p2` and extracting with `p2` gives `p1` |
| XorPtr.CreateNull | include/xorptr.hxx:19-21 | `create()` is the zero word, and extracting any address from it gives that address back |
| XorPtr.SelfCreateIsNull | include/xorptr.hxx:19-25 | `create(p, p)` equals `create()` for every address `p` |
| XorPtr.CreateSymmetric | include/xorptr.hxx:23-25 | `create(p1, p2) == create(p2, p1)` |
| XorPtr.Extract | include/xorptr.hxx:31-37 | `extract(xp, p)` returns the `r` with `p ^ r` (that is, `create(p, r)`) equal to `xp`, so it recovers the endpoint `create` paired with `p` |
| XorPtr.CreateInjective | include/xorptr.hxx:31-37 | once one endpoint is fixed, the encoding determines the other endpoint |
| XorPtr.DigitsXor | include/xorptr.hxx:61-63 | XORing the `k` low bytes of two numbers pairwise gives the bytes of their XOR |
| XorPtr.ValueBytes | include/xorptr.hxx:57-60 | the eight bytes of an address, read back as a number, are that address |
| XorPtr.XorRepresentation | include/xorptr.hxx:61-63 | the loop `ucp1[i] ^= ucp2[i]` over the eight bytes leaves in `ucp1` the pairwise XOR of the old bytes of `ucp1` and `ucp2` |
| XorPtr.Representation | include/xorptr.hxx:57-60 | a fresh local copy of a pointer holds its eight-byte representation |
| XorPtr.BytesXor | include/xorptr.hxx:55-65 | the byte-wise XOR of two representations, read as a word, is the whole-word XOR |
| XorPtr.XorBytewise | include/xorptr.hxx:56-64 | the byte loop on copies of two words returns the number its XORed bytes spell, and that number is the words' whole-word XOR |
| XorPtr.CreateBytewise | include/xorptr.hxx:55-77 | the byte-loop `create(p1, p2)` equals the whole-word `create(p1, p2)` |
| XorPtr.CreateNullBytewise | include/xorptr.hxx:51-53 | the byte-loop `create()` equals the whole-word `create()` |
| XorPtr.ExtractBytewise | include/xorptr.hxx:80-103 | the byte-loop `extract(xp, p)` equals the whole-word `extract(xp, p)` |
| XorPtr.NullCell | include/xorptr.hxx:118-119 | `xorptr()` holds `create()`, which unlocks every address to itself |
| XorPtr.CellOf | include/xorptr.hxx:120-123 | `xorptr(p1, p2)` holds `create(p1, p2)`, so each endpoint unlocks the other |
| XorPtr.Xor | include/xorptr.hxx:129-134 | `operator ^(b)` returns the `r` with `create(b, r)` equal to the stored word; the cell is a value and is left unchanged |
| XorPtr.CellOfSymmetric | include/xorptr.hxx:120-123 | cells built from the same pair in either order are equal |
| Node.Updated | include/dllist.hxx:229-274 | `updateptr(old, new)` turns a cell `a ^ old` (in either order) into `a ^ new` |
| Node.Arena.NextPtr | include/dllist.hxx:210-218 | `nextptr(p)` on a cell `p ^ q` (in either order) returns `q` and changes nothing |
| Node.Arena.UpdatePtr | include/dllist.hxx:271-274 | only the cell of `x` changes, to `Updated(old cell, old, new)`; no datum changes |
| Node.Arena.SetPtr | include/dllist.hxx:290-292 | only the cell of `x` changes, to `p1 ^ p2`; no datum changes |
| Node.Arena.SwapPtr | include/dllist.hxx:146-149 | the two cells are exchanged and nothing else changes |
| Node.Arena.SwapNodes | include/dllist.hxx:533-537 | the two cells and the two data are exchanged and nothing else changes |
| Node.Arena.Place | include/dllist.hxx:130-131 | a node built in place at an unused address holds `prev ^ next` |
| Node.Arena.New | include/dllist.hxx:437-438 | `new dllist_node<T>(v)` at an unused address holds `nullptr ^ nullptr` and the datum `v` |
| Node.Arena.Delete | include/dllist.hxx:1156-1160 | `delete` releases the node's cell and datum |
| Node.Arena.Insert | include/dllist.hxx:328-352 | the static `insert` returns `before`'s other neighbour and leaves the cells as `Inserted` gives them |
| Node.Arena.Remove | include/dllist.hxx:372-400 | the static `remove` returns the node after `before` and leaves the cells as `Removed` gives them |
| Node.InsertedRing | include/dllist.hxx:328-352 | on a ring `[prev, before, oldnext, ..]`, `insert(prev, before, n)` returns `oldnext` and the ring becomes `[prev, before, n, oldnext, ..]`, linked and distinct; only the cells of `before`, `n` and `oldnext` change |
| Node.RemovedRing | include/dllist.hxx:372-400 | on a ring `[prev, before, oldnext, newnext, ..]`, `remove(prev, before)` returns `oldnext` and the ring becomes `[prev, before, newnext, ..]`, linked and distinct; `oldnext`'s cell is the zero encoding; only the cells of `before`, `oldnext` and `newnext` change |
| Node.InsertRemoveRoundTrip | include/dllist.hxx:328-400 | `remove(prev, before)` right after `insert(prev, before, n)` restores every cell except `n`'s, which is left null |
| Node.InsertBefore | include/dllist.hxx:328-352 | `insert` at any position `j` of a ring puts `n` before position `j` and returns the address at `j` |
| Node.RemoveAt | include/dllist.hxx:372-400 | `remove` at any position `j` drops position `j` and returns the address there |
| Node.InsertBeforeLast | include/dllist.hxx:1173-1176 | `insert(&front_, &back_, n)` walks the ring backwards and puts `n` just before `back_` |
| Node.RemoveBeforeLast | include/dllist.hxx:1181-1185 | `remove(&front_, &back_)` drops the node just before `back_` |
| Node.AllocInsert | include/dllist.hxx:1203-1207 | a new node at an unused address linked before position `j`: the ring grows by `n` and no other cell off the ring changes |
| Node.AllocInsertFirst | include/dllist.hxx:1131-1134 | `insert(&back_, &front_, new node)` links the new node right after `front_` |
| Node.AllocInsertLast | include/dllist.hxx:1173-1176 | `insert(&front_, &back_, new node)` links the new node right before `back_` |
| Node.RemoveFree | include/dllist.hxx:1259-1262 | `remove` then `delete` at position `j`: the ring loses position `j`, the arena loses that node, and no other cell off the ring changes |
| Node.RemoveFreeLast | include/dllist.hxx:1181-1185 | `remove(&front_, &back_)` then `delete`: the node before `back_` leaves the ring and the arena |
| Ring.Reversal | include/dllist.hxx:201-208 | a ring is linked and distinct read backwards exactly when it is read forwards (`nextptr` also gives the previous node) |
| Cursor.Inc | include/dllist.hxx:1528-1533 | `++` makes the old `nodeptr_` the new `prevptr_` and unlocks the next node from the cell of `nodeptr_` |
| Cursor.Dec | include/dllist.hxx:1552-1557 | `--` makes the old `prevptr_` the new `nodeptr_` and unlocks the node before it from the cell of `prevptr_` |
| Cursor.IncThenDec | include/dllist.hxx:1528-1557 | `--` after `++` restores `(prevptr_, nodeptr_)`, on any cell |
| Cursor.DecThenInc | include/dllist.hxx:1528-1557 | `++` after `--` restores `(prevptr_, nodeptr_)`, on any cell |
| Cursor.IncAt | include/dllist.hxx:1644-1649 | on a linked ring, `++` moves the cursor at position `j` to the next position |
| Cursor.DecAt | include/dllist.hxx:1657-1662 | on a linked ring, `--` moves the cursor at position `j` to the previous position |
| Cursor.EqualIgnoresPrev | include/dllist.hxx:1494-1496 | `==` is reflexive and symmetric and ignores `prevptr_`: cursors on the same node are equal whatever node they came from |
| Cursor.EqualAt | include/dllist.hxx:1494-1496 | `==` compares `nodeptr_` only; on a ring of distinct addresses two cursors are equal exactly when they stand at the same position |
| Cursor.AdvanceAt | include/dllist.hxx:1528-1533 | `k` increments from position `j` land at `j + k` and visit `w[j..j + k]` |
| Cursor.RetreatAt | include/dllist.hxx:1552-1557 | `k` decrements from position `j` land at `j - k` and visit the reversal of `w[j - k..j]` |
| Shape.RingEnds | include/dllist.hxx:1057-1061 | the cells of the sentinels, first and last nodes of a list name the neighbours `swap` reads from them |
| Shape.RetargetEmpty | include/dllist.hxx:1038-1043 | the fix-up of an empty list points its sentinels at the other list's |
| Shape.RetargetOne | include/dllist.hxx:1044-1054 | the fix-up of a one-element list links the element between the other list's sentinels |
| Shape.RetargetMany | include/dllist.hxx:1055-1070 | the fix-up of a longer list links its nodes between the other list's sentinels |
| Shape.RetargetSpec | include/dllist.hxx:1038-1070 | each fix-up leaves the payload nodes linked behind the other list's sentinels and changes no cell outside the ring |
| Shape.Exchanged | include/dllist.hxx:1105-1107 | `front_.swap(l.front_)` and `back_.swap(l.back_)` trade the two pairs of sentinel cells and nothing else |
| Shape.SwapSentinels | include/dllist.hxx:1105-1107 | after both fix-ups, the exchange closes each list's old nodes into a linked, distinct ring behind the other pair of sentinels |
| Shape.Swapped | include/dllist.hxx:1020-1111 | the whole `swap` on the arena allocates and releases no cell |
| Shape.SwappedPair | include/dllist.hxx:1020-1111 | `swap` turns two well-formed, disjoint lists into two well-formed, disjoint lists with their payload nodes traded; no cell outside the two rings changes |
| Shape.SwapSelfInverse | include/dllist.hxx:1020-1111 | `swap` applied twice restores every cell of the arena |
| Dllist.DList.constructor | include/dllist.hxx:636-637 | `dllist()`: a valid empty list whose two sentinel cells both hold the zero encoding |
| Dllist.DList.Empty | include/dllist.hxx:848-850 | `empty()` holds exactly when there are no elements |
| Dllist.DList.Size | include/dllist.hxx:857-859 | `size()` is the number of elements |
| Dllist.DList.Front | include/dllist.hxx:868-870 | `front()` is the first element |
| Dllist.DList.Back | include/dllist.hxx:880-882 | `back()` is the last element |
| Dllist.DList.Begin | include/dllist.hxx:901-903 | `begin()` is the cursor at the first position after `front_` |
| Dllist.DList.End | include/dllist.hxx:916-918 | `end()` is the cursor at `back_` |
| Dllist.DList.Deref | include/dllist.hxx:1509-1511 | `*it`, `nodeptr_->to_node().datum()`, is the element at the cursor's position in the list |
| Dllist.DList.Traversal | include/dllist.hxx:901-918 | `begin()` reaches `end()` in exactly `size()` increments, visiting the elements in order and never meeting `end()` earlier; `begin() == end()` exactly when the list is empty |
| Dllist.DList.ReverseTraversal | include/dllist.hxx:1552-1557 | `end()` reaches `begin()` in exactly `size()` decrements, visiting the nodes in reverse order |
| Dllist.DList.PushFront | include/dllist.hxx:1131-1134 | `push_front(v)` prepends `v`, grows `size_` by one, allocates one node and changes no cell off the ring |
| Dllist.DList.PushBack | include/dllist.hxx:1173-1176 | `push_back(v)` appends `v`, grows `size_` by one, allocates one node and changes no cell off the ring |
| Dllist.DList.PopFront | include/dllist.hxx:1156-1160 | `pop_front()` on a non-empty list drops the first element and shrinks `size_` by one; its node is released |
| Dllist.DList.PopBack | include/dllist.hxx:1181-1185 | `pop_back()` on a non-empty list drops the last element and shrinks `size_` by one; its node is released |
| Dllist.DList.Link | include/dllist.hxx:1204-1207 | `--pos` then the static `insert` puts the new value before position `j` and returns the retreated `pos` and `nextnode` |
| Dllist.DList.Emplace | include/dllist.hxx:1203-1209 | `emplace(pos, v)` puts `v` before `pos`; the result designates what `pos` designated, one position further on |
| Dllist.DList.EmplaceFront | include/dllist.hxx:1215-1218 | `emplace_front(v)` prepends `v` |
| Dllist.DList.EmplaceBack | include/dllist.hxx:1224-1227 | `emplace_back(v)` appends `v` |
| Dllist.DList.Insert | include/dllist.hxx:1231-1237 | `insert(pos, v)` puts `v` before `pos` and returns the retreated `pos`, which designates the node before the new one |
| Dllist.InsertResultMissesPos | include/dllist.hxx:1229-1237 | on the ring after one insert, the cursor `insert` returns designates neither the new node nor the node `pos` designated; the cursor `emplace` returns designates the latter |
| Dllist.DList.Erase | include/dllist.hxx:1259-1266 | `erase(pos)` removes the element at `pos`, shrinks `size_` by one, releases its node, and returns the cursor at its successor |
| Dllist.EraseAt | include/dllist.hxx:1259-1263 | on a well-formed list, the cursor stepped back, the node `remove` unlinks and the cursor stepped forward again are the ones `erase` needs |
| Dllist.DList.EraseRange | include/dllist.hxx:1272-1277 | `erase(first, last)` removes the elements from `first` up to, not including, `last`, releases their nodes and returns a cursor equal to `last` |
| Dllist.DList.EraseRound | include/dllist.hxx:1273-1275 | one round `first = erase(first)` erases one more node and keeps the loop invariant |
| Dllist.DList.Clear | include/dllist.hxx:1011-1015 | `clear()` leaves a valid empty list whose sentinel cells hold the zero encoding, and releases exactly the old nodes |
| Dllist.DList.ClearRound | include/dllist.hxx:1012-1014 | one round `pop_back()` releases one more node and keeps the loop invariant |
| Dllist.DList.FixUp | include/dllist.hxx:1038-1070 | one side's fix-up of `swap`, by the size 0, 1 or more, leaves the cells as `Retarget` gives them |
| Dllist.DList.SwapRings | include/dllist.hxx:1038-1107 | both fix-ups and the sentinel exchange leave the arena as `Swapped` gives it |
| Dllist.DList.Swap | include/dllist.hxx:1020-1111 | `swap(l)` trades the elements and sizes of the two lists, keeps both valid and disjoint, and changes no cell off the two rings |
| Dllist.DList.InsertRangeAsWritten | include/dllist.hxx:1245-1250 | the range insert as written leaves the list as `Retreating` gives it |
| Dllist.DList.RetreatRound | include/dllist.hxx:1247-1248 | one round `pos = insert(pos, v)` of the range insert as written keeps its loop invariant |
| Dllist.RetreatingFirstLast | include/dllist.hxx:1245-1250 | the range insert as written puts the first value of the range after all the others |
| Dllist.InsertRangeReorders | include/dllist.hxx:1245-1250 | on `[0]`, inserting `[1, 2]` at `end()` as written gives `[2, 0, 1]`, not `[0, 1, 2]` |
| Dllist.DList.InsertRange | include/dllist.hxx:1245-1250 | the range insert with each step `pos = emplace(pos, v)` puts the values before `pos` in their own order and grows `size_` by their number |
| Dllist.DList.PlaceRound | include/dllist.hxx:1247-1248 | one round of the corrected range insert keeps its loop invariant |

## Left out

- `src/main.cpp` is a console demo: printing is not modelled.
- The preprocessor selection between the two `xorptr_traits` variants: both variants are modelled side by side.
- The `reinterpret_cast`, `static_cast` and `volatile` mechanics: a pointer is its address, and `to_node()` is a lookup in the arena's data map.
- Addresses are an integer type bounded by `2^64` rather than a `bv64`. The exclusive or is defined bit by bit, so that the byte decomposition of the byte loop can be proved by arithmetic.
- Allocation failure is not modelled. `new` is the address the allocator returned, passed as a parameter that must be unused in the arena.
- Const and non-const overloads and copy and move overloads (`push_front(T&&)`, `dllist_node(T&&)`) are each modelled once, as they compute the same value.
- Postfix `++`/`--` are not modelled separately: each copies the cursor, moves it as `Cursor.Inc`/`Cursor.Dec` do, and returns the unmoved copy.
- `Cursor.Inc`, `Cursor.Dec`: the iterator is copied by value everywhere it is used, so it is a datatype, and `++`/`--` are functions that return the moved cursor rather than updating two fields in place.
- The fill, initializer-list, range, copy and move constructors, `assign` and `operator=` are compositions of `push_back` and `swap`; they are not modelled on their own.
- The destructor's exception handling is not modelled; `clear` covers its effect on the list.
- Reverse iterators and `cbegin`/`cend` are not modelled.
- Comparison operators built on `std::equal` and `std::lexicographical_compare` are not modelled.
- `Dllist.DList.Swap`: requires the two lists to be different objects whose rings share no address. `swap` of a list with itself is not modelled.
- `Dllist.DList.InsertRangeAsWritten`: requires at most `j` values for a `pos` at ring position `j`. More values would make `pos` pass `begin()` and link a node between `back_` and `front_`, outside the payload sequence.

## Findings

| source | as written | input that shows it | evidently intended | confidence | as-written member | corrected member |
|---|---|---|---|---|---|---|
| include/dllist.hxx:1229-1237 | the comment calls `insert(pos, value)` identical to `emplace` apart from taking a value, but `insert` returns the retreated `pos` (line 1236), while `emplace` returns `iterator(newnode, nextnode)` (line 1208) | the list `[0]` with `insert(end(), 1)` returns a cursor on `0`, where `emplace(end(), 1)` returns one equal to `end()` | `insert` returns what `emplace` returns, the cursor at the node `pos` designated | not executed | Dllist.DList.Insert, Dllist.InsertResultMissesPos | Dllist.DList.Emplace |
| include/dllist.hxx:1245-1250 | `pos = insert(pos, *first)`, where `insert` returns the retreated `pos` (lines 1231-1237), so each value goes in one place further back than the one before | the list `[0]` with `insert(end(), {1, 2})` gives `[2, 0, 1]` | the range goes in before `pos` in its own order, `[0, 1, 2]`; each step must return the cursor at the node `pos` designated, as `emplace` does | not executed | Dllist.DList.InsertRangeAsWritten, Dllist.InsertRangeReorders | Dllist.DList.InsertRange |
