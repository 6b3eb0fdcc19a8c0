# DB::Block, modelled in Dafny

`DB::Block` is the in-memory unit of tabular data that a columnar query
pipeline passes between its stages. It is an ordered sequence of
(name, column, type) entries, `ColumnWithNameAndType`, held in a `std::list`.
Two indices sit beside the list: `index_by_position`, a vector of list
iterators, and `index_by_name`, a map from a column name to an iterator.
Each `insert` changes the list, rebuilds the position index, and then sets
the name key. Each `erase` removes the name key, then erases the list node,
and then rebuilds the position index. Copy assignment rebuilds both indices
against the new list.

The model has four modules:

- `ListArena` (`list_arena.dfy`): the list as an arena of nodes with stable
  ids. An iterator is a node id, `std::list::insert` and `erase` are
  `ListInsert` and `ListErase`, and `std::distance` is `Distance`. Lemmas say
  how ordinals and a name index read as ordinals move under insertion,
  erasure and copying.
- `ColumnEntries` (`column_entries.dfy`): the entry, the error codes
  (`POSITION_OUT_OF_BOUND`, `NOT_FOUND_COLUMN_IN_BLOCK`,
  `SIZES_OF_COLUMNS_DOESNT_MATCH`), and loop-free definitions of what
  `rows()`, `bytes()`, `dumpNames()`, `cloneEmpty()` and
  `blocksHaveEqualStructure` compute, with their properties.
- `Blocks` (`block.dfy`): the class `Block`. Its fields are `nodes` (the
  arena), `order` (the list), `byPos` (`index_by_position`), `byName`
  (`index_by_name`) and `nextId` (the next free node id). `Valid()` ties the
  indices to the list. `Entries()` is the entry sequence and `Names()` is the
  name index read as ordinal positions. Each mutator states its new
  `Entries()` and `Names()` in terms of the old ones. Each query is stated
  against them. The free function `blocksHaveEqualStructure` is here too.
- `BlockProperties` (`block_properties.dfy`): lemmas that relate several
  operations, and short client call sequences that show what the contracts
  imply.

Thrown exceptions are results: `Result<T>` for queries and `Outcome` for
mutators. Only the error code is kept. Where Block.cpp throws, the model
returns the error with the block unchanged (`unchanged(this)`).

Behaviour reproduced as the code has it:

- `erase(position)` always removes the name key of the erased entry's name
  (Block.cpp line 85), even when that key designated another entry with the
  same name. When the key is already missing, Block.cpp erases `end()`,
  which is undefined behaviour. So `EraseAt` requires the key to be present.
- `rows()` compares each column only with the column just before it, and a
  column of size 0 switches the check off for the next column. So `[5, 3, 5]`
  fails, `[0, 3]` gives 3, and `[3, 0]` fails.
- `rows()` and `bytes()` dereference every column without a null check, so
  both require every column to be set. `rowsInFirstColumn()` handles a null
  first column and returns 0.
- `operator=` empties the name index and then reads `other.index_by_name`.
  When a block is assigned to itself, that is the index it has just emptied.
  So `b = b` keeps the entries and loses every name key. `Assign` states
  this case separately.
- The name index is last-write-wins. A block built only by appends maps each
  name to its last occurrence (`CloneEmpty`, `LastPositionsMeaning`).

## Model

| member | source | states |
|---|---|---|
| `ListArena.IndexOf` | dbms/src/Core/Block.cpp:164 | the ordinal of a node is in range, designates that node, and is its first occurrence |
| `ListArena.Distance` | dbms/src/Core/Block.cpp:164 | walking from the head reaches the node after exactly `IndexOf` steps, passing no earlier copy of it |
| `ListArena.ListInsertIndex` | dbms/src/Core/Block.cpp:57-58 | inserting a fresh node at `p` keeps the other iterators valid and moves those at or after `p` one position right |
| `ListArena.ListEraseIndex` | dbms/src/Core/Block.cpp:86-87 | erasing the node at `p` keeps the other iterators valid and moves those after `p` one position left |
| `ListArena.PositionsAfterInsert` | dbms/src/Core/Block.cpp:57-59 | after inserting at `p` and pointing `name` at the new node, the name index read as ordinals is the old one shifted up from `p`, with `name` at `p` |
| `ListArena.PositionsAfterErase` | dbms/src/Core/Block.cpp:84-87 | after removing key `name` and erasing the node at `p`, which no other key designates, the name index read as ordinals is the old one without `name`, shifted down past `p` |
| `ListArena.PositionsOfTranslated` | dbms/src/Core/Block.cpp:25-30 | a name index moved to a list of the same length by same-ordinal translation gives every key its old ordinal |
| `ListArena.ResolveInsert` | dbms/src/Core/Block.cpp:57 | inserting a node holding `e` at `p` puts `e` at ordinal `p` of the entry sequence, with the rest in order around it |
| `ListArena.ResolveErase` | dbms/src/Core/Block.cpp:86 | erasing the node at `p` removes exactly ordinal `p` from the entry sequence, keeping the rest in order |
| `ListArena.ResolveFresh` | dbms/src/Core/Block.cpp:21 | a copied list of fresh nodes holds exactly the source entries in order |
| `Blocks.Block.Copy` | dbms/src/Core/Block.cpp:13-16 | the copy constructor gives a valid block with the source's entries and the source's names at the same ordinals |
| `Blocks.Block.Assign` | dbms/src/Core/Block.cpp:19-33 | assignment leaves both indices consistent with the block's own list, the entries equal to the source's, and every source name key at the same ordinal; self-assignment keeps the entries and empties the name index |
| `Blocks.CoherentAfterInsert` | dbms/src/Core/Block.cpp:57-59 | a fresh node inserted at `p` with its name key pointed at it keeps every listed node live and unique and every key on a node of its name, puts `elem` at ordinal `p`, and shifts the other keys' ordinals up from `p` |
| `Blocks.CoherentAfterErase` | dbms/src/Core/Block.cpp:84-87 | erasing the node at `p` together with the key of its entry's name keeps the invariant, removes exactly ordinal `p`, and shifts the other keys' ordinals down past `p` |
| `Blocks.CoherentCopy` | dbms/src/Core/Block.cpp:21-30 | a fresh list holding the copied entries, with each source key translated to the same ordinal, satisfies the invariant and reads as the source's entries and ordinals |
| `Blocks.CopyNameIndex` | dbms/src/Core/Block.cpp:25-30 | the rebuilt name index has exactly the source keys, each designating the node of the new list at the source node's distance from the head |
| `Blocks.Block.RebuildIndexByPosition` | dbms/src/Core/Block.cpp:36-42 | afterwards the position index has the list's length and entry `i` designates the `i`-th node |
| `Blocks.Block.Insert` | dbms/src/Core/Block.cpp:63-68 | appends `elem`, keeps the indices valid, and points the name of `elem` at the last position, replacing an earlier same-named key |
| `Blocks.Block.InsertAt` | dbms/src/Core/Block.cpp:45-60 | fails with POSITION_OUT_OF_BOUND and changes nothing when `position > columns()`; otherwise puts `elem` at `position`, moves every later entry one place right, and points its name at `position` |
| `Blocks.Block.InsertUnique` | dbms/src/Core/Block.cpp:71-75 | appends as `insert` does exactly when the name is not a key, and changes nothing otherwise |
| `Blocks.Block.EraseAt` | dbms/src/Core/Block.cpp:78-88 | fails with POSITION_OUT_OF_BOUND and changes nothing when `position >= columns()`; otherwise removes exactly that entry, keeps the order of the rest, and removes the name key of its name |
| `Blocks.Block.EraseByName` | dbms/src/Core/Block.cpp:91-102 | fails with NOT_FOUND_COLUMN_IN_BLOCK and changes nothing for a name that is not a key; otherwise removes the entry the key designates; afterwards the name is not a key |
| `Blocks.Block.EraseNode` | dbms/src/Core/Block.cpp:98-101 | the tail both `erase` overloads share: removes the entry at `p` and the key of its name, keeping the rest in order and shifting later ordinals down |
| `Blocks.Block.GetByPosition` | dbms/src/Core/Block.cpp:105-126 | the entry at that ordinal, or POSITION_OUT_OF_BOUND exactly when the position is not below the column count |
| `Blocks.Block.GetByName` | dbms/src/Core/Block.cpp:129-148 | for a key, the entry at the key's ordinal, which carries that name; otherwise NOT_FOUND_COLUMN_IN_BLOCK |
| `Blocks.Block.Has` | dbms/src/Core/Block.cpp:151-154 | true exactly when the name is a key, that is, when `getByName` succeeds |
| `Blocks.Block.GetPositionByName` | dbms/src/Core/Block.cpp:157-165 | for a key, its ordinal, at which `getByPosition` returns what `getByName` returns; otherwise NOT_FOUND_COLUMN_IN_BLOCK |
| `Blocks.Block.Rows` | dbms/src/Core/Block.cpp:168-185 | with every column set, the walk's result equals `RowsOf` of the column sizes: a mismatch against a nonzero predecessor fails, otherwise the last size or 0 |
| `Blocks.Block.RowsInFirstColumn` | dbms/src/Core/Block.cpp:188-194 | 0 for no columns or a null first column, else the first column's size |
| `Blocks.Block.Columns` | dbms/src/Core/Block.cpp:197-200 | the number of entries, which is exactly the range of valid positions |
| `Blocks.Block.Bytes` | dbms/src/Core/Block.cpp:203-210 | with every column set, the sum of all byte footprints |
| `Blocks.Block.DumpNames` | dbms/src/Core/Block.cpp:213-223 | the names in list order joined by ", " |
| `Blocks.Block.CloneEmpty` | dbms/src/Core/Block.cpp:226-234 | a fresh valid block holding the empty clone of each entry in order, with the same structure, and whose name index maps each name to its last position |
| `Blocks.Block.GetColumns` | dbms/src/Core/Block.cpp:237-240 | the entries in list order, agreeing position by position with `getByPosition` |
| `Blocks.Block.GetColumnsList` | dbms/src/Core/Block.cpp:243-251 | one (name, type) pair per entry, in list order |
| `Blocks.BlocksHaveEqualStructure` | dbms/src/Core/Block.cpp:254-270 | true exactly when the column counts are equal and the type names are equal at every position |
| `ColumnEntries.RowsOfUniform` | dbms/src/Core/Block.cpp:168-185 | `rows()` of a nonempty block whose columns all have `n` rows is `n` |
| `ColumnEntries.RowsOfNonzeroHead` | dbms/src/Core/Block.cpp:170-184 | when the first column is not empty, `rows()` succeeds exactly when every column has its size, and then returns that size |
| `ColumnEntries.RowsOfExamples` | dbms/src/Core/Block.cpp:170-181 | `rows()` gives 0 for none, 5 for [5, 5, 5], 3 for [0, 3], and fails for [5, 3, 5] and [3, 0] |
| `ColumnEntries.TotalBytesAppend` | dbms/src/Core/Block.cpp:203-210 | the byte count is additive over any split of the columns |
| `ColumnEntries.BytesAfterInsert` | dbms/src/Core/Block.cpp:203-210 | inserting a column anywhere adds exactly its byte footprint |
| `ColumnEntries.BytesAfterErase` | dbms/src/Core/Block.cpp:203-210 | erasing a column removes exactly its byte footprint |
| `ColumnEntries.JoinNamesSnoc` | dbms/src/Core/Block.cpp:216-221 | appending a name to a nonempty rendering adds ", " and the name |
| `ColumnEntries.SameStructureProperties` | dbms/src/Core/Block.cpp:254-270 | structural equality is reflexive, symmetric and transitive, and renaming a column never breaks it |
| `ColumnEntries.CloneEmptyProperties` | dbms/src/Core/Block.cpp:226-234 | the empty clone keeps structure and names and, when no column is null, has 0 rows |
| `ColumnEntries.LastPositionsMeaning` | dbms/src/Core/Block.cpp:63-68 | appending entries one by one leaves exactly the occurring names as keys, each at its last occurrence |
| `BlockProperties.NameIndexSound` | dbms/src/Core/Block.cpp:57-67 | every name key designates a live entry with that name, so no two keys share a position |
| `BlockProperties.InsertAtEndIsInsert` | dbms/src/Core/Block.cpp:51-55 | at `position == columns()` the name index `insert(position, elem)` promises is the one `insert(elem)` promises: the shift moves no key |
| `BlockProperties.RowsAgreesWithFirstColumn` | dbms/src/Core/Block.cpp:168-194 | with a nonempty first column, `rows()` succeeds exactly when all columns have its size, and then equals `rowsInFirstColumn()` |
| `BlockProperties.CloneEmptyMatches` | dbms/src/Core/Block.cpp:226-234 | a block and its empty clone have equal structure, and the clone has 0 rows |
| `BlockProperties.InsertThenLookUp` | dbms/src/Core/Block.cpp:63-68 | after `insert(elem)`, `getByName` returns `elem` and `getPositionByName` returns `columns() - 1`, whatever same-named entries existed |
| `BlockProperties.InsertUniqueTwice` | dbms/src/Core/Block.cpp:71-75 | two `insertUnique` calls with a new name add exactly one entry |
| `BlockProperties.EraseThenLookUp` | dbms/src/Core/Block.cpp:78-88 | after `erase(p)`, `getByPosition(p)` returns the entry that was at `p + 1` |
| `BlockProperties.CopyThenInsert` | dbms/src/Core/Block.cpp:13-33 | a copy with an entry inserted holds the original's entries plus the new one, and the original's name index with the new name at the end; the original is untouched because the copy shares no storage with it |
| `BlockProperties.BuildScenario` | dbms/src/Core/Block.cpp:45-68 | appending "a" and "b" and inserting "c" at 1 gives the order a, c, b with "b" at position 2 |
| `BlockProperties.Scenario` | dbms/src/Core/Block.cpp:157-223 | that block renders as "a, c, b", has 3 rows, and `getPositionByName("b")` is 2 |

## Left out

- Exception messages: only the error code is modelled. This leaves out the
  text built with `toString`, the `dumpNames()` text put into messages, and
  the `size() - 1` underflow in the `getByPosition` message on an empty block.
- The non-const overloads of `getByPosition` and `getByName` return a
  mutable reference. The model returns the entry as a value, so writes
  through that reference are not modelled.
- The column storage engine and the type system are foreign code:
  `IColumn::size`, `IColumn::byteSize` and `IDataType::getName` are opaque
  fields of an entry.
- `CloneEmptyEntry`: `ColumnWithNameAndType::cloneEmpty` is not part of this
  model. It is taken to keep the name and the type, to give a set column 0
  rows and 0 bytes, and to leave a null column null.
- Blocks.Block.Bytes: does not model the 64-bit `size_t` wrap-around of the sum,
  because column footprints that overflow 2^64 bytes cannot occur.
- Reference counting and shared ownership of column and type payloads are
  not modelled. Entries are values, so sharing cannot be observed.
- The header `DB/Core/Block.h` is not part of this model. The default
  constructor is taken to build an empty block, and the container types are
  taken from their use in Block.cpp. The destructor is not modelled.
- The `std::stringstream` machinery of `dumpNames()` is not modelled. It is
  plain string concatenation here.
