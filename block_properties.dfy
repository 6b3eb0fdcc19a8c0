/**
 * Properties of `DB::Block` that relate several operations, and the
 * behaviour of short call sequences, derived from the contracts in `Blocks`.
 */
module BlockProperties {
  import opened ListArena
  import opened ColumnEntries
  import opened Blocks

  /**
   * Every name key designates an entry of that name, so two keys never share
   * a position.
   */
  lemma NameIndexSound(b: Block)
    requires b.Valid()
    ensures forall n :: n in b.Names() ==> b.Names()[n] < |b.Entries()| && b.Entries()[b.Names()[n]].name == n
    ensures forall n, m :: n in b.Names() && m in b.Names() && n != m ==> b.Names()[n] != b.Names()[m]
  {
    forall n | n in b.Names()
      ensures b.Names()[n] < |b.Entries()| && b.Entries()[b.Names()[n]].name == n
    {
      var id := b.byName[n];
      assert b.Names()[n] == IndexOf(b.order, id);
      assert b.Entries()[IndexOf(b.order, id)] == b.nodes[id];
    }
  }

  /**
   * `insert(position, elem)` at `position == columns()` has the effect
   * `insert(elem)` has on the name index: the shift of `InsertAt`'s contract
   * moves no key.
   */
  lemma InsertAtEndIsInsert(b: Block, e: Entry)
    requires b.Valid()
    ensures ShiftUp(b.Names(), |b.Entries()|)[e.name := |b.Entries()|] == b.Names()[e.name := |b.Entries()|]
  {
    NameIndexSound(b);
    ShiftUpPastEnd(b.Names(), |b.Entries()|);
  }

  /**
   * `rows()` against `rowsInFirstColumn()`: when the first column is not
   * empty, `rows()` succeeds exactly when every column has its size, and
   * then the two agree.
   */
  lemma RowsAgreesWithFirstColumn(b: Block)
    requires b.Valid() && AllColumnsSet(b.Entries()) && b.RowsInFirstColumn() != 0
    ensures RowsOf(Sizes(b.Entries())).Success? <==>
              forall i :: 0 <= i < |b.Entries()| ==> b.Entries()[i].column.value.size == b.RowsInFirstColumn()
    ensures RowsOf(Sizes(b.Entries())).Success? ==> RowsOf(Sizes(b.Entries())).value == b.RowsInFirstColumn()
  {
    var sizes := Sizes(b.Entries());
    RowsOfNonzeroHead(sizes);
    assert forall i :: 0 <= i < |sizes| ==> sizes[i] == b.Entries()[i].column.value.size;
  }

  /** The empty clone of a block has its structure and, when no column is null, no rows. */
  method CloneEmptyMatches(b: Block) returns (same: bool, rows: Result<nat>)
    requires b.Valid() && AllColumnsSet(b.Entries())
    ensures same && rows == Success(0)
  {
    var c := b.CloneEmpty();
    same := BlocksHaveEqualStructure(b, c);
    CloneEmptyProperties(b.Entries());
    rows := c.Rows();
  }

  /**
   * After `insert(elem)` the element is found by name at the last position,
   * whatever entries of that name the block held before.
   */
  method InsertThenLookUp(b: Block, e: Entry) returns (found: Result<Entry>, pos: Result<nat>)
    requires b.Valid()
    modifies b
    ensures b.Valid() && b.Columns() == old(b.Columns()) + 1
    ensures found == Success(e) && pos == Success(b.Columns() - 1)
  {
    b.Insert(e);
    found := b.GetByName(e.name);
    pos := b.GetPositionByName(e.name);
  }

  /** `insertUnique` twice with one name adds one entry. */
  method InsertUniqueTwice(b: Block, e: Entry)
    requires b.Valid() && !b.Has(e.name)
    modifies b
    ensures b.Valid() && b.Entries() == old(b.Entries()) + [e]
  {
    b.InsertUnique(e);
    b.InsertUnique(e);
  }

  /** After `erase(p)`, position `p` holds the entry that was at `p + 1`. */
  method EraseThenLookUp(b: Block, p: nat) returns (e: Result<Entry>)
    requires b.Valid() && p + 1 < |b.Entries()| && b.Entries()[p].name in b.Names()
    modifies b
    ensures e == Success(old(b.Entries()[p + 1]))
  {
    var r := b.EraseAt(p);
    e := b.GetByPosition(p);
  }

  /**
   * Inserting into a copy gives the copy the original's entries and name
   * index with the new entry appended. The method modifies nothing that
   * existed before, so `unchanged(b)` follows from its frame alone; the
   * content is in the clauses about `c`.
   */
  method CopyThenInsert(b: Block, e: Entry) returns (c: Block)
    requires b.Valid()
    ensures fresh(c) && c.Valid() && b.Valid()
    ensures c.Entries() == b.Entries() + [e] && c.Names() == b.Names()[e.name := |b.Entries()|]
    ensures unchanged(b)
  {
    c := new Block.Copy(b);
    c.Insert(e);
  }

  const ColumnA := Entry("a", Some(Column(3, 24)), "UInt64")
  const ColumnB := Entry("b", Some(Column(3, 24)), "UInt64")
  const ColumnC := Entry("c", Some(Column(3, 12)), "UInt32")

  /** Append "a" and "b" to an empty block. */
  method BuildTwo() returns (b: Block)
    ensures fresh(b) && b.Valid()
    ensures b.Entries() == [ColumnA, ColumnB]
    ensures "b" in b.Names() && b.Names()["b"] == 1
  {
    b := new Block();
    b.Insert(ColumnA);
    b.Insert(ColumnB);
  }

  /** Append "a" and "b", then insert "c" at position 1; all three columns have 3 rows. */
  method BuildScenario() returns (b: Block)
    ensures fresh(b) && b.Valid()
    ensures b.Entries() == [ColumnA, ColumnC, ColumnB]
    ensures "b" in b.Names() && b.Names()["b"] == 2
  {
    b := BuildTwo();
    ghost var before := b.Names();
    var r := b.InsertAt(1, ColumnC);
    assert b.Entries() == [ColumnA] + [ColumnC] + [ColumnB];
    assert ShiftUp(before, 1)["b"] == 2;
  }

  /** What `dumpNames()` and `rows()` yield on the entries of `BuildScenario`. */
  lemma ScenarioEntries()
    ensures JoinNames(NamesOf([ColumnA, ColumnC, ColumnB])) == "a, c, b"
    ensures AllColumnsSet([ColumnA, ColumnC, ColumnB])
    ensures RowsOf(Sizes([ColumnA, ColumnC, ColumnB])) == Success(3)
  {
    assert NamesOf([ColumnA, ColumnC, ColumnB]) == ["a", "c", "b"];
    assert JoinNames(["a", "c", "b"]) == "a, c, b";
    assert Sizes([ColumnA, ColumnC, ColumnB]) == [3, 3, 3];
    RowsOfUniform([3, 3, 3], 3);
  }

  /**
   * The block of `BuildScenario` lists its names as a, c, b, has 3 rows, and
   * holds "b" at position 2.
   */
  method Scenario() returns (names: string, rows: Result<nat>, posB: Result<nat>)
    ensures names == "a, c, b" && rows == Success(3) && posB == Success(2)
  {
    var b := BuildScenario();
    ScenarioEntries();
    names := b.DumpNames();
    rows := b.Rows();
    posB := b.GetPositionByName("b");
  }
}
