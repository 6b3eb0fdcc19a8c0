/**
 * The entries a block holds and what the block computes over them.
 *
 * An entry is a `ColumnWithNameAndType`: a name, a column handle that may be
 * null, and a type. The column itself is foreign code; it is reduced to the
 * two numbers the block reads from it, its row count (`IColumn::size`) and its
 * byte footprint (`IColumn::byteSize`). The type is reduced to the canonical
 * name `IDataType::getName` reports.
 */
module ColumnEntries {

  datatype Option<T> = None | Some(value: T)

  datatype Column = Column(size: nat, byteSize: nat)

  datatype Entry = Entry(name: string, column: Option<Column>, typeName: string)

  /** `NameAndTypePair`, the element of `getColumnsList()`. */
  datatype NameAndType = NameAndType(name: string, typeName: string)

  /** The error codes the block throws with. */
  datatype ErrorCode = PositionOutOfBound | NotFoundColumnInBlock | SizesOfColumnsDoesntMatch

  datatype Result<T> = Success(value: T) | Failure(error: ErrorCode)

  /** The outcome of a mutator that returns nothing or throws. */
  datatype Outcome = Ok | Fail(error: ErrorCode)

  /** No entry has a null column, so `column->…` may be dereferenced. */
  predicate AllColumnsSet(es: seq<Entry>) {
    forall i :: 0 <= i < |es| ==> es[i].column.Some?
  }

  function Sizes(es: seq<Entry>): seq<nat>
    requires AllColumnsSet(es)
  {
    seq(|es|, i requires 0 <= i < |es| => es[i].column.value.size)
  }

  function NamesOf(es: seq<Entry>): seq<string> {
    seq(|es|, i requires 0 <= i < |es| => es[i].name)
  }

  // ---------------------------------------------------------------- rows()

  /**
   * `rows()` throws at column `i` when the column before it has a nonzero
   * size that differs from the size of column `i`.
   */
  predicate Mismatch(sizes: seq<nat>, i: int) {
    1 <= i < |sizes| && sizes[i - 1] != 0 && sizes[i] != sizes[i - 1]
  }

  /**
   * What `rows()` returns, stated without its loop: the error when some
   * column mismatches its predecessor, else the size of the last column
   * (0 for no columns).
   */
  ghost function RowsOf(sizes: seq<nat>): Result<nat> {
    if exists i :: Mismatch(sizes, i) then Failure(SizesOfColumnsDoesntMatch)
    else Success(if |sizes| == 0 then 0 else sizes[|sizes| - 1])
  }

  /** A block whose columns all have `n` rows has `n` rows. */
  lemma RowsOfUniform(sizes: seq<nat>, n: nat)
    requires |sizes| > 0
    requires forall i :: 0 <= i < |sizes| ==> sizes[i] == n
    ensures RowsOf(sizes) == Success(n)
  {
  }

  lemma {:induction false} UniformUpTo(sizes: seq<nat>, k: nat)
    requires k < |sizes| && sizes[0] != 0
    requires forall i :: !Mismatch(sizes, i)
    ensures sizes[k] == sizes[0]
    decreases k
  {
    if k > 0 {
      UniformUpTo(sizes, k - 1);
      assert !Mismatch(sizes, k);
    }
  }

  /**
   * When the first column is not empty, `rows()` succeeds exactly when every
   * column has the first column's size, and then it returns that size.
   */
  lemma {:induction false} RowsOfNonzeroHead(sizes: seq<nat>)
    requires |sizes| > 0 && sizes[0] != 0
    ensures RowsOf(sizes).Success? <==> forall i :: 0 <= i < |sizes| ==> sizes[i] == sizes[0]
    ensures RowsOf(sizes).Success? ==> RowsOf(sizes).value == sizes[0]
  {
    if RowsOf(sizes).Success? {
      forall i | 0 <= i < |sizes| ensures sizes[i] == sizes[0] {
        UniformUpTo(sizes, i);
      }
    }
  }

  /**
   * The check compares neighbours only: `[5, 3, 5]` fails, and an empty
   * column switches off the check of the column after it, so `[0, 3]` gives
   * 3 while `[3, 0]` fails.
   */
  lemma RowsOfExamples()
    ensures RowsOf([]) == Success(0)
    ensures RowsOf([5, 5, 5]) == Success(5)
    ensures RowsOf([5, 3, 5]) == Failure(SizesOfColumnsDoesntMatch)
    ensures RowsOf([0, 3]) == Success(3)
    ensures RowsOf([3, 0]) == Failure(SizesOfColumnsDoesntMatch)
  {
    assert Mismatch([5, 3, 5], 1);
    assert Mismatch([3, 0], 1);
    RowsOfUniform([5, 5, 5], 5);
    var z: seq<nat> := [0, 3];
    assert forall i :: !Mismatch(z, i);
  }

  // --------------------------------------------------------------- bytes()

  /**
   * The byte footprint of an entry's column. `bytes()` never meets a null
   * column (it requires every column to be set); such an entry counts 0 here.
   */
  function EntryBytes(e: Entry): nat {
    if e.column.Some? then e.column.value.byteSize else 0
  }

  /** The byte footprints summed in column order, as `bytes()` adds them. */
  function TotalBytes(es: seq<Entry>): nat {
    if |es| == 0 then 0 else TotalBytes(es[..|es| - 1]) + EntryBytes(es[|es| - 1])
  }

  /** The byte count of a block is additive over a split of its columns. */
  lemma {:induction false} TotalBytesAppend(a: seq<Entry>, b: seq<Entry>)
    ensures TotalBytes(a + b) == TotalBytes(a) + TotalBytes(b)
    decreases |b|
  {
    if |b| > 0 {
      var b' := b[..|b| - 1];
      assert (a + b)[..|a + b| - 1] == a + b';
      assert (a + b)[|a + b| - 1] == b[|b| - 1];
      TotalBytesAppend(a, b');
    } else {
      assert a + b == a;
    }
  }

  /** A column between two runs of columns adds its byte footprint to theirs. */
  lemma BytesOfMiddle(pre: seq<Entry>, x: Entry, post: seq<Entry>)
    ensures TotalBytes(pre + [x] + post) == TotalBytes(pre + post) + EntryBytes(x)
  {
    assert [x][..0] == [];
    TotalBytesAppend(pre, [x]);
    TotalBytesAppend(pre + [x], post);
    TotalBytesAppend(pre, post);
  }

  /** Inserting a column anywhere adds its byte footprint. */
  lemma BytesAfterInsert(es: seq<Entry>, p: nat, e: Entry)
    requires p <= |es|
    ensures TotalBytes(es[..p] + [e] + es[p..]) == TotalBytes(es) + EntryBytes(e)
  {
    assert es == es[..p] + es[p..];
    BytesOfMiddle(es[..p], e, es[p..]);
  }

  /** Erasing a column removes its byte footprint. */
  lemma BytesAfterErase(es: seq<Entry>, p: nat)
    requires p < |es|
    ensures TotalBytes(es[..p] + es[p + 1..]) == TotalBytes(es) - EntryBytes(es[p])
  {
    var pre, x, post := es[..p], es[p], es[p + 1..];
    assert es[p..] == [x] + post;
    assert es == pre + es[p..];
    assert pre + ([x] + post) == pre + [x] + post;
    BytesOfMiddle(es[..p], es[p], es[p + 1..]);
  }

  // ----------------------------------------------------------- dumpNames()

  /** The names separated by ", ", as `dumpNames()` renders them. */
  function JoinNames(names: seq<string>): string {
    if |names| == 0 then ""
    else if |names| == 1 then names[0]
    else names[0] + ", " + JoinNames(names[1..])
  }

  /** Appending a name to a nonempty rendering adds the separator and the name. */
  lemma {:induction false} JoinNamesSnoc(names: seq<string>, n: string)
    requires |names| > 0
    ensures JoinNames(names + [n]) == JoinNames(names) + ", " + n
    decreases |names|
  {
    if |names| == 1 {
      assert (names + [n])[1..] == [n];
    } else {
      assert (names + [n])[1..] == names[1..] + [n];
      JoinNamesSnoc(names[1..], n);
    }
  }

  // ------------------------------------------------ blocksHaveEqualStructure

  /** Same number of columns and the same type name at every position; names play no part. */
  predicate SameStructure(l: seq<Entry>, r: seq<Entry>) {
    |l| == |r| && forall i :: 0 <= i < |l| ==> l[i].typeName == r[i].typeName
  }

  /** Structural equality is an equivalence, and renaming a column never breaks it. */
  lemma SameStructureProperties(a: seq<Entry>, b: seq<Entry>, c: seq<Entry>, i: nat, n: string)
    ensures SameStructure(a, a)
    ensures SameStructure(a, b) ==> SameStructure(b, a)
    ensures SameStructure(a, b) && SameStructure(b, c) ==> SameStructure(a, c)
    ensures i < |a| ==> SameStructure(a, a[i := a[i].(name := n)])
  {
  }

  // ---------------------------------------------------------- cloneEmpty()

  /**
   * `ColumnWithNameAndType::cloneEmpty`: same name and type, and a column with
   * no rows (and no bytes) in place of a set column.
   */
  function CloneEmptyEntry(e: Entry): Entry {
    e.(column := if e.column.Some? then Some(Column(0, 0)) else None)
  }

  function CloneEmptyAll(es: seq<Entry>): seq<Entry> {
    seq(|es|, i requires 0 <= i < |es| => CloneEmptyEntry(es[i]))
  }

  lemma CloneEmptyAllSnoc(es: seq<Entry>, i: nat)
    requires i < |es|
    ensures CloneEmptyAll(es[..i + 1]) == CloneEmptyAll(es[..i]) + [CloneEmptyEntry(es[i])]
  {
  }

  /** An empty clone has the structure, the names and the null columns of its original, and no rows. */
  lemma CloneEmptyProperties(es: seq<Entry>)
    ensures SameStructure(es, CloneEmptyAll(es))
    ensures NamesOf(CloneEmptyAll(es)) == NamesOf(es)
    ensures AllColumnsSet(es) ==> AllColumnsSet(CloneEmptyAll(es)) && RowsOf(Sizes(CloneEmptyAll(es))) == Success(0)
  {
    var c := CloneEmptyAll(es);
    if AllColumnsSet(es) && |es| > 0 {
      RowsOfUniform(Sizes(c), 0);
    }
  }

  // ------------------------------------------------------- the name index

  /**
   * The name index of a block built by appending `es` one by one from empty:
   * each `insert` sets the key of its name to its own position, so a later
   * entry overwrites an earlier one of the same name.
   */
  function LastPositions(es: seq<Entry>): map<string, nat> {
    if |es| == 0 then map[]
    else LastPositions(es[..|es| - 1])[es[|es| - 1].name := |es| - 1]
  }

  lemma LastPositionsSnoc(es: seq<Entry>, e: Entry)
    ensures LastPositions(es + [e]) == LastPositions(es)[e.name := |es|]
  {
    assert (es + [e])[..|es|] == es;
  }

  /** Last write wins: every name occurring in `es` maps to its last occurrence, and no other name is a key. */
  lemma {:induction false} LastPositionsMeaning(es: seq<Entry>)
    ensures forall n :: n in LastPositions(es) <==> n in NamesOf(es)
    ensures forall n :: n in LastPositions(es) ==>
              LastPositions(es)[n] < |es| && es[LastPositions(es)[n]].name == n &&
              forall j :: LastPositions(es)[n] < j < |es| ==> es[j].name != n
    decreases |es|
  {
    if |es| > 0 {
      var init := es[..|es| - 1];
      LastPositionsMeaning(init);
      assert NamesOf(es) == NamesOf(init) + [es[|es| - 1].name];
    }
  }
}
