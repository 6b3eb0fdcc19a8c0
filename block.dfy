/**
 * `DB::Block`: an ordered sequence of (name, column, type) entries with two
 * indices kept beside it, one by position and one by name.
 *
 * The backing `std::list` is modelled as an arena (`nodes`, from node id to
 * entry) and the order of its nodes (`order`); `index_by_position` is the
 * sequence `byPos` of node ids and `index_by_name` the map `byName` from a
 * name to a node id. The block's public meaning is `Entries()`, the entries in
 * list order, and `Names()`, the name index read as ordinal positions.
 */
module Blocks {
  import opened ListArena
  import opened ColumnEntries

  /**
   * The block's invariant over the values of its fields, the position index
   * aside: the list's nodes are live and below the id allocator, none occurs
   * twice, and every name key designates a listed node of that name.
   */
  ghost predicate Coherent(nodes: map<NodeId, Entry>, order: seq<NodeId>, byName: map<string, NodeId>, nextId: NodeId) {
    && (forall x :: x in order ==> x in nodes && x < nextId)
    && Distinct(order)
    && (forall n :: n in byName ==> byName[n] in order && nodes[byName[n]].name == n)
  }

  /** Every name key designates, by ordinal, an entry of that name. */
  lemma CoherentNames(nodes: map<NodeId, Entry>, order: seq<NodeId>, byName: map<string, NodeId>, nextId: NodeId)
    requires Coherent(nodes, order, byName, nextId)
    ensures forall n :: n in byName ==>
              byName[n] in order && IndexOf(order, byName[n]) < |order| &&
              Resolve(order, nodes)[IndexOf(order, byName[n])].name == n
  {
  }

  /**
   * `insert` at ordinal `p` keeps the invariant: the new node, taken from the
   * allocator, holds `elem` at `p`, and the key of its name designates it.
   */
  lemma CoherentAfterInsert(nodes: map<NodeId, Entry>, order: seq<NodeId>, byName: map<string, NodeId>, nextId: NodeId,
                            p: nat, elem: Entry)
    requires Coherent(nodes, order, byName, nextId) && p <= |order|
    ensures Coherent(nodes[nextId := elem], ListInsert(order, p, nextId), byName[elem.name := nextId], nextId + 1)
    ensures Resolve(ListInsert(order, p, nextId), nodes[nextId := elem]) ==
            Resolve(order, nodes)[..p] + [elem] + Resolve(order, nodes)[p..]
    ensures PositionsOf(byName[elem.name := nextId], ListInsert(order, p, nextId)) ==
            ShiftUp(PositionsOf(byName, order), p)[elem.name := p]
  {
    assert nextId !in order;
    PositionsAfterInsert(byName, order, p, nextId, elem.name);
    ResolveInsert(order, nodes, p, nextId, elem);
    ListInsertDistinct(order, p, nextId);
  }

  /**
   * `erase` of the node at ordinal `p` together with the key of its name
   * keeps the invariant: no other key designates that node.
   */
  lemma CoherentAfterErase(nodes: map<NodeId, Entry>, order: seq<NodeId>, byName: map<string, NodeId>, nextId: NodeId,
                           p: nat, id: NodeId, name: string)
    requires Coherent(nodes, order, byName, nextId) && p < |order| && order[p] == id && nodes[id].name == name
    ensures Coherent(nodes - {id}, ListErase(order, p), byName - {name}, nextId)
    ensures Resolve(ListErase(order, p), nodes - {id}) == Resolve(order, nodes)[..p] + Resolve(order, nodes)[p + 1..]
    ensures PositionsOf(byName - {name}, ListErase(order, p)) == ShiftDown(PositionsOf(byName, order) - {name}, p)
  {
    PositionsAfterErase(byName, order, p, name);
    ResolveErase(order, nodes, p);
    ListEraseDistinct(order, p);
  }

  /**
   * The state `operator=` builds: a fresh list holding `src` and a name
   * index that gives each key of `srcIndex` the same ordinal.
   */
  lemma CoherentCopy(src: seq<Entry>, srcOrder: seq<NodeId>, srcIndex: map<string, NodeId>, index: map<string, NodeId>)
    requires |srcOrder| == |src|
    requires forall n :: n in srcIndex ==>
               srcIndex[n] in srcOrder && src[IndexOf(srcOrder, srcIndex[n])].name == n
    requires index.Keys == srcIndex.Keys
    requires forall n :: n in index ==> index[n] == FreshList(|src|)[IndexOf(srcOrder, srcIndex[n])]
    ensures Coherent(FreshNodes(src), FreshList(|src|), index, |src|)
    ensures Resolve(FreshList(|src|), FreshNodes(src)) == src
    ensures PositionsOf(index, FreshList(|src|)) == PositionsOf(srcIndex, srcOrder)
  {
    FreshListFacts(|src|);
    ResolveFresh(src);
    PositionsOfTranslated(index, srcIndex, srcOrder, FreshList(|src|));
  }

  class Block {
    var nodes: map<NodeId, Entry>
    var order: seq<NodeId>
    var byPos: seq<NodeId>
    var byName: map<string, NodeId>
    /** Every node id in use is below `nextId`, so `nextId` names a fresh node. */
    var nextId: NodeId

    /**
     * The indices agree with the list: the position index holds the list's
     * nodes in list order, and every name key designates a live node whose
     * entry carries that name.
     */
    ghost predicate Valid()
      reads this
    {
      Coherent(nodes, order, byName, nextId) && byPos == order
    }

    /** The entries in list order. */
    ghost function Entries(): seq<Entry>
      reads this
      requires Valid()
    {
      Resolve(order, nodes)
    }

    /** The name index, each key taken to the ordinal of the node it designates. */
    ghost function Names(): map<string, nat>
      reads this
      requires Valid()
    {
      PositionsOf(byName, order)
    }

    /** `Block()`: no entries. */
    constructor ()
      ensures Valid() && Entries() == [] && Names() == map[]
    {
      nodes, order, byPos, byName, nextId := map[], [], [], map[], 0;
    }

    /** The copy constructor, `*this = other` on an empty block. */
    constructor Copy(other: Block)
      requires other.Valid()
      ensures Valid() && Entries() == other.Entries() && Names() == other.Names()
    {
      nodes, order, byPos, byName, nextId := map[], [], [], map[], 0;
      new;
      Assign(other);
    }

    /**
     * `operator=`: copies the list into fresh nodes, rebuilds the position
     * index, empties the name index, and then re-creates each key of
     * `other`'s name index at the same ordinal of the new list. When `other`
     * is this block, the name index is emptied before it is read, so the
     * block keeps its entries and loses every name key.
     */
    method Assign(other: Block)
      requires Valid() && other.Valid()
      modifies this
      ensures Valid()
      ensures Entries() == old(other.Entries())
      ensures other != this ==> Names() == old(other.Names())
      ensures other == this ==> Names() == map[]
    {
      // data = other.data: the copy lives in nodes of its own
      var src := other.GetColumns();
      CoherentNames(other.nodes, other.order, other.byName, other.nextId);
      var n := |src|;
      FreshListFacts(n);
      order := FreshList(n);
      nodes := FreshNodes(src);
      nextId := n;
      RebuildIndexByPosition();
      byName := map[];
      // other.index_by_name, read after the clear above
      var srcIndex := other.byName;
      var srcOrder := other.order;
      assert other != this ==> srcIndex == old(other.byName) && srcOrder == old(other.order);
      assert other == this ==> srcIndex == map[] && srcOrder == order;
      byName := CopyNameIndex(srcIndex, srcOrder, order);
      CoherentCopy(src, srcOrder, srcIndex, byName);
    }

    /** `rebuildIndexByPosition()`: the position index becomes the list's nodes in order. */
    method RebuildIndexByPosition()
      modifies this`byPos
      ensures byPos == order
    {
      // index_by_position.resize(data.size())
      byPos := if |byPos| >= |order| then byPos[..|order|] else byPos + seq(|order| - |byPos|, _ => 0);
      var pos := 0;
      while pos < |order|
        invariant pos <= |order| == |byPos|
        invariant forall k :: 0 <= k < pos ==> byPos[k] == order[k]
      {
        byPos := byPos[pos := order[pos]];
        pos := pos + 1;
      }
    }

    /**
     * `insert(elem)`: appends a new node; its name key now designates it,
     * replacing any earlier same-named entry in the name index.
     */
    method Insert(elem: Entry)
      requires Valid()
      modifies this
      ensures Valid()
      ensures Entries() == old(Entries()) + [elem]
      ensures Names() == old(Names())[elem.name := old(|Entries()|)]
    {
      var id := nextId;
      var p := |order|;
      CoherentAfterInsert(nodes, order, byName, nextId, p, elem);
      ShiftUpPastEnd(PositionsOf(byName, order), p);
      assert Resolve(order, nodes)[..p] + [elem] + Resolve(order, nodes)[p..] == Resolve(order, nodes) + [elem];
      nextId := nextId + 1;
      nodes := nodes[id := elem];
      order := ListInsert(order, p, id);
      RebuildIndexByPosition();
      byName := byName[elem.name := id];
    }

    /**
     * `insert(position, elem)`: fails, changing nothing, past the end;
     * at the end it is `insert(elem)`; otherwise the new node goes before
     * the one at `position` and every later entry moves one position right.
     */
    method InsertAt(position: nat, elem: Entry) returns (r: Outcome)
      requires Valid()
      modifies this
      ensures Valid()
      ensures r == if position <= old(|Entries()|) then Ok else Fail(PositionOutOfBound)
      ensures r.Fail? ==> unchanged(this)
      ensures r.Ok? ==> Entries() == old(Entries()[..position] + [elem] + Entries()[position..])
      ensures r.Ok? ==> Names() == ShiftUp(old(Names()), position)[elem.name := position]
    {
      if position > |byPos| {
        return Fail(PositionOutOfBound);
      }
      if position == |byPos| {
        ShiftUpPastEnd(Names(), position);
        assert Entries()[..position] + [elem] + Entries()[position..] == Entries() + [elem];
        Insert(elem);
        return Ok;
      }
      var id := nextId;
      CoherentAfterInsert(nodes, order, byName, nextId, position, elem);
      nextId := nextId + 1;
      nodes := nodes[id := elem];
      // data.insert(index_by_position[position], elem)
      order := ListInsert(order, position, id);
      RebuildIndexByPosition();
      byName := byName[elem.name := id];
      r := Ok;
    }

    /** `insertUnique(elem)`: `insert(elem)` when the name is not a key, else nothing. */
    method InsertUnique(elem: Entry)
      requires Valid()
      modifies this
      ensures Valid()
      ensures old(elem.name in Names()) ==> unchanged(this)
      ensures old(elem.name !in Names()) ==>
                Entries() == old(Entries()) + [elem] && Names() == old(Names())[elem.name := old(|Entries()|)]
    {
      if elem.name !in byName {
        Insert(elem);
      }
    }

    /**
     * `erase(position)`: fails, changing nothing, past the end; otherwise
     * removes the entry at `position` and the name key of its name, even
     * when that key designated another entry of the same name. Block.cpp
     * looks that key up and erases the result unchecked, so the key must be
     * present (erasing `end()` is undefined behaviour).
     */
    method EraseAt(position: nat) returns (r: Outcome)
      requires Valid()
      requires position < |Entries()| ==> Entries()[position].name in Names()
      modifies this
      ensures Valid()
      ensures r == if position < old(|Entries()|) then Ok else Fail(PositionOutOfBound)
      ensures r.Fail? ==> unchanged(this)
      ensures r.Ok? ==> Entries() == old(Entries()[..position] + Entries()[position + 1..])
      ensures r.Ok? ==> Names() == ShiftDown(old(Names()) - {old(Entries()[position].name)}, position)
    {
      if position >= |byPos| {
        return Fail(PositionOutOfBound);
      }
      var id := byPos[position];
      var name := nodes[id].name;
      assert Entries()[position] == nodes[id];
      EraseNode(position, name);
      r := Ok;
    }

    /**
     * `erase(name)`: fails, changing nothing, when the name is not a key;
     * otherwise removes the key and the entry it designates.
     */
    method EraseByName(name: string) returns (r: Outcome)
      requires Valid()
      modifies this
      ensures Valid()
      ensures r == if name in old(Names()) then Ok else Fail(NotFoundColumnInBlock)
      ensures r.Fail? ==> unchanged(this)
      ensures name !in Names()
      ensures r.Ok? ==> |Entries()| == old(|Entries()|) - 1
      ensures r.Ok? ==> Entries() == old(Entries()[..Names()[name]] + Entries()[Names()[name] + 1..])
      ensures r.Ok? ==> Names() == ShiftDown(old(Names()) - {name}, old(Names()[name]))
    {
      if name !in byName {
        return Fail(NotFoundColumnInBlock);
      }
      var id := byName[name];
      var p := IndexOf(order, id);
      assert Entries()[p] == nodes[id] && Names()[name] == p;
      EraseNode(p, name);
      r := Ok;
    }

    /**
     * The tail both `erase` overloads share: `index_by_name.erase(…)` of the
     * key `name`, `data.erase(it)` of the node at ordinal `p`, which holds an
     * entry of that name, and `rebuildIndexByPosition()`.
     */
    method EraseNode(p: nat, name: string)
      requires Valid() && p < |Entries()| && Entries()[p].name == name
      modifies this
      ensures Valid()
      ensures Entries() == old(Entries()[..p] + Entries()[p + 1..])
      ensures Names() == ShiftDown(old(Names()) - {name}, p)
    {
      var id := byPos[p];
      assert nodes[id] == Entries()[p];
      CoherentAfterErase(nodes, order, byName, nextId, p, id, name);
      byName := byName - {name};
      nodes := nodes - {id};
      order := ListErase(order, p);
      assert Coherent(nodes, order, byName, nextId);
      RebuildIndexByPosition();
    }

    /** `getByPosition(position)`, both overloads, resolved through the position index. */
    function GetByPosition(position: nat): (r: Result<Entry>)
      reads this
      requires Valid()
      ensures r.Success? <==> position < |Entries()|
      ensures r.Success? ==> r.value == Entries()[position]
      ensures r.Failure? ==> r.error == PositionOutOfBound
    {
      if position >= |byPos| then Failure(PositionOutOfBound) else Success(nodes[byPos[position]])
    }

    /** `getByName(name)`, both overloads, resolved through the name index. */
    function GetByName(name: string): (r: Result<Entry>)
      reads this
      requires Valid()
      ensures r.Success? <==> name in Names()
      ensures r.Success? ==> Names()[name] < |Entries()| && r.value == Entries()[Names()[name]]
      ensures r.Success? ==> r.value.name == name
      ensures r.Failure? ==> r.error == NotFoundColumnInBlock
    {
      if name in byName then Success(nodes[byName[name]]) else Failure(NotFoundColumnInBlock)
    }

    /** `has(name)`: whether the name is a key of the name index. */
    function Has(name: string): (b: bool)
      reads this
      requires Valid()
      ensures b <==> name in Names()
      ensures b <==> GetByName(name).Success?
    {
      name in byName
    }

    /** `columns()`: the number of entries. */
    function Columns(): (n: nat)
      reads this
      requires Valid()
      ensures n == |Entries()|
      ensures forall p: nat :: p < n <==> GetByPosition(p).Success?
    {
      |order|
    }

    /**
     * `getPositionByName(name)`: the distance from the head of the list to
     * the node the name index designates.
     */
    method GetPositionByName(name: string) returns (r: Result<nat>)
      requires Valid()
      ensures r.Success? <==> name in Names()
      ensures r.Success? ==> r.value == Names()[name] && GetByPosition(r.value) == GetByName(name)
      ensures r.Failure? ==> r.error == NotFoundColumnInBlock
    {
      if name !in byName {
        return Failure(NotFoundColumnInBlock);
      }
      var d := Distance(order, byName[name]);
      return Success(d);
    }

    /**
     * `rows()`: walks the list keeping the previous column's size; Block.cpp
     * dereferences every column, so none may be null.
     */
    method Rows() returns (r: Result<nat>)
      requires Valid() && AllColumnsSet(Entries())
      ensures r == RowsOf(Sizes(Entries()))
    {
      ghost var sizes := Sizes(Entries());
      var res: nat := 0;
      var i := 0;
      while i < |order|
        invariant i <= |order|
        invariant res == if i == 0 then 0 else sizes[i - 1]
        invariant forall j :: 0 <= j < i ==> !Mismatch(sizes, j)
      {
        assert Entries()[i] == nodes[order[i]];
        var size := nodes[order[i]].column.value.size;
        if res != 0 && size != res {
          assert Mismatch(sizes, i);
          return Failure(SizesOfColumnsDoesntMatch);
        }
        res := size;
        i := i + 1;
      }
      return Success(res);
    }

    /** `rowsInFirstColumn()`: the size of the first column, 0 if there is none or it is null. */
    function RowsInFirstColumn(): (r: nat)
      reads this
      requires Valid()
      ensures |Entries()| == 0 || Entries()[0].column.None? ==> r == 0
      ensures |Entries()| > 0 && Entries()[0].column.Some? ==> r == Entries()[0].column.value.size
    {
      if |order| == 0 || nodes[order[0]].column.None? then 0 else nodes[order[0]].column.value.size
    }

    /** `bytes()`: the byte footprints summed by position; no column may be null. */
    method Bytes() returns (r: nat)
      requires Valid() && AllColumnsSet(Entries())
      ensures r == TotalBytes(Entries())
    {
      ghost var es := Entries();
      r := 0;
      var i := 0;
      while i < Columns()
        invariant i <= |es|
        invariant r == TotalBytes(es[..i])
      {
        var e := GetByPosition(i);
        assert es[..i + 1][..i] == es[..i];
        r := r + e.value.column.value.byteSize;
        i := i + 1;
      }
      assert es[..i] == es;
    }

    /** `dumpNames()`: the names in list order, separated by ", ". */
    method DumpNames() returns (s: string)
      requires Valid()
      ensures s == JoinNames(NamesOf(Entries()))
    {
      ghost var names := NamesOf(Entries());
      s := "";
      var i := 0;
      while i < |order|
        invariant i <= |order|
        invariant s == JoinNames(names[..i])
      {
        assert names[..i + 1] == names[..i] + [names[i]];
        if i != 0 {
          JoinNamesSnoc(names[..i], names[i]);
          s := s + ", ";
        }
        s := s + nodes[order[i]].name;
        i := i + 1;
      }
      assert names[..i] == names;
    }

    /**
     * `cloneEmpty()`: a new block built by inserting the empty clone of each
     * entry in order, so its name index maps every name to its last position.
     */
    method CloneEmpty() returns (res: Block)
      requires Valid()
      ensures fresh(res) && res.Valid()
      ensures res.Entries() == CloneEmptyAll(Entries())
      ensures res.Names() == LastPositions(res.Entries())
      ensures SameStructure(Entries(), res.Entries())
    {
      ghost var es := Entries();
      res := new Block();
      var i := 0;
      while i < |order|
        invariant i <= |order| == |es|
        invariant fresh(res) && res.Valid()
        invariant res.Entries() == CloneEmptyAll(es[..i])
        invariant res.Names() == LastPositions(res.Entries())
      {
        var e := CloneEmptyEntry(nodes[order[i]]);
        assert e == CloneEmptyEntry(es[i]);
        CloneEmptyAllSnoc(es, i);
        LastPositionsSnoc(res.Entries(), e);
        res.Insert(e);
        i := i + 1;
      }
      assert es[..i] == es;
      CloneEmptyProperties(es);
    }

    /** `getColumns()`: the entries in list order, agreeing with `getByPosition`. */
    function GetColumns(): (r: seq<Entry>)
      reads this
      requires Valid()
      ensures r == Entries()
      ensures |r| == Columns() && forall p :: 0 <= p < |r| ==> GetByPosition(p) == Success(r[p])
    {
      Resolve(order, nodes)
    }

    /** `getColumnsList()`: the (name, type) pairs in list order. */
    method GetColumnsList() returns (r: seq<NameAndType>)
      requires Valid()
      ensures |r| == |Entries()|
      ensures forall p :: 0 <= p < |r| ==> r[p] == NameAndType(Entries()[p].name, Entries()[p].typeName)
    {
      r := [];
      var i := 0;
      while i < |order|
        invariant i <= |order| && |r| == i
        invariant forall p :: 0 <= p < i ==> r[p] == NameAndType(Entries()[p].name, Entries()[p].typeName)
      {
        var e := nodes[order[i]];
        r := r + [NameAndType(e.name, e.typeName)];
        i := i + 1;
      }
    }
  }

  /**
   * The loop of `operator=` that re-creates a name index over a copied list:
   * each key of `srcIndex` gets the node of `dst` that lies as far from the
   * head as its node lies in `src` (`std::distance`, then `std::advance`).
   */
  method CopyNameIndex(srcIndex: map<string, NodeId>, src: seq<NodeId>, dst: seq<NodeId>)
    returns (index: map<string, NodeId>)
    requires forall k :: k in srcIndex ==> srcIndex[k] in src
    requires |src| == |dst| && Distinct(dst)
    ensures index.Keys == srcIndex.Keys
    ensures forall k :: k in index ==> index[k] in dst && index[k] == dst[IndexOf(src, srcIndex[k])]
    ensures PositionsOf(index, dst) == PositionsOf(srcIndex, src)
  {
    index := map[];
    var keys := srcIndex.Keys;
    while keys != {}
      invariant keys <= srcIndex.Keys
      invariant index.Keys == srcIndex.Keys - keys
      invariant forall k :: k in index ==> index[k] == dst[IndexOf(src, srcIndex[k])]
      decreases keys
    {
      var k :| k in keys;
      var offset := Distance(src, srcIndex[k]);
      index := index[k := dst[offset]];
      keys := keys - {k};
    }
    PositionsOfTranslated(index, srcIndex, src, dst);
  }

  /**
   * `blocksHaveEqualStructure(lhs, rhs)`: the same number of columns and,
   * position by position, the same type name.
   */
  method BlocksHaveEqualStructure(lhs: Block, rhs: Block) returns (b: bool)
    requires lhs.Valid() && rhs.Valid()
    ensures b == SameStructure(lhs.Entries(), rhs.Entries())
  {
    var columns := lhs.Columns();
    if rhs.Columns() != columns {
      return false;
    }
    var i := 0;
    while i < columns
      invariant i <= columns
      invariant forall j :: 0 <= j < i ==> lhs.Entries()[j].typeName == rhs.Entries()[j].typeName
    {
      var lhsType := lhs.GetByPosition(i).value.typeName;
      var rhsType := rhs.GetByPosition(i).value.typeName;
      if lhsType != rhsType {
        return false;
      }
      i := i + 1;
    }
    return true;
  }
}
