/**
 * The storage a block keeps beside its entries, as values.
 *
 * The backing `std::list` is an arena of nodes: a node has a stable id
 * (`NodeId`), and the list is the sequence of ids in list order. A list
 * iterator is the id of the node it designates, so inserting or erasing one
 * node leaves every other iterator valid, as it does for `std::list`.
 */
module ListArena {

  type NodeId = nat

  /** No node occurs twice in a list. */
  predicate Distinct(s: seq<NodeId>) {
    forall i, j :: 0 <= i < j < |s| ==> s[i] != s[j]
  }

  /** The ordinal of node `x` in list `s` (the first one, if `s` repeats it). */
  function IndexOf(s: seq<NodeId>, x: NodeId): (i: nat)
    requires x in s
    ensures i < |s| && s[i] == x
    ensures forall j :: 0 <= j < i ==> s[j] != x
  {
    if s[0] == x then 0 else 1 + IndexOf(s[1..], x)
  }

  /** In a list without repeats the ordinal of the node at `k` is `k`. */
  lemma IndexOfDistinct(s: seq<NodeId>, k: nat)
    requires Distinct(s) && k < |s|
    ensures IndexOf(s, s[k]) == k
  {
  }

  /**
   * `std::distance(begin, it)`: walks the list from its head until it reaches
   * the node `x`, counting steps.
   */
  method Distance(s: seq<NodeId>, x: NodeId) returns (d: nat)
    requires x in s
    ensures d < |s| && s[d] == x
    ensures forall j :: 0 <= j < d ==> s[j] != x
    ensures d == IndexOf(s, x)
  {
    d := 0;
    while s[d] != x
      invariant d < |s| && x in s[d..]
      invariant forall j :: 0 <= j < d ==> s[j] != x
      decreases |s| - d
    {
      d := d + 1;
    }
    var i := IndexOf(s, x);
    assert !(i < d) && !(d < i);
  }

  /** The nodes of a freshly built list of `n` entries: ids `0` to `n - 1`. */
  function FreshList(n: nat): seq<NodeId> {
    seq(n, i => i)
  }

  lemma FreshListFacts(n: nat)
    ensures |FreshList(n)| == n && Distinct(FreshList(n))
    ensures forall j :: 0 <= j < n ==> FreshList(n)[j] == j
    ensures forall x: NodeId :: x in FreshList(n) <==> x < n
  {
    var s := FreshList(n);
    forall x: NodeId ensures x in s <==> x < n {
      if x < n {
        assert s[x] == x;
      }
      if x in s {
        var j :| 0 <= j < |s| && s[j] == x;
      }
    }
  }

  /** The arena of a freshly built list holding `src`: node `i` holds `src[i]`. */
  function FreshNodes<T>(src: seq<T>): map<NodeId, T> {
    map i: NodeId | i < |src| :: src[i]
  }

  /** A fresh list over a fresh arena holds exactly `src`. */
  lemma ResolveFresh<T>(src: seq<T>)
    ensures forall x :: x in FreshList(|src|) ==> x in FreshNodes(src)
    ensures Resolve(FreshList(|src|), FreshNodes(src)) == src
  {
    FreshListFacts(|src|);
  }

  /** `std::list::insert(pos, …)`: the new node goes before the node at ordinal `p`. */
  function ListInsert(s: seq<NodeId>, p: nat, id: NodeId): seq<NodeId>
    requires p <= |s|
  {
    s[..p] + [id] + s[p..]
  }

  /** `std::list::erase(it)`, for the node at ordinal `p`. */
  function ListErase(s: seq<NodeId>, p: nat): seq<NodeId>
    requires p < |s|
  {
    s[..p] + s[p + 1..]
  }

  /** The entries a list of nodes holds, in list order. */
  function Resolve<T>(s: seq<NodeId>, nodes: map<NodeId, T>): seq<T>
    requires forall x :: x in s ==> x in nodes
  {
    seq(|s|, i requires 0 <= i < |s| => nodes[s[i]])
  }

  /** A name index read as ordinals: each name maps to the position of its node. */
  function PositionsOf(index: map<string, NodeId>, s: seq<NodeId>): map<string, nat>
    requires forall n :: n in index ==> index[n] in s
  {
    map n | n in index :: IndexOf(s, index[n])
  }

  /** Ordinals after an insertion at `p`: those at or after `p` move one right. */
  function ShiftUp(m: map<string, nat>, p: nat): map<string, nat> {
    map n | n in m :: if m[n] < p then m[n] else m[n] + 1
  }

  /** Ordinals after an erasure at `p`: those after `p` move one left. */
  function ShiftDown(m: map<string, nat>, p: nat): map<string, nat> {
    map n | n in m :: if m[n] > p then m[n] - 1 else m[n]
  }

  /** Inserting a node that is not in the list keeps the list free of repeats. */
  lemma ListInsertDistinct(s: seq<NodeId>, p: nat, id: NodeId)
    requires Distinct(s) && p <= |s| && id !in s
    ensures Distinct(ListInsert(s, p, id))
    ensures ListInsert(s, p, id)[p] == id
    ensures forall x :: x in ListInsert(s, p, id) <==> x in s || x == id
  {
    var t := ListInsert(s, p, id);
    assert |t| == |s| + 1;
    assert forall i :: 0 <= i < |t| ==> t[i] == if i < p then s[i] else if i == p then id else s[i - 1];
    forall i, j | 0 <= i < j < |t| ensures t[i] != t[j] {
      if j == p {
        assert s[i] in s;
      } else if i == p {
        assert s[j - 1] in s;
      }
    }
    forall x ensures x in t <==> x in s || x == id {
      if x in s {
        var k :| 0 <= k < |s| && s[k] == x;
        assert t[if k < p then k else k + 1] == x;
      }
    }
  }

  /** Inserting at `p` moves every node at or after `p` one position right. */
  lemma {:induction false} ListInsertIndex(s: seq<NodeId>, p: nat, id: NodeId, x: NodeId)
    requires Distinct(s) && p <= |s| && id !in s && x in s
    ensures x in ListInsert(s, p, id)
    ensures IndexOf(ListInsert(s, p, id), x) ==
            if IndexOf(s, x) < p then IndexOf(s, x) else IndexOf(s, x) + 1
  {
    ListInsertDistinct(s, p, id);
    var t := ListInsert(s, p, id);
    var k := IndexOf(s, x);
    var k' := if k < p then k else k + 1;
    assert t[k'] == x;
    IndexOfDistinct(t, k');
  }

  /** Erasing a node keeps the list free of repeats and drops exactly that node. */
  lemma ListEraseDistinct(s: seq<NodeId>, p: nat)
    requires Distinct(s) && p < |s|
    ensures Distinct(ListErase(s, p))
    ensures forall x :: x in ListErase(s, p) <==> x in s && x != s[p]
  {
    var t := ListErase(s, p);
    assert |t| == |s| - 1;
    assert forall i :: 0 <= i < |t| ==> t[i] == if i < p then s[i] else s[i + 1];
    forall x ensures x in t <==> x in s && x != s[p] {
      if x in s && x != s[p] {
        var k :| 0 <= k < |s| && s[k] == x;
        assert t[if k < p then k else k - 1] == x;
      }
    }
  }

  /** Erasing the node at `p` moves every node after `p` one position left. */
  lemma {:induction false} ListEraseIndex(s: seq<NodeId>, p: nat, x: NodeId)
    requires Distinct(s) && p < |s| && x in s && x != s[p]
    ensures x in ListErase(s, p)
    ensures IndexOf(ListErase(s, p), x) ==
            if IndexOf(s, x) > p then IndexOf(s, x) - 1 else IndexOf(s, x)
  {
    ListEraseDistinct(s, p);
    var t := ListErase(s, p);
    var k := IndexOf(s, x);
    assert k != p;
    var k' := if k > p then k - 1 else k;
    assert t[k'] == x;
    IndexOfDistinct(t, k');
  }

  /** A map that gives every key of the index the ordinal of its node is the index read as ordinals. */
  lemma PositionsOfEqual(index: map<string, NodeId>, s: seq<NodeId>, m: map<string, nat>)
    requires index.Keys == m.Keys
    requires forall n :: n in index ==> index[n] in s && IndexOf(s, index[n]) == m[n]
    ensures PositionsOf(index, s) == m
  {
  }

  /** The ordinal of one key of the name index after an insertion at `p`. */
  lemma {:induction false} InsertedOrdinal(index: map<string, NodeId>, s: seq<NodeId>, p: nat, id: NodeId, name: string, n: string)
    requires Distinct(s) && p <= |s| && id !in s
    requires forall k :: k in index ==> index[k] in s
    requires n == name || n in index
    ensures index[name := id][n] in ListInsert(s, p, id)
    ensures IndexOf(ListInsert(s, p, id), index[name := id][n]) ==
            if n == name then p else ShiftUp(PositionsOf(index, s), p)[n]
  {
    if n == name {
      ListInsertDistinct(s, p, id);
      IndexOfDistinct(ListInsert(s, p, id), p);
    } else {
      ListInsertIndex(s, p, id, index[n]);
    }
  }

  /** The name index after `index_by_name[name] = it` for a node inserted at `p`. */
  lemma PositionsAfterInsert(index: map<string, NodeId>, s: seq<NodeId>, p: nat, id: NodeId, name: string)
    requires Distinct(s) && p <= |s| && id !in s
    requires forall n :: n in index ==> index[n] in s
    ensures Distinct(ListInsert(s, p, id))
    ensures forall n :: n in index ==> index[n] in ListInsert(s, p, id)
    ensures id in ListInsert(s, p, id)
    ensures PositionsOf(index[name := id], ListInsert(s, p, id)) == ShiftUp(PositionsOf(index, s), p)[name := p]
  {
    ListInsertDistinct(s, p, id);
    var t := ListInsert(s, p, id);
    var index' := index[name := id];
    var m := ShiftUp(PositionsOf(index, s), p)[name := p];
    assert index'.Keys == m.Keys;
    forall n | n in index' ensures index'[n] in t && IndexOf(t, index'[n]) == m[n] {
      InsertedOrdinal(index, s, p, id, name, n);
    }
    PositionsOfEqual(index', t, m);
  }

  /**
   * The name index after the key `name` is removed and the node at `p` is
   * erased, provided no other key designates that node.
   */
  lemma PositionsAfterErase(index: map<string, NodeId>, s: seq<NodeId>, p: nat, name: string)
    requires Distinct(s) && p < |s|
    requires forall n :: n in index ==> index[n] in s
    requires forall n :: n in index && n != name ==> index[n] != s[p]
    ensures Distinct(ListErase(s, p))
    ensures forall n :: n in index && n != name ==> index[n] in ListErase(s, p)
    ensures PositionsOf(index - {name}, ListErase(s, p)) == ShiftDown(PositionsOf(index, s) - {name}, p)
  {
    ListEraseDistinct(s, p);
    var t := ListErase(s, p);
    var index' := index - {name};
    var m := ShiftDown(PositionsOf(index, s) - {name}, p);
    assert index'.Keys == m.Keys;
    forall n | n in index' ensures index'[n] in t && IndexOf(t, index'[n]) == m[n] {
      ListEraseIndex(s, p, index[n]);
    }
    PositionsOfEqual(index', t, m);
  }

  /**
   * A name index moved to another list of the same length by taking, for
   * each key, the node at the same ordinal gives every key the same ordinal.
   */
  lemma PositionsOfTranslated(index: map<string, NodeId>, srcIndex: map<string, NodeId>, src: seq<NodeId>, dst: seq<NodeId>)
    requires forall k :: k in srcIndex ==> srcIndex[k] in src
    requires |src| == |dst| && Distinct(dst) && index.Keys == srcIndex.Keys
    requires forall k :: k in index ==> index[k] == dst[IndexOf(src, srcIndex[k])]
    ensures forall k :: k in index ==> index[k] in dst
    ensures PositionsOf(index, dst) == PositionsOf(srcIndex, src)
  {
    var m := PositionsOf(srcIndex, src);
    assert m.Keys == srcIndex.Keys;
    forall k | k in index ensures index[k] in dst && IndexOf(dst, index[k]) == m[k] {
      var i := IndexOf(src, srcIndex[k]);
      assert index[k] == dst[i] && m[k] == i;
      IndexOfDistinct(dst, i);
    }
    PositionsOfEqual(index, dst, m);
  }

  /** A node inserted at `p` holding `e` shows up as `e` at ordinal `p`. */
  lemma ResolveInsert<T>(s: seq<NodeId>, nodes: map<NodeId, T>, p: nat, id: NodeId, e: T)
    requires p <= |s| && id !in s
    requires forall x :: x in s ==> x in nodes
    ensures forall x :: x in ListInsert(s, p, id) ==> x in nodes[id := e]
    ensures Resolve(ListInsert(s, p, id), nodes[id := e]) == Resolve(s, nodes)[..p] + [e] + Resolve(s, nodes)[p..]
  {
    var t, nodes' := ListInsert(s, p, id), nodes[id := e];
    forall x | x in t ensures x in nodes' {
      var k :| 0 <= k < |t| && t[k] == x;
      if k < p {
        assert t[k] == s[k];
      } else if k > p {
        assert t[k] == s[k - 1];
      }
    }
    var before, after := Resolve(s, nodes), Resolve(t, nodes');
    var rhs := before[..p] + [e] + before[p..];
    assert |after| == |rhs|;
    forall i | 0 <= i < |after| ensures after[i] == rhs[i] {
      if i < p {
        assert t[i] == s[i] && rhs[i] == before[i];
      } else if i == p {
        assert t[i] == id;
      } else {
        assert t[i] == s[i - 1] && rhs[i] == before[i - 1];
      }
    }
  }

  /** Erasing the node at `p` (and dropping it from the arena) removes ordinal `p`. */
  lemma ResolveErase<T>(s: seq<NodeId>, nodes: map<NodeId, T>, p: nat)
    requires Distinct(s) && p < |s|
    requires forall x :: x in s ==> x in nodes
    ensures forall x :: x in ListErase(s, p) ==> x in nodes - {s[p]}
    ensures Resolve(ListErase(s, p), nodes - {s[p]}) == Resolve(s, nodes)[..p] + Resolve(s, nodes)[p + 1..]
  {
    ListEraseDistinct(s, p);
    var t := ListErase(s, p);
    assert forall i :: 0 <= i < |t| ==> t[i] == if i < p then s[i] else s[i + 1];
  }

  /** An insertion at or past every ordinal moves none of them. */
  lemma ShiftUpPastEnd(m: map<string, nat>, p: nat)
    requires forall n :: n in m ==> m[n] < p
    ensures ShiftUp(m, p) == m
  {
  }
}
