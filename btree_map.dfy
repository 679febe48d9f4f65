/**
 * The B-tree engine of `SBTreeMap` (src/collections/btree_map/mod.rs): lookups, the
 * preemptive-split insert and the borrow-or-merge delete, each proved against the
 * ascending sequence of pairs the tree holds (`Elements`), and the map object itself.
 *
 * Nodes live in stable memory and are read with `get_copy` and written back with
 * `replace`, so every operation here takes a node value and returns the new value.
 */
module BTreeMap {
  import opened Common
  import opened OrderedPairs
  import opened BTreeNodes

  // ---------------------------------------------------------------------------
  // Searching a node
  // ---------------------------------------------------------------------------

  /**
   * `binary_search_by` over a node's keys, given by its answer on ascending keys: `Ok(i)`
   * when pair `i` has the key, otherwise `Err(i)` with `i` the first pair above the key.
   */
  function Search<V>(es: seq<(int, V)>, key: int): (r: SearchResult)
    ensures r.Ok? ==> r.idx < |es| && es[r.idx].0 == key
    ensures r.Err? ==> r.idx <= |es| && (forall j :: 0 <= j < r.idx ==> es[j].0 < key)
    ensures r.Err? && r.idx < |es| ==> key < es[r.idx].0
  {
    if es == [] then Err(0)
    else if es[0].0 == key then Ok(0)
    else if key < es[0].0 then Err(0)
    else match Search(es[1..], key)
      case Ok(i) => Ok(i + 1)
      case Err(i) => Err(i + 1)
  }

  /** On ascending keys the search finds the key exactly when it is there. */
  lemma {:induction false} SearchSorted<V>(es: seq<(int, V)>, key: int)
    requires Sorted(es)
    ensures Search(es, key).Ok? <==> key in Keys(es)
    decreases |es|
  {
    if es == [] {
    } else if es[0].0 == key {
      assert es[0].0 in Keys(es);
    } else if key < es[0].0 {
      forall t | 0 <= t < |es| ensures es[t].0 != key {
        if t > 0 {
          assert es[0].0 < es[t].0;
        }
      }
    } else {
      SortedTail(es);
      SearchSorted(es[1..], key);
      KeysCons(es);
    }
  }

  /** On ascending keys a key between pairs `i - 1` and `i` is reported missing at `i`. */
  lemma SearchBetween<V>(es: seq<(int, V)>, i: nat, key: int)
    requires Sorted(es) && Between(es, i, key)
    ensures Search(es, key) == Err(i)
  {
    assert forall j :: 0 <= j < i ==> es[j].0 < key by {
      forall j | 0 <= j < i ensures es[j].0 < key {
        assert es[j].0 <= es[i - 1].0;
      }
    }
    assert forall j :: i <= j < |es| ==> key < es[j].0 by {
      forall j | i <= j < |es| ensures key < es[j].0 {
        assert es[i].0 <= es[j].0;
      }
    }
    SearchSorted(es, key);
  }

  // ---------------------------------------------------------------------------
  // _get and _contains_key
  // ---------------------------------------------------------------------------

  /** `_get`: the value stored under `key` in the subtree `n`, found by descending through one child per level. */
  function NodeGet<V>(n: Node<V>, key: int, ghost h: nat): (r: Option<V>)
    requires Tree(n, h) && Sorted(Elements(n))
    ensures r == Lookup(Elements(n), key)
    decreases h
  {
    match Search(n.entries, key)
    case Ok(idx) =>
      EntriesSorted(n, h);
      FoundHere(n, h, idx);
      Some(n.entries[idx].1)
    case Err(idx) =>
      if idx < |n.children| then
        Focused(n, idx, key, h);
        NodeGet(n.children[idx], key, h - 1)
      else
        EntriesSorted(n, h);
        SearchSorted(n.entries, key);
        None
  }

  /** `_contains_key`: whether `key` occurs in the subtree `n`. */
  function NodeContainsKey<V>(n: Node<V>, key: int, ghost h: nat): (r: bool)
    requires Tree(n, h) && Sorted(Elements(n))
    ensures r <==> key in Keys(Elements(n))
    decreases h
  {
    match Search(n.entries, key)
    case Ok(idx) =>
      EntriesSorted(n, h);
      FoundHere(n, h, idx);
      true
    case Err(idx) =>
      if idx < |n.children| then
        Focused(n, idx, key, h);
        NodeContainsKey(n.children[idx], key, h - 1)
      else
        EntriesSorted(n, h);
        SearchSorted(n.entries, key);
        false
  }

  /** A pair of a node is what the traversal of the node holds for its key. */
  lemma FoundHere<V>(n: Node<V>, h: nat, idx: nat)
    requires Tree(n, h) && Sorted(Elements(n)) && idx < |n.entries|
    ensures Lookup(Elements(n), n.entries[idx].0) == Some(n.entries[idx].1)
  {
    EntryIn(n, h, idx);
    var t :| 0 <= t < |Elements(n)| && Elements(n)[t] == n.entries[idx];
    LookupAt(Elements(n), t);
  }

  // ---------------------------------------------------------------------------
  // insert_non_full
  // ---------------------------------------------------------------------------

  /**
   * `insert_non_full`: puts `(key, value)` into the subtree `node`, which has room for one
   * more pair, splitting a full child before descending into it.  The answer is the value
   * the key had before.  When the split lifts a pair with the key itself into `node`, that
   * pair's value is replaced (see `InsertNonFullAsWritten` for the code as written).
   */
  method InsertNonFull<V>(node: Node<V>, key: int, value: V, ghost h: nat) returns (node': Node<V>, r: Option<V>)
    requires Tree(node, h) && Sorted(Elements(node)) && |node.entries| < CAPACITY
    ensures Tree(node', h) && node'.isRoot == node.isRoot && |node'.entries| >= |node.entries|
    ensures Elements(node') == Upsert(Elements(node), key, value)
    ensures r == Lookup(Elements(node), key)
    decreases h, 1
  {
    match Search(node.entries, key)
    case Ok(idx) =>
      r := Some(node.entries[idx].1);
      node' := node.(entries := node.entries[idx := (key, value)]);
      FoundHere(node, h, idx);
      ReplaceEntry(node, idx, value, h);
    case Err(idx) =>
      assert Between(node.entries, idx, key);
      if node.isLeaf {
        node' := node.(entries := InsertAt(node.entries, idx, (key, value)));
        r := None;
        LeafInsert(node, idx, key, value);
      } else if |node.children[idx].entries| == CAPACITY {
        SplitTree(node, idx, h);
        var n := SplitChild(node, idx, h);
        BetweenSplit(node.entries, idx, key, n.entries);
        var median := n.entries[idx];
        if key > median.0 {
          node', r := InsertIntoChild(n, idx + 1, key, value, h);
        } else if key == median.0 {
          r := Some(median.1);
          node' := n.(entries := n.entries[idx := (key, value)]);
          FoundHere(n, h, idx);
          ReplaceEntry(n, idx, value, h);
        } else {
          node', r := InsertIntoChild(n, idx, key, value, h);
        }
      } else {
        assert ChildOk(node.children[idx], h - 1) && Tree(node.children[idx], h - 1);
        node', r := InsertIntoChild(node, idx, key, value, h);
      }
  }

  /** The descent of `insert_non_full` into child `i`, which has room, and the child written back. */
  method InsertIntoChild<V>(n: Node<V>, i: nat, key: int, value: V, ghost h: nat) returns (node': Node<V>, r: Option<V>)
    requires Tree(n, h) && h > 0 && Sorted(Elements(n)) && Between(n.entries, i, key)
    requires |n.children[i].entries| < CAPACITY
    ensures Tree(node', h) && node'.isRoot == n.isRoot && |node'.entries| == |n.entries|
    ensures Elements(node') == Upsert(Elements(n), key, value)
    ensures r == Lookup(Elements(n), key)
    decreases h, 0
  {
    assert ChildOk(n.children[i], h - 1) && Sorted(Elements(n.children[i])) by {
      Focused(n, i, key, h);
    }
    var child, res := InsertNonFull(n.children[i], key, value, h - 1);
    node' := n.(children := n.children[i := child]);
    r := res;
    InsertBelow(n, i, key, value, h, child);
  }

  /** A child that took the pair, put back into its parent, makes the parent take the pair. */
  lemma InsertBelow<V>(n: Node<V>, i: nat, key: int, value: V, h: nat, c: Node<V>)
    requires Tree(n, h) && h > 0 && Sorted(Elements(n)) && Between(n.entries, i, key)
    requires Tree(c, h - 1) && c.isRoot == n.children[i].isRoot && |c.entries| >= |n.children[i].entries|
    requires Elements(c) == Upsert(Elements(n.children[i]), key, value)
    ensures var n' := n.(children := n.children[i := c]);
      && Tree(n', h) && Elements(n') == Upsert(Elements(n), key, value)
      && Lookup(Elements(n), key) == Lookup(Elements(n.children[i]), key)
  {
    var n' := n.(children := n.children[i := c]);
    Regrown(n, i, h, c);
    ReplaceChild(n, i, c);
    Focused(n, i, key, h);
    UpsertMiddle(Pre(n, i), Elements(n.children[i]), Post(n, i), key, value);
  }

  /** Putting back a child of the same kind that has no fewer pairs keeps the parent well formed. */
  lemma Regrown<V>(n: Node<V>, i: nat, h: nat, c: Node<V>)
    requires Tree(n, h) && h > 0 && i <= |n.entries|
    requires Tree(c, h - 1) && c.isRoot == n.children[i].isRoot && |c.entries| >= |n.children[i].entries|
    ensures Tree(n.(children := n.children[i := c]), h)
  {
    StillChild(n.children[i], c, h - 1);
    Reattach(n, i, h, c);
  }

  /** A new pair at its place in a leaf with room: the leaf stays well formed and gains the key. */
  lemma LeafInsert<V>(node: Node<V>, idx: nat, key: int, value: V)
    requires Tree(node, 0) && Sorted(node.entries) && |node.entries| < CAPACITY && Between(node.entries, idx, key)
    ensures var n' := node.(entries := InsertAt(node.entries, idx, (key, value)));
      && Tree(n', 0) && Elements(n') == Upsert(Elements(node), key, value)
      && Lookup(Elements(node), key) == None
  {
    UpsertBetween(node.entries, idx, key, value);
  }

  // ---------------------------------------------------------------------------
  // _delete, delete_internal_node, delete_predecessor, delete_successor
  // ---------------------------------------------------------------------------

  /**
   * The search for `key` in `node` leads into a child that already has `B` pairs: that
   * child can lose one without rebalancing.
   */
  ghost predicate ChildRoom<V>(node: Node<V>, key: int) {
    var r := Search(node.entries, key);
    r.Err? && r.idx < |node.children| && |node.children[r.idx].entries| >= B
  }

  /**
   * `_delete`: removes `key` from the subtree `node` and answers the value it had.  A
   * child is brought up to `B` pairs, by a rotation from a sibling with `B` pairs or by a
   * merge with a sibling, before the descent into it, so every node below the root loses
   * at most one pair.  A root whose last pair goes down in a merge is replaced by the
   * merged child and the tree is one level lower (`h'`).
   */
  method Delete<V>(node: Node<V>, key: int, ghost h: nat) returns (node': Node<V>, ghost h': nat, r: Option<V>)
    requires Tree(node, h) && Sorted(Elements(node))
    requires node.isRoot ==> RootOk(node)
    requires !node.isRoot ==> |node.entries| >= B || ChildRoom(node, key)
    ensures Tree(node', h') && node'.isRoot == node.isRoot
    ensures Elements(node') == Without(Elements(node), key)
    ensures r == Lookup(Elements(node), key)
    ensures h' == h || (node.isRoot && |node.entries| == 1 && h' + 1 == h)
    ensures h' == h ==> |node'.entries| + 1 >= |node.entries|
    ensures ChildRoom(node, key) ==> h' == h && |node'.entries| == |node.entries|
    ensures node.isRoot ==> RootOk(node')
    decreases h, |node.entries|, 2
  {
    match Search(node.entries, key)
    case Ok(idx) =>
      if node.isLeaf {
        r := Some(node.entries[idx].1);
        node' := node.(entries := RemoveAt(node.entries, idx));
        h' := h;
        LeafRemove(node, idx);
      } else {
        node', h', r := DeleteInternalNode(node, key, idx, h);
      }
    case Err(idx) =>
      assert Between(node.entries, idx, key);
      if node.isLeaf {
        node', h', r := node, h, None;
        LeafAbsent(node, idx, key);
      } else {
        node', h', r := DeleteDescend(node, idx, key, h);
      }
  }

  /**
   * The descent of `_delete` for a key that is not in the internal `node`: straight into
   * child `idx` when it has `B` pairs, otherwise after a rotation into it, or after a merge,
   * when the deletion starts again at `node`.
   */
  method DeleteDescend<V>(node: Node<V>, idx: nat, key: int, ghost h: nat) returns (node': Node<V>, ghost h': nat, r: Option<V>)
    requires Tree(node, h) && h > 0 && Sorted(Elements(node)) && Between(node.entries, idx, key)
    requires node.isRoot ==> RootOk(node)
    requires !node.isRoot ==> |node.entries| >= B || ChildRoom(node, key)
    ensures Tree(node', h') && node'.isRoot == node.isRoot
    ensures Elements(node') == Without(Elements(node), key)
    ensures r == Lookup(Elements(node), key)
    ensures h' == h || (node.isRoot && |node.entries| == 1 && h' + 1 == h)
    ensures h' == h ==> |node'.entries| + 1 >= |node.entries|
    ensures |node.children[idx].entries| >= B ==> h' == h && |node'.entries| == |node.entries|
    ensures node.isRoot ==> RootOk(node')
    decreases h, |node.entries|, 1
  {
    if |node.children[idx].entries| >= B {
      node', r := DeleteFromChild(node, idx, key, h);
      h' := h;
    } else {
      EntriesSorted(node, h);
      SearchBetween(node.entries, idx, key);
      var n, hn, merged := Rebalance(node, idx, key, h);
      if merged {
        node', h', r := Delete(n, key, hn);
      } else {
        node', r := DeleteFromChild(n, idx, key, h);
        h' := h;
      }
    }
  }

  /**
   * The rebalancing of `_delete` before it descends into child `idx`, which is short of `B`
   * pairs: a rotation from the left sibling, else from the right one, when that sibling has
   * `B` pairs, otherwise a merge with the right sibling (with the left one for the last
   * child).  `merged` says which; `hn` is the height afterwards.
   */
  method Rebalance<V>(node: Node<V>, idx: nat, key: int, ghost h: nat) returns (n: Node<V>, ghost hn: nat, merged: bool)
    requires Tree(node, h) && h > 0 && Sorted(Elements(node)) && Between(node.entries, idx, key)
    requires node.isRoot ==> RootOk(node)
    requires |node.entries| >= 1 && |node.children[idx].entries| < B
    ensures Rebalanced(node, idx, key, h, n, hn, merged)
  {
    if idx != 0 && idx + 1 < |node.children| {
      if |node.children[idx - 1].entries| >= B {
        n := DeleteSibling(node, idx, idx - 1);
        hn, merged := h, false;
        RotationDone(node, idx, idx - 1, key, h);
      } else if |node.children[idx + 1].entries| >= B {
        n := DeleteSibling(node, idx, idx + 1);
        hn, merged := h, false;
        RotationDone(node, idx, idx + 1, key, h);
      } else {
        n := DeleteMerge(node, idx, idx + 1);
        hn, merged := h, true;
        MergeDone(node, idx, idx, key, h);
      }
    } else if idx == 0 {
      if |node.children[idx + 1].entries| >= B {
        n := DeleteSibling(node, idx, idx + 1);
        hn, merged := h, false;
        RotationDone(node, idx, idx + 1, key, h);
      } else {
        n := DeleteMerge(node, idx, idx + 1);
        hn, merged := if node.isRoot && |node.entries| == 1 then h - 1 else h, true;
        MergeDone(node, idx, idx, key, h);
      }
    } else {
      // here idx + 1 == |node.children|: the child is the last one
      if |node.children[idx - 1].entries| >= B {
        n := DeleteSibling(node, idx, idx - 1);
        hn, merged := h, false;
        RotationDone(node, idx, idx - 1, key, h);
      } else {
        n := DeleteMerge(node, idx, idx - 1);
        hn, merged := if node.isRoot && |node.entries| == 1 then h - 1 else h, true;
        MergeDone(node, idx, idx - 1, key, h);
      }
    }
  }

  /**
   * What the rebalancing leaves: the tree (of height `hn`) and its traversal; after a
   * rotation, child `idx` with `B` pairs and the key still leading into it; after a merge,
   * one pair less and the key leading into the merged child, unless the root lost its last
   * pair and the merged child, full, became the root.
   */
  ghost predicate Rebalanced<V>(node: Node<V>, idx: nat, key: int, h: nat, n: Node<V>, hn: nat, merged: bool) {
    && Tree(n, hn) && Elements(n) == Elements(node) && Sorted(Elements(n))
    && n.isRoot == node.isRoot && (n.isRoot ==> RootOk(n))
    && (!merged ==> hn == h && |n.entries| == |node.entries| && Between(n.entries, idx, key)
                    && idx < |n.children| && |n.children[idx].entries| >= B)
    && (merged ==> |n.entries| < |node.entries| || hn < h)
    && (merged && hn == h ==> |n.entries| + 1 == |node.entries| && ChildRoom(n, key))
    && (merged && hn != h ==> node.isRoot && |node.entries| == 1 && hn + 1 == h && |n.entries| == CAPACITY)
  }

  /** A rotation into child `i` from sibling `j` is a rebalancing. */
  lemma RotationDone<V>(node: Node<V>, i: nat, j: nat, key: int, h: nat)
    requires Tree(node, h) && h > 0 && Sorted(Elements(node)) && Between(node.entries, i, key)
    requires node.isRoot ==> RootOk(node)
    requires i < |node.children| && j < |node.children| && (j == i + 1 || j + 1 == i)
    requires |node.children[j].entries| >= B && |node.children[i].entries| < B
    ensures Rebalanced(node, i, key, h, Rotate(node, i, j), h, false)
  {
    RotatedFor(node, i, j, key, h);
  }

  /** A merge of children `k` and `k + 1`, both short of `B` pairs, one of them child `idx`, is a rebalancing. */
  lemma MergeDone<V>(node: Node<V>, idx: nat, k: nat, key: int, h: nat)
    requires Tree(node, h) && h > 0 && Sorted(Elements(node)) && Between(node.entries, idx, key)
    requires node.isRoot ==> RootOk(node)
    requires k < |node.entries| && (idx == k || idx == k + 1)
    requires |node.children[k].entries| < B && |node.children[k + 1].entries| < B
    ensures Rebalanced(node, idx, key, h, MergeAt(node, k), if node.isRoot && |node.entries| == 1 then h - 1 else h, true)
  {
    EntriesSorted(node, h);
    BetweenRemove(node.entries, idx, key, k);
    MergedFor(node, k, key, h);
  }

  /** The descent of `_delete` into child `i`, which has `B` pairs, and the child written back. */
  method DeleteFromChild<V>(n: Node<V>, i: nat, key: int, ghost h: nat) returns (node': Node<V>, r: Option<V>)
    requires Tree(n, h) && h > 0 && Sorted(Elements(n)) && Between(n.entries, i, key)
    requires |n.children[i].entries| >= B
    ensures node' == n.(children := node'.children) && |node'.children| == |n.children|
    ensures Tree(node', h) && Elements(node') == Without(Elements(n), key)
    ensures r == Lookup(Elements(n), key)
    decreases h, 0, 0
  {
    assert ChildOk(n.children[i], h - 1) && Sorted(Elements(n.children[i])) by {
      Focused(n, i, key, h);
    }
    var child, hc, res := Delete(n.children[i], key, h - 1);
    node' := n.(children := n.children[i := child]);
    r := res;
    DeleteBelow(n, i, key, h, child);
  }

  /**
   * `delete_internal_node`: the key is pair `idx` of the internal `node`.  It is replaced by
   * its predecessor when the left child has `B` pairs, by its successor when the right
   * child has, and otherwise the two children are merged around it and the deletion
   * starts again at `node`.
   */
  method DeleteInternalNode<V>(node: Node<V>, key: int, idx: nat, ghost h: nat) returns (node': Node<V>, ghost h': nat, r: Option<V>)
    requires Tree(node, h) && h > 0 && Sorted(Elements(node))
    requires idx < |node.entries| && node.entries[idx].0 == key
    requires !node.isRoot ==> |node.entries| >= B
    ensures Tree(node', h') && node'.isRoot == node.isRoot
    ensures Elements(node') == Without(Elements(node), key)
    ensures r == Lookup(Elements(node), key)
    ensures h' == h || (node.isRoot && |node.entries| == 1 && h' + 1 == h)
    ensures h' == h ==> |node'.entries| + 1 >= |node.entries|
    ensures node.isRoot ==> RootOk(node')
    decreases h, |node.entries|, 0
  {
    Siblings(node, idx, h);
    var left := node.children[idx];
    var right := node.children[idx + 1];
    if |left.entries| >= B {
      var left', p := DeletePredecessor(left, h - 1);
      r := Some(node.entries[idx].1);
      node' := node.(entries := node.entries[idx := p], children := node.children[idx := left']);
      h' := h;
      PredecessorSwap(node, idx, h, left', p);
    } else if |right.entries| >= B {
      var right', p := DeleteSuccessor(right, h - 1);
      r := Some(node.entries[idx].1);
      node' := node.(entries := node.entries[idx := p], children := node.children[idx + 1 := right']);
      h' := h;
      SuccessorSwap(node, idx, h, right', p);
    } else {
      var n := DeleteMerge(node, idx, idx + 1);
      ghost var hn := if node.isRoot && |node.entries| == 1 then h - 1 else h;
      EntriesSorted(node, h);
      BetweenDrop(node.entries, idx);
      MergedFor(node, idx, key, h);
      node', h', r := Delete(n, key, hn);
    }
  }

  /**
   * `delete_predecessor`: removes and answers the last pair of the subtree `child`, which
   * has `B` pairs.  Before the descent the last child is brought up to `B` pairs: by a
   * rotation from the child before it when that one has `B` pairs, otherwise by merging
   * the two (see `DeletePredecessorAsWritten` for the code as written).
   */
  method DeletePredecessor<V>(child: Node<V>, ghost h: nat) returns (child': Node<V>, p: (int, V))
    requires Tree(child, h) && !child.isRoot && |child.entries| >= B
    ensures Tree(child', h) && !child'.isRoot && |child'.entries| + 1 >= |child.entries|
    ensures Elements(child) == Elements(child') + [p]
    decreases h
  {
    if child.isLeaf {
      p := child.entries[|child.entries| - 1];
      child' := child.(entries := child.entries[..|child.entries| - 1]);
      assert child.entries == child'.entries + [p];
    } else {
      var n := |child.entries| - 1;
      var c: Node<V>;
      var last: nat;
      Siblings(child, n, h);
      if |child.children[n + 1].entries| >= B {
        c, last := child, n + 1;
      } else if |child.children[n].entries| >= B {
        c := DeleteSibling(child, n + 1, n);
        last := n + 1;
        RotatedLast(child, h);
      } else {
        c := DeleteMerge(child, n + 1, n);
        last := n;
        MergedLast(child, h);
      }
      var g, q := DeletePredecessor(c.children[last], h - 1);
      child' := c.(children := c.children[last := g]);
      p := q;
      PredecessorBelow(c, h, g, q);
    }
  }

  /**
   * `delete_successor`: removes and answers the first pair of the subtree `child`, which
   * has `B` pairs.  Before the descent the first child is brought up to `B` pairs: by a
   * rotation from the second child when that one has `B` pairs, otherwise by merging the
   * two (see `DeleteSuccessorAsWritten` for the code as written).
   */
  method DeleteSuccessor<V>(child: Node<V>, ghost h: nat) returns (child': Node<V>, p: (int, V))
    requires Tree(child, h) && !child.isRoot && |child.entries| >= B
    ensures Tree(child', h) && !child'.isRoot && |child'.entries| + 1 >= |child.entries|
    ensures Elements(child) == [p] + Elements(child')
    decreases h
  {
    if child.isLeaf {
      p := child.entries[0];
      child' := child.(entries := RemoveAt(child.entries, 0));
      assert child.entries == [p] + child'.entries;
    } else {
      var c: Node<V>;
      Siblings(child, 0, h);
      if |child.children[0].entries| >= B {
        c := child;
      } else if |child.children[1].entries| >= B {
        c := DeleteSibling(child, 0, 1);
        RotatedFirst(child, h);
      } else {
        c := DeleteMerge(child, 0, 1);
        MergedFirst(child, h);
      }
      var g, q := DeleteSuccessor(c.children[0], h - 1);
      child' := c.(children := c.children[0 := g]);
      p := q;
      SuccessorBelow(c, h, g, q);
    }
  }

  // ---------------------------------------------------------------------------
  // What the delete steps keep
  // ---------------------------------------------------------------------------

  /** Removing pair `idx` of a leaf removes that key from it and answers its value. */
  lemma LeafRemove<V>(node: Node<V>, idx: nat)
    requires Tree(node, 0) && Sorted(Elements(node)) && idx < |node.entries|
    ensures var n' := node.(entries := RemoveAt(node.entries, idx));
      && Tree(n', 0) && Elements(n') == Without(Elements(node), node.entries[idx].0)
      && Lookup(Elements(node), node.entries[idx].0) == Some(node.entries[idx].1)
  {
    WithoutAt(node.entries, idx);
    LookupAt(node.entries, idx);
  }

  /** A key a leaf's search reports missing is not in the leaf. */
  lemma LeafAbsent<V>(node: Node<V>, idx: nat, key: int)
    requires Tree(node, 0) && Sorted(Elements(node)) && Between(node.entries, idx, key)
    ensures Without(Elements(node), key) == Elements(node) && Lookup(Elements(node), key) == None
  {
    SearchBetween(node.entries, idx, key);
    SearchSorted(node.entries, key);
    WithoutAbsent(node.entries, key);
  }

  /** A child that lost the key, put back into its parent, makes the parent lose the key. */
  lemma DeleteBelow<V>(n: Node<V>, i: nat, key: int, h: nat, c: Node<V>)
    requires Tree(n, h) && h > 0 && Sorted(Elements(n)) && Between(n.entries, i, key)
    requires Tree(c, h - 1) && !c.isRoot && |c.entries| >= MIN_LEN_AFTER_SPLIT
    requires Elements(c) == Without(Elements(n.children[i]), key)
    ensures var n' := n.(children := n.children[i := c]);
      && Tree(n', h) && Elements(n') == Without(Elements(n), key)
      && Lookup(Elements(n), key) == Lookup(Elements(n.children[i]), key)
  {
    Reattach(n, i, h, c);
    Focused(n, i, key, h);
  }

  /** A key at `i` keeps its place when the pair before or after it is removed. */
  lemma BetweenRemove<V>(s: seq<(int, V)>, i: nat, key: int, k: nat)
    requires Sorted(s) && Between(s, i, key) && k < |s| && (i == k || i == k + 1)
    ensures Between(RemoveAt(s, k), k, key)
  {
    var s' := RemoveAt(s, k);
    if k > 0 {
      assert s'[k - 1] == s[k - 1];
      assert s[k - 1].0 <= s[i - 1].0;
    }
    if k < |s'| {
      assert s'[k] == s[k + 1];
      assert s[i].0 <= s[k + 1].0;
    }
  }

  /** The key of pair `k` lies at `k` once that pair is removed. */
  lemma BetweenDrop<V>(s: seq<(int, V)>, k: nat)
    requires Sorted(s) && k < |s|
    ensures Between(RemoveAt(s, k), k, s[k].0)
  {
    var s' := RemoveAt(s, k);
    if k > 0 {
      assert s'[k - 1] == s[k - 1];
    }
    if k < |s'| {
      assert s'[k] == s[k + 1];
    }
  }

  /**
   * A rotation into child `i`, which is short of `B` pairs, from a sibling with `B`: the
   * tree and its traversal stay, and the key still leads into child `i`, which now has `B`.
   */
  lemma RotatedFor<V>(node: Node<V>, i: nat, j: nat, key: int, h: nat)
    requires Tree(node, h) && h > 0 && Sorted(Elements(node)) && Between(node.entries, i, key)
    requires i < |node.children| && j < |node.children| && (j == i + 1 || j + 1 == i)
    requires |node.children[j].entries| >= B && |node.children[i].entries| < B
    ensures var n := Rotate(node, i, j);
      && Tree(n, h) && Elements(n) == Elements(node) && Sorted(Elements(n))
      && n.isRoot == node.isRoot && n.isLeaf == node.isLeaf && |n.entries| == |node.entries|
      && Between(n.entries, i, key) && |n.children[i].entries| >= B
  {
    RotateTree(node, i, j, h);
    RotateElements(node, i, j, h);
    RotateShape(node, i, j);
    RotateOrder(node, i, j, h);
    var n := Rotate(node, i, j);
    if j == i + 1 {
      assert i > 0 ==> n.entries[i - 1] == node.entries[i - 1];
    } else {
      assert i < |n.entries| ==> n.entries[i] == node.entries[i];
    }
  }

  /**
   * A merge of children `k` and `k + 1`, both short of `B` pairs, around the separator the
   * key's search passes: the tree and its traversal stay; unless the root lost its last
   * pair, the node has one pair less and the key now leads into the merged child.
   */
  lemma MergedFor<V>(node: Node<V>, k: nat, key: int, h: nat)
    requires Tree(node, h) && h > 0 && Sorted(Elements(node)) && k < |node.entries|
    requires node.isRoot ==> RootOk(node)
    requires |node.children[k].entries| < B && |node.children[k + 1].entries| < B
    requires Between(RemoveAt(node.entries, k), k, key)
    ensures var n, hn := MergeAt(node, k), (if node.isRoot && |node.entries| == 1 then h - 1 else h);
      && Tree(n, hn) && Elements(n) == Elements(node) && Sorted(Elements(n))
      && n.isRoot == node.isRoot && (n.isRoot ==> RootOk(n))
      && (hn == h ==> |n.entries| + 1 == |node.entries| && ChildRoom(n, key))
      && (hn != h ==> |n.entries| == CAPACITY)
  {
    Siblings(node, k, h);
    MergeTree(node, k, h);
    MergeElements(node, k, h);
    var n := MergeAt(node, k);
    if !(node.isRoot && |node.entries| == 1) {
      assert n.entries == RemoveAt(node.entries, k);
      EntriesSorted(node, h);
      SearchBetween(n.entries, k, key);
    }
  }

  /** The rotation `delete_predecessor` makes into the last child, from the one before it. */
  lemma RotatedLast<V>(child: Node<V>, h: nat)
    requires Tree(child, h) && h > 0 && |child.entries| >= 1
    requires |child.children[|child.entries|].entries| < B && |child.children[|child.entries| - 1].entries| >= B
    ensures var n := |child.entries|; var c := Rotate(child, n, n - 1);
      && Tree(c, h) && Elements(c) == Elements(child) && c.isRoot == child.isRoot
      && |c.entries| == n && |c.children[n].entries| >= B
  {
    var n := |child.entries|;
    RotateTree(child, n, n - 1, h);
    RotateElements(child, n, n - 1, h);
  }

  /** The merge `delete_predecessor` makes of the last two children of a node below the root. */
  lemma MergedLast<V>(child: Node<V>, h: nat)
    requires Tree(child, h) && h > 0 && !child.isRoot && |child.entries| >= B
    requires |child.children[|child.entries|].entries| < B && |child.children[|child.entries| - 1].entries| < B
    ensures var n := |child.entries| - 1; var c := MergeAt(child, n);
      && Tree(c, h) && Elements(c) == Elements(child) && !c.isRoot
      && |c.entries| == n && |c.children[n].entries| >= B
  {
    var n := |child.entries| - 1;
    Siblings(child, n, h);
    MergeTree(child, n, h);
    MergeElements(child, n, h);
  }

  /** The rotation `delete_successor` makes into the first child, from the second. */
  lemma RotatedFirst<V>(child: Node<V>, h: nat)
    requires Tree(child, h) && h > 0 && |child.entries| >= 1
    requires |child.children[0].entries| < B && |child.children[1].entries| >= B
    ensures var c := Rotate(child, 0, 1);
      && Tree(c, h) && Elements(c) == Elements(child) && c.isRoot == child.isRoot
      && |c.entries| == |child.entries| && |c.children[0].entries| >= B
  {
    RotateTree(child, 0, 1, h);
    RotateElements(child, 0, 1, h);
  }

  /** The merge `delete_successor` makes of the first two children of a node below the root. */
  lemma MergedFirst<V>(child: Node<V>, h: nat)
    requires Tree(child, h) && h > 0 && !child.isRoot && |child.entries| >= B
    requires |child.children[0].entries| < B && |child.children[1].entries| < B
    ensures var c := MergeAt(child, 0);
      && Tree(c, h) && Elements(c) == Elements(child) && !c.isRoot
      && |c.entries| + 1 == |child.entries| && |c.children[0].entries| >= B
  {
    Siblings(child, 0, h);
    MergeTree(child, 0, h);
    MergeElements(child, 0, h);
  }

  /** The last child without its last pair, put back: the node loses its last pair. */
  lemma PredecessorBelow<V>(c: Node<V>, h: nat, g: Node<V>, q: (int, V))
    requires Tree(c, h) && h > 0
    requires Tree(g, h - 1) && !g.isRoot && |g.entries| >= MIN_LEN_AFTER_SPLIT
    requires Elements(c.children[|c.entries|]) == Elements(g) + [q]
    ensures var c' := c.(children := c.children[|c.entries| := g]);
      Tree(c', h) && Elements(c) == Elements(c') + [q]
  {
    var n := |c.entries|;
    Reattach(c, n, h, g);
    ElementsAt(c, n);
    PostLast(c);
  }

  /** The first child without its first pair, put back: the node loses its first pair. */
  lemma SuccessorBelow<V>(c: Node<V>, h: nat, g: Node<V>, q: (int, V))
    requires Tree(c, h) && h > 0
    requires Tree(g, h - 1) && !g.isRoot && |g.entries| >= MIN_LEN_AFTER_SPLIT
    requires Elements(c.children[0]) == [q] + Elements(g)
    ensures var c' := c.(children := c.children[0 := g]);
      Tree(c', h) && Elements(c) == [q] + Elements(c')
  {
    Reattach(c, 0, h, g);
    ElementsAt(c, 0);
    PreFirst(c);
  }

  /** Pair `idx` replaced by its predecessor, taken out of the left child: the key of pair `idx` is gone. */
  lemma PredecessorSwap<V>(node: Node<V>, idx: nat, h: nat, left: Node<V>, p: (int, V))
    requires Tree(node, h) && h > 0 && Sorted(Elements(node)) && idx < |node.entries|
    requires Tree(left, h - 1) && !left.isRoot && |left.entries| >= MIN_LEN_AFTER_SPLIT
    requires Elements(node.children[idx]) == Elements(left) + [p]
    ensures var n' := node.(entries := node.entries[idx := p], children := node.children[idx := left]);
      && Tree(n', h) && Elements(n') == Without(Elements(node), node.entries[idx].0)
      && Lookup(Elements(node), node.entries[idx].0) == Some(node.entries[idx].1)
  {
    var x := node.entries[idx];
    var n' := node.(entries := node.entries[idx := p], children := node.children[idx := left]);
    Reattach(node, idx, h, left);
    Reentry(node.(children := node.children[idx := left]), node.entries[idx := p], h);
    UpdateSlices(node.entries, idx, p);
    UpdateSlices(node.children, idx, left);
    PairParts(node, idx, n');
    ElementsAt2(node, idx);
    DropBefore(Pre(node, idx), Elements(left), p, x, Elements(node.children[idx + 1]), Post(node, idx + 1));
  }

  /** Pair `idx` replaced by its successor, taken out of the right child: the key of pair `idx` is gone. */
  lemma SuccessorSwap<V>(node: Node<V>, idx: nat, h: nat, right: Node<V>, p: (int, V))
    requires Tree(node, h) && h > 0 && Sorted(Elements(node)) && idx < |node.entries|
    requires Tree(right, h - 1) && !right.isRoot && |right.entries| >= MIN_LEN_AFTER_SPLIT
    requires Elements(node.children[idx + 1]) == [p] + Elements(right)
    ensures var n' := node.(entries := node.entries[idx := p], children := node.children[idx + 1 := right]);
      && Tree(n', h) && Elements(n') == Without(Elements(node), node.entries[idx].0)
      && Lookup(Elements(node), node.entries[idx].0) == Some(node.entries[idx].1)
  {
    var x := node.entries[idx];
    var n' := node.(entries := node.entries[idx := p], children := node.children[idx + 1 := right]);
    Reattach(node, idx + 1, h, right);
    Reentry(node.(children := node.children[idx + 1 := right]), node.entries[idx := p], h);
    UpdateSlices(node.entries, idx, p);
    UpdateSlices(node.children, idx + 1, right);
    PairParts(node, idx, n');
    ElementsAt2(node, idx);
    DropAfter(Pre(node, idx), Elements(node.children[idx]), x, p, Elements(right), Post(node, idx + 1));
  }

  // ---------------------------------------------------------------------------
  // split_child, delete_sibling, delete_merge
  // ---------------------------------------------------------------------------

  /**
   * `split_child(node, idx)`: the pairs (and, in an internal child, the children) from
   * position B of the full child move one by one into a new sibling, the median pair
   * moves into the node at `idx`, and the sibling is inserted at `idx + 1`.
   */
  method SplitChild<V>(node: Node<V>, idx: nat, ghost h: nat) returns (node': Node<V>)
    requires Tree(node, h) && h > 0 && idx <= |node.entries| && |node.entries| < CAPACITY
    requires |node.children[idx].entries| == CAPACITY
    requires !node.children[idx].isLeaf ==> |node.children[idx].children| == 2 * B
    ensures node' == Split(node, idx)
    ensures Tree(node', h) && Elements(node') == Elements(node) && node'.isRoot == node.isRoot
    ensures |node'.entries| == |node.entries| + 1
    ensures node'.entries[idx] == node.children[idx].entries[MIN_LEN_AFTER_SPLIT]
    ensures node'.entries[..idx] == node.entries[..idx] && node'.entries[idx + 1..] == node.entries[idx..]
    ensures |node'.children[idx].entries| == MIN_LEN_AFTER_SPLIT
    ensures |node'.children[idx + 1].entries| == MIN_LEN_AFTER_SPLIT
  {
    var child := node.children[idx];
    assert ChildOk(child, h - 1) && Tree(child, h - 1);
    var entries := child.entries;
    var moved: seq<(int, V)> := [];
    for t := 0 to MIN_LEN_AFTER_SPLIT
      invariant entries == child.entries[..B] + child.entries[B + t..]
      invariant moved == child.entries[B..B + t]
    {
      moved := moved + [entries[B]];
      entries := RemoveAt(entries, B);
    }
    assert entries == child.entries[..B] && moved == child.entries[B..];
    var median := entries[MIN_LEN_AFTER_SPLIT];
    entries := RemoveAt(entries, MIN_LEN_AFTER_SPLIT);
    assert entries == child.entries[..MIN_LEN_AFTER_SPLIT];
    var grandChildren := child.children;
    var movedChildren: seq<Node<V>> := [];
    if !child.isLeaf {
      for t := 0 to B
        invariant grandChildren == child.children[..B] + child.children[B + t..]
        invariant movedChildren == child.children[B..B + t]
      {
        movedChildren := movedChildren + [grandChildren[B]];
        grandChildren := RemoveAt(grandChildren, B);
      }
      assert grandChildren == child.children[..B] && movedChildren == child.children[B..];
    }
    var left := child.(entries := entries, children := grandChildren);
    var right := Node(child.isLeaf, false, moved, movedChildren);
    node' := node.(entries := InsertAt(node.entries, idx, median),
                   children := InsertAt(node.children[idx := left], idx + 1, right));
    assert node'.children == node.children[..idx] + [left, right] + node.children[idx + 1..];
    SplitTree(node, idx, h);
    SplitElements(node, idx, h);
  }

  /**
   * `delete_sibling(node, i, j)`: the separator moves down into child `i`, the nearest pair
   * of sibling `j` moves up in its place, and (between internal nodes) the sibling's
   * nearest child moves over to child `i`.
   */
  method DeleteSibling<V>(node: Node<V>, i: nat, j: nat) returns (node': Node<V>)
    requires |node.children| == |node.entries| + 1
    requires i < |node.children| && j < |node.children| && (j == i + 1 || j + 1 == i)
    requires node.children[j].entries != []
    ensures node' == Rotate(node, i, j)
  {
    var child := node.children[i];
    var sibling := node.children[j];
    var entries := node.entries;
    if j > i {
      var separator := entries[i];
      entries := RemoveAt(entries, i);
      child := child.(entries := child.entries + [separator]);
      var first := sibling.entries[0];
      sibling := sibling.(entries := RemoveAt(sibling.entries, 0));
      entries := InsertAt(entries, i, first);
      if sibling.children != [] {
        var firstChild := sibling.children[0];
        sibling := sibling.(children := RemoveAt(sibling.children, 0));
        child := child.(children := child.children + [firstChild]);
        assert sibling.children == node.children[j].children[1..];
      }
      assert sibling.entries == node.children[j].entries[1..];
      RemoveInsertAt(node.entries, i, first);
    } else {
      var separator := entries[i - 1];
      entries := RemoveAt(entries, i - 1);
      child := child.(entries := InsertAt(child.entries, 0, separator));
      var last := sibling.entries[|sibling.entries| - 1];
      sibling := sibling.(entries := sibling.entries[..|sibling.entries| - 1]);
      entries := InsertAt(entries, i - 1, last);
      if sibling.children != [] {
        var lastChild := sibling.children[|sibling.children| - 1];
        sibling := sibling.(children := sibling.children[..|sibling.children| - 1]);
        child := child.(children := InsertAt(child.children, 0, lastChild));
        assert child.children == [lastChild] + node.children[i].children;
      }
      assert child.entries == [separator] + node.children[i].entries;
      RemoveInsertAt(node.entries, i - 1, last);
    }
    var children := node.children[j := sibling][i := child];
    UpdateSwap(node.children, i, j, child, sibling);
    node' := node.(entries := entries, children := children);
  }

  /**
   * `delete_merge(node, i, j)`: the left one of the adjacent children `i` and `j` takes the
   * separator and everything of the right one; the right one is dropped.  A root left
   * without pairs is replaced by the merged child.
   */
  method DeleteMerge<V>(node: Node<V>, i: nat, j: nat) returns (node': Node<V>)
    requires |node.children| == |node.entries| + 1
    requires i < |node.children| && j < |node.children| && (j == i + 1 || j + 1 == i)
    ensures node' == MergeAt(node, if i < j then i else j)
  {
    var entries := node.entries;
    var children := node.children;
    var k := if i < j then i else j;
    var merged: Node<V>;
    if j > i {
      var child := children[i];
      var sibling := children[j];
      children := RemoveAt(children, j);
      var separator := entries[i];
      entries := RemoveAt(entries, i);
      merged := child.(entries := child.entries + [separator] + sibling.entries,
                       children := child.children + sibling.children);
    } else {
      var child := children[i];
      var sibling := children[j];
      var separator := entries[j];
      entries := RemoveAt(entries, j);
      merged := sibling.(entries := sibling.entries + [separator] + child.entries,
                         children := sibling.children + child.children);
      children := RemoveAt(children, i);
    }
    if node.isRoot && entries == [] {
      node' := merged.(isRoot := true);
    } else {
      RemoveUpdate(node.children, k, merged);
      node' := node.(entries := entries, children := children[k := merged]);
    }
  }

  /**
   * The tree part of `insert`: a full root is first pushed down under a new empty root and
   * split, so that `insert_non_full` always has room; the tree then grows by one level.
   */
  method InsertAtRoot<V>(root: Node<V>, key: int, value: V, ghost h: nat) returns (root': Node<V>, ghost h': nat, r: Option<V>)
    requires Tree(root, h) && RootOk(root) && Sorted(Elements(root))
    ensures Tree(root', h') && RootOk(root')
    ensures Elements(root') == Upsert(Elements(root), key, value)
    ensures r == Lookup(Elements(root), key)
    ensures h' == h || (|root.entries| == CAPACITY && h' == h + 1)
  {
    if |root.entries| == CAPACITY {
      var temp := Node(false, true, [], [root.(isRoot := false)]);
      NewRoot(root, h);
      var split := SplitChild(temp, 0, h + 1);
      root', r := InsertNonFull(split, key, value, h + 1);
      h' := h + 1;
    } else {
      root', r := InsertNonFull(root, key, value, h);
      h' := h;
    }
  }

  /** The new root `insert` puts above a full root: one child and no pairs, the same traversal. */
  lemma NewRoot<V>(root: Node<V>, h: nat)
    requires Tree(root, h) && |root.entries| == CAPACITY
    ensures var temp := Node(false, true, [], [root.(isRoot := false)]);
      && Tree(temp, h + 1) && Elements(temp) == Elements(root)
      && |temp.children[0].entries| == CAPACITY
  {
    var temp := Node(false, true, [], [root.(isRoot := false)]);
    RootFlag(root, false, h);
    Single(temp);
    assert ChildOk(temp.children[0], h);
  }

  // ---------------------------------------------------------------------------
  // SBTreeMap
  // ---------------------------------------------------------------------------

  /**
   * `SBTreeMap`: the root node and the number of pairs.  The height is ghost: the source
   * keeps no height, every leaf simply lies at the same depth.
   */
  class SBTreeMap<V> {
    var root: Node<V>
    var len: nat
    ghost var height: nat

    /** A B-tree of ascending keys whose root is marked as the root, and its pair count. */
    ghost predicate Valid()
      reads this
    {
      Tree(root, height) && RootOk(root) && Sorted(Elements(root)) && len == |Elements(root)|
    }

    /** The pairs in key order (what `btree_to_sorted_vec` collects). */
    ghost function Items(): seq<(int, V)>
      reads this
    {
      Elements(root)
    }

    /** The map the tree stands for. */
    ghost function Contents(): map<int, V>
      reads this
    {
      ToMap(Elements(root))
    }

    /** `new` (and `default`): an empty leaf root. */
    constructor ()
      ensures Valid() && Items() == [] && Contents() == map[] && len == 0
    {
      root := Node(true, true, [], []);
      len := 0;
      height := 0;
    }

    /** `len`: the number of keys in the map. */
    function Len(): (r: nat)
      reads this
      requires Valid()
      ensures r == |Contents()| && r == |Items()|
    {
      SortedKeyCount(Elements(root));
      len
    }

    /** `is_empty`. */
    function IsEmpty(): (r: bool)
      reads this
      requires Valid()
      ensures r <==> Contents() == map[]
    {
      SortedKeyCount(Elements(root));
      len == 0
    }

    /** `get_copy`: the value stored under `key`, if any. */
    function GetCopy(key: int): (r: Option<V>)
      reads this
      requires Valid()
      ensures r == Lookup(Items(), key)
      ensures r.Some? <==> key in Contents()
      ensures r.Some? ==> r.value == Contents()[key]
    {
      NodeGet(root, key, height)
    }

    /** `contains_key`. */
    function ContainsKey(key: int): (r: bool)
      reads this
      requires Valid()
      ensures r <==> key in Contents()
    {
      NodeContainsKey(root, key, height)
    }

    /**
     * `insert`: a full root is first pushed down under a new empty root and split, so that
     * `insert_non_full` always has room.  The answer is the value the key had.
     */
    method Insert(key: int, value: V) returns (r: Option<V>)
      requires Valid()
      modifies this
      ensures Valid()
      ensures Items() == Upsert(old(Items()), key, value)
      ensures Contents() == old(Contents())[key := value]
      ensures r == if key in old(Contents()) then Some(old(Contents())[key]) else None
      ensures len == if key in old(Contents()) then old(len) else old(len) + 1
    {
      ghost var before := Elements(root);
      ghost var h';
      root, h', r := InsertAtRoot(root, key, value, height);
      height := h';
      UpsertSorted(before, key, value);
      UpsertLength(before, key, value);
      ToMapUpsert(before, key, value);
      if r.None? {
        len := len + 1;
      }
    }

    /** `remove`: deletes `key` and answers the value it had. */
    method Remove(key: int) returns (r: Option<V>)
      requires Valid()
      modifies this
      ensures Valid()
      ensures Items() == Without(old(Items()), key)
      ensures Contents() == old(Contents()) - {key}
      ensures r == if key in old(Contents()) then Some(old(Contents())[key]) else None
      ensures len == if key in old(Contents()) then old(len) - 1 else old(len)
    {
      ghost var before := Elements(root);
      ghost var h';
      root, h', r := Delete(root, key, height);
      height := h';
      WithoutSorted(before, key);
      WithoutLength(before, key);
      ToMapWithout(before, key);
      if r.Some? {
        len := len - 1;
      }
    }
  }
}
