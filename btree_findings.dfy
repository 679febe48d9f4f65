/**
 * Three functions of src/collections/btree_map/mod.rs as they are written, each next to
 * an input on which it breaks the map.  The rest of the model uses the corrected
 * methods `InsertNonFull`, `DeletePredecessor` and `DeleteSuccessor` of `BTreeMap`.
 *
 * An answer `None` of the functions below stands for an input on which the source
 * panics (an `unwrap` of nothing, a `usize` underflow); the inputs used here avoid them.
 */
module BTreeFindings {
  import opened Common
  import opened OrderedPairs
  import opened BTreeNodes
  import opened BTreeMap

  // ---------------------------------------------------------------------------
  // The functions as written
  // ---------------------------------------------------------------------------

  /**
   * `insert_non_full` as written: after a split, the descent goes right only when the key
   * is greater than the lifted median, so a key equal to the median goes left.
   */
  function InsertNonFullAsWritten<V>(node: Node<V>, key: int, value: V, ghost h: nat): (Node<V>, Option<V>)
    requires Tree(node, h) && |node.entries| < CAPACITY
    decreases h
  {
    match Search(node.entries, key)
    case Ok(idx) => (node.(entries := node.entries[idx := (key, value)]), Some(node.entries[idx].1))
    case Err(idx) =>
      if node.isLeaf then (node.(entries := InsertAt(node.entries, idx, (key, value))), None)
      else if |node.children[idx].entries| == CAPACITY then
        SplitTree(node, idx, h);
        var n := Split(node, idx);
        var i := if key > n.entries[idx].0 then idx + 1 else idx;
        assert ChildOk(n.children[i], h - 1);
        var (c, res) := InsertNonFullAsWritten(n.children[i], key, value, h - 1);
        (n.(children := n.children[i := c]), res)
      else
        assert ChildOk(node.children[idx], h - 1);
        var (c, res) := InsertNonFullAsWritten(node.children[idx], key, value, h - 1);
        (node.(children := node.children[idx := c]), res)
  }

  /**
   * `delete_predecessor` as written: it looks at child `n` (the one before the last),
   * rotates from it into the last child or merges the two, and then descends into child `n`
   * whichever was done.
   */
  function DeletePredecessorAsWritten<V>(child: Node<V>, h: nat): Option<(Node<V>, (int, V))>
    decreases h
  {
    if child.entries == [] then None
    else if child.isLeaf then
      Some((child.(entries := child.entries[..|child.entries| - 1]), child.entries[|child.entries| - 1]))
    else if h == 0 || |child.children| != |child.entries| + 1 then None
    else
      var n := |child.entries| - 1;
      var c := if |child.children[n].entries| >= B then Rotate(child, n + 1, n) else MergeAt(child, n);
      if n >= |c.children| then None
      else match DeletePredecessorAsWritten(c.children[n], h - 1)
        case None => None
        case Some((g, p)) => Some((c.(children := c.children[n := g]), p))
  }

  /**
   * `delete_successor` as written: it rotates from the second child into the first when
   * the FIRST child has `B` pairs, and merges the two otherwise.
   */
  function DeleteSuccessorAsWritten<V>(child: Node<V>, h: nat): Option<(Node<V>, (int, V))>
    decreases h
  {
    if child.entries == [] then None
    else if child.isLeaf then Some((child.(entries := RemoveAt(child.entries, 0)), child.entries[0]))
    else if h == 0 || |child.children| != |child.entries| + 1 || child.children[1].entries == [] then None
    else
      var c := if |child.children[0].entries| >= B then Rotate(child, 0, 1) else MergeAt(child, 0);
      if c.children == [] then None
      else match DeleteSuccessorAsWritten(c.children[0], h - 1)
        case None => None
        case Some((g, p)) => Some((c.(children := c.children[0 := g]), p))
  }

  // ---------------------------------------------------------------------------
  // Concrete trees
  // ---------------------------------------------------------------------------

  /** The pairs `(lo, 0), (lo + 1, 0), …` of `n` consecutive keys. */
  function Run(lo: int, n: nat): (r: seq<(int, int)>)
    ensures |r| == n && Sorted(r)
    ensures forall i :: 0 <= i < n ==> r[i] == (lo + i, 0)
  {
    seq(n, i => (lo + i, 0))
  }

  /** A leaf below the root holding `Run(lo, n)`. */
  function Leaf(lo: int, n: nat): Node<int> {
    Node(true, false, Run(lo, n), [])
  }

  /** A traversal of a node above leaves is ascending when each leaf is and the separators lie between them. */
  lemma SortedAboveLeaves<V>(n: Node<V>)
    requires |n.children| == |n.entries| + 1 && Sorted(n.entries)
    requires forall i :: 0 <= i < |n.children| ==> n.children[i].children == [] && Sorted(n.children[i].entries)
    requires forall i :: 0 <= i < |n.entries| ==>
      AllBelow(n.children[i].entries, n.entries[i].0) && AllAbove(n.children[i + 1].entries, n.entries[i].0)
    ensures Sorted(Elements(n))
  {
    SortedUpTo(n, |n.entries|);
    ElementsAt(n, |n.entries|);
    PostLast(n);
  }

  /** The traversal up to the end of child `i` is ascending, and below separator `i`. */
  lemma {:induction false} SortedUpTo<V>(n: Node<V>, i: nat)
    requires |n.children| == |n.entries| + 1 && Sorted(n.entries) && i <= |n.entries|
    requires forall i :: 0 <= i < |n.children| ==> n.children[i].children == [] && Sorted(n.children[i].entries)
    requires forall i :: 0 <= i < |n.entries| ==>
      AllBelow(n.children[i].entries, n.entries[i].0) && AllAbove(n.children[i + 1].entries, n.entries[i].0)
    ensures Sorted(Pre(n, i) + Elements(n.children[i]))
    ensures i < |n.entries| ==> AllBelow(Pre(n, i) + Elements(n.children[i]), n.entries[i].0)
  {
    if i == 0 {
      PreFirst(n);
      assert Pre(n, 0) + Elements(n.children[0]) == n.children[0].entries;
    } else {
      SortedUpTo(n, i - 1);
      PreNext(n, i - 1);
      var a := Pre(n, i - 1) + Elements(n.children[i - 1]);
      var c := Elements(n.children[i]);
      assert c == n.children[i].entries;
      SortedJoin(a, n.entries[i - 1], c);
      assert Pre(n, i) + c == a + [n.entries[i - 1]] + c;
      if i < |n.entries| {
        assert n.entries[i - 1].0 < n.entries[i].0;
        var s := a + [n.entries[i - 1]] + c;
        forall t | 0 <= t < |s| ensures s[t].0 < n.entries[i].0 {
          if t < |a| {
            assert s[t] == a[t];
          } else if t > |a| {
            assert s[t] == c[t - |a| - 1];
          }
        }
      }
    }
  }

  // ---------------------------------------------------------------------------
  // Counterexamples
  // ---------------------------------------------------------------------------

  /** A root with one pair, 100, over a full leaf 1..11 and a leaf 101..105. */
  function SplitRoot(): Node<int> {
    Node(false, true, [(100, 0)], [Leaf(1, 11), Leaf(101, 5)])
  }

  /** `SplitRoot()` is a root of height one over two leaves, ascending, holding 6. */
  lemma SplitRootValid()
    ensures Tree(SplitRoot(), 1) && RootOk(SplitRoot()) && Sorted(Elements(SplitRoot()))
    ensures Elements(SplitRoot())[5] == (6, 0)
  {
    var root := SplitRoot();
    SortedAboveLeaves(root);
    assert ChildOk(root.children[0], 0) && ChildOk(root.children[1], 0);
    ElementsAt(root, 0);
    PreFirst(root);
  }

  /** What `insert_non_full` as written makes of `SplitRoot()` when inserting 6. */
  function SplitRootAfter(): Node<int> {
    Node(false, true, [(6, 0), (100, 0)], [Leaf(1, 5).(entries := Run(1, 5) + [(6, 0)]), Leaf(7, 5), Leaf(101, 5)])
  }

  lemma SplitRootInsert()
    ensures InsertNonFullAsWritten(SplitRoot(), 6, 0, 1) == (SplitRootAfter(), None)
  {
    var root := SplitRoot();
    SplitRootValid();
    assert Search(root.entries, 6) == Err(0);
    var n := Split(root, 0);
    assert Run(1, 11)[..5] == Run(1, 5) && Run(1, 11)[6..] == Run(7, 5);
    assert n == Node(false, true, [(6, 0), (100, 0)], [Leaf(1, 5), Leaf(7, 5), Leaf(101, 5)]);
    var left' := Leaf(1, 5).(entries := Run(1, 5) + [(6, 0)]);
    LeafInsertSix();
    assert n.children[0 := left'] == SplitRootAfter().children;
  }

  /** The last step: 6 goes to the end of the leaf 1..5. */
  lemma LeafInsertSix()
    ensures InsertNonFullAsWritten(Leaf(1, 5), 6, 0, 0) == (Leaf(1, 5).(entries := Run(1, 5) + [(6, 0)]), None)
  {
    var l := Leaf(1, 5);
    assert Tree(l, 0);
    SearchBetween(l.entries, 5, 6);
    assert InsertAt(l.entries, 5, (6, 0)) == Run(1, 5) + [(6, 0)];
  }

  /** In the traversal of `SplitRootAfter()` key 6 comes twice in a row. */
  lemma SplitRootAfterUnsorted()
    ensures !Sorted(Elements(SplitRootAfter()))
  {
    var n' := SplitRootAfter();
    ElementsAt(n', 0);
    PreFirst(n');
    PostNext(n', 0);
    var s := Elements(n');
    assert s[5] == (6, 0) && s[6] == (6, 0);
  }

  /**
   * Inserting 6, the median of the full leaf: the split lifts 6 into the root, the
   * descent goes left, and 6 is put into the left half a second time.  The answer says
   * the key was new (so `insert` counts one more pair) and the traversal is no longer
   * ascending.
   */
  lemma InsertNonFullDuplicatesMedian()
    ensures Tree(SplitRoot(), 1) && RootOk(SplitRoot()) && Sorted(Elements(SplitRoot()))
    ensures 6 in Keys(Elements(SplitRoot()))
    ensures var (n', r) := InsertNonFullAsWritten(SplitRoot(), 6, 0, 1);
      r == None && !Sorted(Elements(n'))
  {
    SplitRootValid();
    SplitRootInsert();
    SplitRootAfterUnsorted();
  }

  /** A node below the root with pairs 100..600 over leaves of 5 keys each, except 501..506. */
  function PredecessorCase(): Node<int> {
    Node(false, false, seq(6, i => (100 * (i + 1), 0)), seq(7, i => Leaf(100 * i + 1, if i == 5 then 6 else 5)))
  }

  /** `PredecessorCase()` is a node of height one with `B` pairs, ascending, ending in 605. */
  lemma PredecessorCaseValid()
    ensures Tree(PredecessorCase(), 1) && |PredecessorCase().entries| >= B
    ensures Sorted(Elements(PredecessorCase()))
    ensures var s := Elements(PredecessorCase()); s[|s| - 1] == (605, 0)
  {
    var child := PredecessorCase();
    assert forall i :: 0 <= i < 7 ==> ChildOk(child.children[i], 0);
    SortedAboveLeaves(child);
    ElementsAt(child, 6);
    PostLast(child);
  }

  /** `delete_predecessor` as written on `PredecessorCase()` answers 505. */
  lemma PredecessorCaseAnswer()
    ensures var r := DeletePredecessorAsWritten(PredecessorCase(), 1); r.Some? && r.value.1 == (505, 0)
  {
    var child := PredecessorCase();
    var c := Rotate(child, 6, 5);
    assert c.children[5].entries == Run(501, 6)[..5];
  }

  /**
   * Asking for the predecessor, that is the last pair, of `PredecessorCase()`: the rotation
   * into the last child is made, but the descent goes into the child before it, so the
   * pair answered is 505 while the last pair is 605.
   */
  lemma DeletePredecessorMissesLast()
    ensures Tree(PredecessorCase(), 1) && |PredecessorCase().entries| >= B
    ensures Sorted(Elements(PredecessorCase()))
    ensures var r := DeletePredecessorAsWritten(PredecessorCase(), 1); var s := Elements(PredecessorCase());
      && r.Some? && r.value.1 == (505, 0) && s[|s| - 1] == (605, 0)
  {
    PredecessorCaseValid();
    PredecessorCaseAnswer();
  }

  /** A node below the root with pairs 100..600 over leaves of 5 keys each, except 101..111. */
  function SuccessorCase(): Node<int> {
    Node(false, false, seq(6, i => (100 * (i + 1), 0)), seq(7, i => Leaf(100 * i + 1, if i == 1 then 11 else 5)))
  }

  /** `SuccessorCase()` is a node of height one with `B` pairs, ascending. */
  lemma SuccessorCaseValid()
    ensures Tree(SuccessorCase(), 1) && |SuccessorCase().entries| >= B
    ensures Sorted(Elements(SuccessorCase()))
  {
    var child := SuccessorCase();
    assert forall i :: 0 <= i < 7 ==> ChildOk(child.children[i], 0);
    SortedAboveLeaves(child);
  }

  /** `delete_successor` as written on `SuccessorCase()` answers 1 and leaves 16 pairs in the first child. */
  lemma SuccessorCaseAnswer()
    ensures var r := DeleteSuccessorAsWritten(SuccessorCase(), 1);
      && r.Some? && r.value.1 == (1, 0) && |r.value.0.children[0].entries| == 16
  {
    var child := SuccessorCase();
    var c := MergeAt(child, 0);
    assert c.children[0].entries == Run(1, 5) + [(100, 0)] + Run(101, 11);
  }

  /**
   * Asking for the successor, that is the first pair, of `SuccessorCase()`: the first
   * child has fewer than `B` pairs, so it is merged with the full second child; the
   * merged child keeps 16 pairs, more than `CAPACITY`.
   */
  lemma DeleteSuccessorOverflows()
    ensures Tree(SuccessorCase(), 1) && |SuccessorCase().entries| >= B
    ensures Sorted(Elements(SuccessorCase()))
    ensures var r := DeleteSuccessorAsWritten(SuccessorCase(), 1);
      && r.Some? && r.value.1 == (1, 0)
      && |r.value.0.children[0].entries| == 16 && !Tree(r.value.0, 1)
  {
    SuccessorCaseValid();
    SuccessorCaseAnswer();
    var r := DeleteSuccessorAsWritten(SuccessorCase(), 1);
    assert !ChildOk(r.value.0.children[0], 0);
  }
}
