/**
 * Nodes of the B-tree map (src/collections/btree_map/mod.rs) and the three node
 * rearrangements its insert and delete are built from: splitting a full child,
 * rotating a pair through the parent (`delete_sibling`) and merging two children
 * around their separator (`delete_merge`).
 *
 * A node holds its key–value pairs in one sequence (the source's `keys` and `values`
 * vectors, which are always changed together) and its children in another.
 */
module BTreeNodes {
  import opened Common
  import opened OrderedPairs

  const B: nat := 6
  const CAPACITY: nat := 2 * B - 1
  const MIN_LEN_AFTER_SPLIT: nat := B - 1

  datatype Node<V> = Node(isLeaf: bool, isRoot: bool, entries: seq<(int, V)>, children: seq<Node<V>>)

  /** The in-order traversal of every child. */
  function Subs<V>(n: Node<V>): (r: seq<seq<(int, V)>>)
    decreases n, 0
    ensures |r| == |n.children|
  {
    seq(|n.children|, i requires 0 <= i < |n.children| => Elements(n.children[i]))
  }

  /**
   * In-order traversal: child 0, pair 0, child 1, …, last child (the order of the
   * test helper `btree_to_sorted_vec`).  A node without a full set of children is
   * read as a leaf.
   */
  function Elements<V>(n: Node<V>): seq<(int, V)>
    decreases n, 1
  {
    if |n.children| != |n.entries| + 1 then n.entries else Weave(Subs(n), n.entries)
  }

  function Weave<E>(ss: seq<seq<E>>, es: seq<E>): seq<E>
    requires |ss| == |es| + 1
  {
    ss[0] + CoPairs(es, ss[1..])
  }

  /** `[es[0]] + ss[0] + [es[1]] + ss[1] + …` */
  function CoPairs<E>(es: seq<E>, ss: seq<seq<E>>): seq<E>
    requires |es| == |ss|
  {
    if es == [] then [] else [es[0]] + ss[0] + CoPairs(es[1..], ss[1..])
  }

  /** `ss[0] + [es[0]] + ss[1] + [es[1]] + …` */
  function Pairs<E>(ss: seq<seq<E>>, es: seq<E>): seq<E>
    requires |ss| == |es|
  {
    if es == [] then [] else Pairs(ss[..|es| - 1], es[..|es| - 1]) + ss[|es| - 1] + [es[|es| - 1]]
  }

  /** Everything before child `i` in the traversal. */
  function Pre<V>(n: Node<V>, i: nat): seq<(int, V)>
    requires i <= |n.entries| && i <= |n.children|
  {
    Pairs(Subs(n)[..i], n.entries[..i])
  }

  /** Everything after child `i` in the traversal. */
  function Post<V>(n: Node<V>, i: nat): seq<(int, V)>
    requires |n.children| == |n.entries| + 1 && i <= |n.entries|
  {
    CoPairs(n.entries[i..], Subs(n)[i + 1..])
  }

  lemma {:induction false} WeaveAt<E>(ss: seq<seq<E>>, es: seq<E>, i: nat)
    requires |ss| == |es| + 1 && i <= |es|
    ensures Weave(ss, es) == Pairs(ss[..i], es[..i]) + ss[i] + CoPairs(es[i..], ss[i + 1..])
  {
    if i == 0 {
      assert es[0..] == es && ss[..0] == [] && es[..0] == [];
    } else {
      WeaveAt(ss, es, i - 1);
      var t, u := es[i - 1..], ss[i..];
      assert t[0] == es[i - 1] && u[0] == ss[i] && t[1..] == es[i..] && u[1..] == ss[i + 1..];
      assert CoPairs(t, u) == [es[i - 1]] + ss[i] + CoPairs(es[i..], ss[i + 1..]);
      var p, q := ss[..i], es[..i];
      assert p[..i - 1] == ss[..i - 1] && q[..i - 1] == es[..i - 1] && p[i - 1] == ss[i - 1] && q[i - 1] == es[i - 1];
      assert Pairs(p, q) == Pairs(ss[..i - 1], es[..i - 1]) + ss[i - 1] + [es[i - 1]];
    }
  }

  /** The traversal around child `i`. */
  lemma ElementsAt<V>(n: Node<V>, i: nat)
    requires |n.children| == |n.entries| + 1 && i <= |n.entries|
    ensures Elements(n) == Pre(n, i) + Elements(n.children[i]) + Post(n, i)
  {
    WeaveAt(Subs(n), n.entries, i);
  }

  lemma PreNext<V>(n: Node<V>, i: nat)
    requires |n.children| == |n.entries| + 1 && i < |n.entries|
    ensures Pre(n, i + 1) == Pre(n, i) + Elements(n.children[i]) + [n.entries[i]]
  {
    var p, q := Subs(n)[..i + 1], n.entries[..i + 1];
    assert p[..i] == Subs(n)[..i] && q[..i] == n.entries[..i];
  }

  lemma PostNext<V>(n: Node<V>, i: nat)
    requires |n.children| == |n.entries| + 1 && i < |n.entries|
    ensures Post(n, i) == [n.entries[i]] + Elements(n.children[i + 1]) + Post(n, i + 1)
  {
    var t, u := n.entries[i..], Subs(n)[i + 1..];
    assert t[1..] == n.entries[i + 1..] && u[1..] == Subs(n)[i + 2..];
  }

  lemma PreFirst<V>(n: Node<V>)
    requires |n.children| == |n.entries| + 1
    ensures Pre(n, 0) == []
  {
  }

  lemma PostLast<V>(n: Node<V>)
    requires |n.children| == |n.entries| + 1
    ensures Post(n, |n.entries|) == []
  {
  }

  /** The traversal around the adjacent children `i` and `i + 1`. */
  lemma ElementsAt2<V>(n: Node<V>, i: nat)
    requires |n.children| == |n.entries| + 1 && i < |n.entries|
    ensures Elements(n) == Pre(n, i) + Elements(n.children[i]) + [n.entries[i]]
                           + Elements(n.children[i + 1]) + Post(n, i + 1)
  {
    ElementsAt(n, i);
    PostNext(n, i);
  }

  /** `Pre` only depends on the first `i` children and pairs. */
  lemma PreSame<V>(n: Node<V>, m: Node<V>, i: nat)
    requires i <= |n.entries| && i <= |n.children| && i <= |m.entries| && i <= |m.children|
    requires n.children[..i] == m.children[..i] && n.entries[..i] == m.entries[..i]
    ensures Pre(n, i) == Pre(m, i)
  {
    assert Subs(n)[..i] == Subs(m)[..i] by {
      forall j | 0 <= j < i ensures Subs(n)[j] == Subs(m)[j] {
        assert n.children[j] == n.children[..i][j];
      }
    }
  }

  /** `Post` only depends on the pairs from `i` and the children after `i`. */
  lemma PostSame<V>(n: Node<V>, i: nat, m: Node<V>, k: nat)
    requires |n.children| == |n.entries| + 1 && i <= |n.entries|
    requires |m.children| == |m.entries| + 1 && k <= |m.entries|
    requires n.children[i + 1..] == m.children[k + 1..] && n.entries[i..] == m.entries[k..]
    ensures Post(n, i) == Post(m, k)
  {
    assert Subs(n)[i + 1..] == Subs(m)[k + 1..] by {
      forall j | i + 1 <= j < |n.children| ensures Subs(n)[j] == Subs(m)[j - i + k] {
        assert n.children[j] == n.children[i + 1..][j - i - 1];
      }
    }
  }

  /** Replacing child `i` replaces its part of the traversal and nothing else. */
  lemma ReplaceChild<V>(n: Node<V>, i: nat, c: Node<V>)
    requires |n.children| == |n.entries| + 1 && i <= |n.entries|
    ensures Elements(n.(children := n.children[i := c])) == Pre(n, i) + Elements(c) + Post(n, i)
  {
    var m := n.(children := n.children[i := c]);
    ElementsAt(m, i);
    PreSame(m, n, i);
    PostSame(m, i, n, i);
  }

  /**
   * `n` is a well-formed subtree of height `h`: at most CAPACITY pairs, leaves exactly
   * at height 0, and every child a non-root subtree of height `h - 1` holding at least
   * MIN_LEN_AFTER_SPLIT pairs.
   */
  ghost predicate Tree<V>(n: Node<V>, h: nat)
    decreases n, 0
  {
    && |n.entries| <= CAPACITY
    && n.isLeaf == (h == 0)
    && (h == 0 ==> n.children == [])
    && (h > 0 ==>
          && |n.children| == |n.entries| + 1
          && forall i :: 0 <= i < |n.children| ==> ChildOk(n.children[i], h - 1))
  }

  ghost predicate ChildOk<V>(c: Node<V>, h: nat)
    decreases c, 1
  {
    Tree(c, h) && !c.isRoot && MIN_LEN_AFTER_SPLIT <= |c.entries|
  }

  /** What the map keeps of its root: the root flag, and at least one pair unless it is a leaf. */
  ghost predicate RootOk<V>(n: Node<V>) {
    n.isRoot && (n.isLeaf || |n.entries| >= 1)
  }

  /** The pairs of a node are ascending when its traversal is. */
  lemma {:induction false} EntriesSorted<V>(n: Node<V>, h: nat)
    requires Tree(n, h) && Sorted(Elements(n))
    ensures Sorted(n.entries)
  {
    if h > 0 {
      forall i, j | 0 <= i < j < |n.entries| ensures n.entries[i].0 < n.entries[j].0 {
        PreNext(n, i);
        PreGrows(n, i + 1, j);
        ElementsAt(n, j);
        PostNext(n, j);
        var e, a := Elements(n), Pre(n, i + 1);
        var p := |Pre(n, i)| + |Elements(n.children[i])|;
        var q := |Pre(n, j)| + |Elements(n.children[j])|;
        assert a[p] == n.entries[i];
        assert Pre(n, j)[..|a|][p] == a[p];
        assert e[p] == Pre(n, j)[p];
        assert e[q] == Post(n, j)[0] == n.entries[j];
      }
    }
  }

  /** A later `Pre` extends an earlier one. */
  lemma {:induction false} PreGrows<V>(n: Node<V>, i: nat, j: nat)
    requires |n.children| == |n.entries| + 1 && i <= j <= |n.entries|
    ensures |Pre(n, i)| <= |Pre(n, j)| && Pre(n, j)[..|Pre(n, i)|] == Pre(n, i)
    decreases j - i
  {
    if i < j {
      PreGrows(n, i, j - 1);
      PreNext(n, j - 1);
      var a, b, c := Pre(n, i), Pre(n, j - 1), Pre(n, j);
      assert c[..|b|] == b;
      assert c[..|a|] == c[..|b|][..|a|];
    }
  }

  // ---------------------------------------------------------------------------
  // Concatenating nodes
  // ---------------------------------------------------------------------------

  /** A node made of `l`'s children and pairs, then `e`, then `r`'s: its traversal is `l`'s, `e`, `r`'s. */
  lemma Join<V>(l: Node<V>, e: (int, V), r: Node<V>, n: Node<V>)
    requires |l.children| == |l.entries| + 1 && |r.children| == |r.entries| + 1
    requires n.entries == l.entries + [e] + r.entries && n.children == l.children + r.children
    ensures Elements(n) == Elements(l) + [e] + Elements(r)
  {
    var m := |l.entries|;
    JoinAround(l, e, r, n);
    ElementsAt(l, m);
    ElementsAt(r, 0);
    PostLast(l);
    PreFirst(r);
    Rejoin(Pre(l, m), Elements(l.children[m]), Post(l, m), e, Pre(r, 0), Elements(r.children[0]), Post(r, 0));
  }

  lemma Rejoin<T>(p: seq<T>, x: seq<T>, z1: seq<T>, e: T, z0: seq<T>, y: seq<T>, q: seq<T>)
    requires z1 == [] && z0 == []
    ensures p + x + ([e] + y + q) == (p + x + z1) + [e] + (z0 + y + q)
  {
  }

  lemma JoinAround<V>(l: Node<V>, e: (int, V), r: Node<V>, n: Node<V>)
    requires |l.children| == |l.entries| + 1 && |r.children| == |r.entries| + 1
    requires n.entries == l.entries + [e] + r.entries && n.children == l.children + r.children
    ensures Elements(n) == Pre(l, |l.entries|) + Elements(l.children[|l.entries|])
                           + ([e] + Elements(r.children[0]) + Post(r, 0))
  {
    var m := |l.entries|;
    ElementsAt(n, m);
    assert n.children[m] == l.children[m];
    PreSame(n, l, m);
    PostNext(n, m);
    assert n.entries[m] == e && n.children[m + 1] == r.children[0];
    PostSame(n, m + 1, r, 0);
  }

  /** The same for leaves. */
  lemma JoinLeaves<V>(l: Node<V>, e: (int, V), r: Node<V>, n: Node<V>)
    requires l.children == [] && r.children == []
    requires n.entries == l.entries + [e] + r.entries && n.children == []
    ensures Elements(n) == Elements(l) + [e] + Elements(r)
  {
  }

  /** A node with no pair and a single child reads as that child. */
  lemma Single<V>(n: Node<V>)
    requires n.entries == [] && |n.children| == 1
    ensures Elements(n) == Elements(n.children[0])
  {
  }

  // ---------------------------------------------------------------------------
  // split_child
  // ---------------------------------------------------------------------------

  /**
   * The node after `split_child(node, idx)`: the full child keeps its first
   * MIN_LEN_AFTER_SPLIT pairs (and first B children), its last MIN_LEN_AFTER_SPLIT pairs
   * (and last B children) form a new non-root sibling at `idx + 1`, and its median pair
   * moves into the node at `idx`.
   */
  function Split<V>(node: Node<V>, idx: nat): Node<V>
    requires idx <= |node.entries| && idx < |node.children|
    requires |node.children[idx].entries| == CAPACITY
    requires !node.children[idx].isLeaf ==> |node.children[idx].children| == 2 * B
  {
    var c := node.children[idx];
    var left := c.(entries := c.entries[..MIN_LEN_AFTER_SPLIT],
                   children := if c.isLeaf then c.children else c.children[..B]);
    var right := Node(c.isLeaf, false, c.entries[B..], if c.isLeaf then [] else c.children[B..]);
    node.(entries := InsertAt(node.entries, idx, c.entries[MIN_LEN_AFTER_SPLIT]),
          children := node.children[..idx] + [left, right] + node.children[idx + 1..])
  }

  lemma SplitElements<V>(node: Node<V>, idx: nat, h: nat)
    requires Tree(node, h) && h > 0 && idx <= |node.entries|
    requires |node.children[idx].entries| == CAPACITY
    ensures !node.children[idx].isLeaf ==> |node.children[idx].children| == 2 * B
    ensures Elements(Split(node, idx)) == Elements(node)
  {
    var c := node.children[idx];
    assert ChildOk(c, h - 1);
    assert Tree(c, h - 1);
    var n' := Split(node, idx);
    var left, right := n'.children[idx], n'.children[idx + 1];
    assert Elements(c) == Elements(left) + [c.entries[MIN_LEN_AFTER_SPLIT]] + Elements(right) by {
      if c.isLeaf {
        assert c.entries == c.entries[..MIN_LEN_AFTER_SPLIT] + [c.entries[MIN_LEN_AFTER_SPLIT]] + c.entries[B..];
      } else {
        Join(left, c.entries[MIN_LEN_AFTER_SPLIT], right, c);
      }
    }
    Widen(node, idx, n', left, right);
  }

  /**
   * A node in which child `idx` is replaced by `left`, a new pair and `right` reads like the
   * original when the traversal of child `idx` was `left`'s, the pair and `right`'s.
   */
  lemma Widen<V>(node: Node<V>, idx: nat, n': Node<V>, left: Node<V>, right: Node<V>)
    requires |node.children| == |node.entries| + 1 && idx <= |node.entries|
    requires |n'.entries| == |node.entries| + 1
    requires n'.entries[..idx] == node.entries[..idx] && n'.entries[idx + 1..] == node.entries[idx..]
    requires n'.children == node.children[..idx] + [left, right] + node.children[idx + 1..]
    requires Elements(node.children[idx]) == Elements(left) + [n'.entries[idx]] + Elements(right)
    ensures Elements(n') == Elements(node)
  {
    WidenParts(node, idx, n', left, right);
    ElementsAt(node, idx);
    Regroup(Pre(node, idx), Elements(left), n'.entries[idx], Elements(right), Post(node, idx),
            Elements(node.children[idx]));
  }

  /** Regrouping five concatenated pieces around a middle element. */
  lemma Regroup<T>(p: seq<T>, l: seq<T>, m: T, r: seq<T>, q: seq<T>, c: seq<T>)
    requires c == l + [m] + r
    ensures p + l + [m] + r + q == p + c + q
  {
  }

  lemma WidenParts<V>(node: Node<V>, idx: nat, n': Node<V>, left: Node<V>, right: Node<V>)
    requires |node.children| == |node.entries| + 1 && idx <= |node.entries|
    requires |n'.entries| == |node.entries| + 1
    requires n'.entries[..idx] == node.entries[..idx] && n'.entries[idx + 1..] == node.entries[idx..]
    requires n'.children == node.children[..idx] + [left, right] + node.children[idx + 1..]
    ensures Elements(n') == Pre(node, idx) + Elements(left) + [n'.entries[idx]] + Elements(right) + Post(node, idx)
  {
    assert n'.children[idx] == left && n'.children[idx + 1] == right;
    ElementsAt2(n', idx);
    PreSame(n', node, idx);
    PostSame(n', idx + 1, node, idx);
  }

  /**
   * `split_child` keeps the tree well formed: both halves hold B - 1 pairs, the node
   * gains the median at `idx` and one child, and everything else is unchanged.
   */
  lemma SplitTree<V>(node: Node<V>, idx: nat, h: nat)
    requires Tree(node, h) && h > 0 && idx <= |node.entries| && |node.entries| < CAPACITY
    requires |node.children[idx].entries| == CAPACITY
    ensures !node.children[idx].isLeaf ==> |node.children[idx].children| == 2 * B
    ensures var n' := Split(node, idx);
      && Tree(n', h) && n'.isRoot == node.isRoot
      && |n'.entries| == |node.entries| + 1
      && n'.entries[idx] == node.children[idx].entries[MIN_LEN_AFTER_SPLIT]
      && n'.entries[..idx] == node.entries[..idx] && n'.entries[idx + 1..] == node.entries[idx..]
      && |n'.children[idx].entries| == MIN_LEN_AFTER_SPLIT
      && |n'.children[idx + 1].entries| == MIN_LEN_AFTER_SPLIT
  {
    var c := node.children[idx];
    assert ChildOk(c, h - 1);
    assert Tree(c, h - 1);
    var n' := Split(node, idx);
    var left, right := n'.children[idx], n'.children[idx + 1];
    assert left == c.(entries := c.entries[..MIN_LEN_AFTER_SPLIT],
                      children := if c.isLeaf then c.children else c.children[..B]);
    assert ChildOk(left, h - 1) by {
      if h - 1 > 0 {
        forall j | 0 <= j < |left.children| ensures ChildOk(left.children[j], h - 2) {
          assert left.children[j] == c.children[j];
        }
      }
    }
    assert ChildOk(right, h - 1) by {
      if h - 1 > 0 {
        forall j | 0 <= j < |right.children| ensures ChildOk(right.children[j], h - 2) {
          assert right.children[j] == c.children[B + j];
        }
      }
    }
    forall j | 0 <= j < |n'.children| ensures ChildOk(n'.children[j], h - 1) {
      if j < idx {
        assert n'.children[j] == node.children[j];
      } else if j > idx + 1 {
        assert n'.children[j] == node.children[j - 1];
      }
    }
  }

  /** The root flag plays no part in the traversal or the shape of a subtree. */
  lemma RootFlag<V>(n: Node<V>, b: bool, h: nat)
    ensures Elements(n.(isRoot := b)) == Elements(n)
    ensures Tree(n.(isRoot := b), h) == Tree(n, h)
  {
    assert Subs(n.(isRoot := b)) == Subs(n);
  }

  /** Every pair of a subtree occurs in its traversal. */
  lemma EntryIn<V>(n: Node<V>, h: nat, t: nat)
    requires Tree(n, h) && t < |n.entries|
    ensures n.entries[t] in Elements(n)
  {
    if h > 0 {
      ElementsAt(n, t);
      PostNext(n, t);
      assert Elements(n)[|Pre(n, t)| + |Elements(n.children[t])|] == n.entries[t];
    }
  }

  /** Appending a pair and a child to a node appends them to its traversal. */
  lemma Snoc<V>(l: Node<V>, e: (int, V), x: Node<V>, n: Node<V>)
    requires |l.children| == |l.entries| + 1
    requires n.entries == l.entries + [e] && n.children == l.children + [x]
    ensures Elements(n) == Elements(l) + [e] + Elements(x)
  {
    var r := Node(false, false, [], [x]);
    assert n.entries == l.entries + [e] + r.entries;
    Join(l, e, r, n);
    Single(r);
  }

  /** Prepending a child and a pair to a node prepends them to its traversal. */
  lemma Cons<V>(x: Node<V>, e: (int, V), r: Node<V>, n: Node<V>)
    requires |r.children| == |r.entries| + 1
    requires n.entries == [e] + r.entries && n.children == [x] + r.children
    ensures Elements(n) == Elements(x) + [e] + Elements(r)
  {
    var l := Node(false, false, [], [x]);
    assert n.entries == l.entries + [e] + r.entries;
    Join(l, e, r, n);
    Single(l);
  }

  /** Two siblings of the same height are both leaves, or both have one child more than pairs. */
  ghost predicate SameKind<V>(l: Node<V>, r: Node<V>) {
    || (l.children == [] && r.children == [])
    || (|l.children| == |l.entries| + 1 && |r.children| == |r.entries| + 1)
  }

  lemma Siblings<V>(node: Node<V>, k: nat, h: nat)
    requires Tree(node, h) && h > 0 && k < |node.entries|
    ensures ChildOk(node.children[k], h - 1) && ChildOk(node.children[k + 1], h - 1)
    ensures Tree(node.children[k], h - 1) && Tree(node.children[k + 1], h - 1)
    ensures SameKind(node.children[k], node.children[k + 1])
    ensures node.children[k].isLeaf == node.children[k + 1].isLeaf == (h == 1)
  {
    assert ChildOk(node.children[k], h - 1) && ChildOk(node.children[k + 1], h - 1);
  }

  /** The traversal of a node that differs from `node` only in pair `k` and children `k` and `k + 1`. */
  lemma PairParts<V>(node: Node<V>, k: nat, n': Node<V>)
    requires |node.children| == |node.entries| + 1 && k < |node.entries|
    requires |n'.entries| == |node.entries| && |n'.children| == |node.children|
    requires n'.entries[..k] == node.entries[..k] && n'.entries[k + 1..] == node.entries[k + 1..]
    requires n'.children[..k] == node.children[..k] && n'.children[k + 2..] == node.children[k + 2..]
    ensures Elements(n') == Pre(node, k) + Elements(n'.children[k]) + [n'.entries[k]]
                            + Elements(n'.children[k + 1]) + Post(node, k + 1)
  {
    ElementsAt2(n', k);
    PreSame(n', node, k);
    PostSame(n', k + 1, node, k + 1);
  }

  lemma SameMiddle<T>(p: seq<T>, l: seq<T>, e: T, r: seq<T>, l': seq<T>, e': T, r': seq<T>, q: seq<T>)
    requires l' + [e'] + r' == l + [e] + r
    ensures p + l' + [e'] + r' + q == p + l + [e] + r + q
  {
    assert p + l' + [e'] + r' + q == p + (l' + [e'] + r') + q;
    assert p + l + [e] + r + q == p + (l + [e] + r) + q;
  }

  lemma Shift3<T>(l: seq<T>, e: T, x: seq<T>, f: T, r: seq<T>)
    ensures (l + [e] + x) + [f] + r == l + [e] + (x + [f] + r)
  {
  }

  // ---------------------------------------------------------------------------
  // delete_sibling
  // ---------------------------------------------------------------------------

  /**
   * The node after `delete_sibling(node, i, j)`, which moves one pair from sibling `j`
   * through the parent into child `i`.  From a right sibling (`j == i + 1`) the separator
   * is appended to the child, the sibling's first pair replaces the separator and the
   * sibling's first child moves to the end of the child's children; from a left sibling
   * (`j + 1 == i`) the separator is prepended, the sibling's last pair replaces it and the
   * sibling's last child moves to the front.
   */
  function Rotate<V>(node: Node<V>, i: nat, j: nat): Node<V>
    requires |node.children| == |node.entries| + 1
    requires i < |node.children| && j < |node.children| && (j == i + 1 || j + 1 == i)
    requires node.children[j].entries != []
  {
    var c, s := node.children[i], node.children[j];
    if i < j then
      var c' := c.(entries := c.entries + [node.entries[i]],
                   children := if s.children == [] then c.children else c.children + [s.children[0]]);
      var s' := s.(entries := s.entries[1..],
                   children := if s.children == [] then [] else s.children[1..]);
      node.(entries := node.entries[i := s.entries[0]], children := node.children[i := c'][j := s'])
    else
      var c' := c.(entries := [node.entries[j]] + c.entries,
                   children := if s.children == [] then c.children else [s.children[|s.children| - 1]] + c.children);
      var s' := s.(entries := s.entries[..|s.entries| - 1],
                   children := if s.children == [] then [] else s.children[..|s.children| - 1]);
      node.(entries := node.entries[j := s.entries[|s.entries| - 1]], children := node.children[i := c'][j := s'])
  }

  /** Moving the first pair of `r` up and the separator `e` down into `l` keeps the traversal of the three. */
  lemma FromRight<V>(l: Node<V>, e: (int, V), r: Node<V>, l': Node<V>, r': Node<V>)
    requires r.entries != [] && SameKind(l, r)
    requires l'.entries == l.entries + [e] && r'.entries == r.entries[1..]
    requires l'.children == (if r.children == [] then l.children else l.children + [r.children[0]])
    requires r'.children == (if r.children == [] then [] else r.children[1..])
    ensures Elements(l') + [r.entries[0]] + Elements(r') == Elements(l) + [e] + Elements(r)
  {
    if r.children == [] {
      FromRightLeaf(l, e, r, l', r');
    } else {
      FromRightInner(l, e, r, l', r');
    }
  }

  lemma FromRightLeaf<V>(l: Node<V>, e: (int, V), r: Node<V>, l': Node<V>, r': Node<V>)
    requires r.entries != [] && l.children == [] && r.children == []
    requires l'.entries == l.entries + [e] && r'.entries == r.entries[1..]
    requires l'.children == [] && r'.children == []
    ensures Elements(l') + [r.entries[0]] + Elements(r') == Elements(l) + [e] + Elements(r)
  {
    LeafElements(l); LeafElements(r); LeafElements(l'); LeafElements(r');
    var f, z := r.entries[0], r'.entries;
    assert r.entries == [f] + z;
    Shift2(l.entries, e, f, z);
  }

  /** A node without children reads as its pairs. */
  lemma LeafElements<V>(n: Node<V>)
    requires n.children == []
    ensures Elements(n) == n.entries
  {
  }

  lemma Shift2<T>(a: seq<T>, e: T, f: T, z: seq<T>)
    ensures (a + [e]) + [f] + z == a + [e] + ([f] + z)
    ensures a + [e] + ([f] + z) == (a + [e]) + [f] + z
  {
  }

  lemma FromRightInner<V>(l: Node<V>, e: (int, V), r: Node<V>, l': Node<V>, r': Node<V>)
    requires r.entries != [] && |l.children| == |l.entries| + 1 && |r.children| == |r.entries| + 1
    requires l'.entries == l.entries + [e] && r'.entries == r.entries[1..]
    requires l'.children == l.children + [r.children[0]] && r'.children == r.children[1..]
    ensures Elements(l') + [r.entries[0]] + Elements(r') == Elements(l) + [e] + Elements(r)
  {
    var x, f := r.children[0], r.entries[0];
    Snoc(l, e, x, l');
    DropFirst(r, r');
    Shift3(Elements(l), e, Elements(x), f, Elements(r'));
  }

  /** A node read as its first child, its first entry, then the node without those two. */
  lemma DropFirst<V>(r: Node<V>, r': Node<V>)
    requires r.entries != [] && |r.children| == |r.entries| + 1
    requires r'.entries == r.entries[1..] && r'.children == r.children[1..]
    ensures Elements(r) == Elements(r.children[0]) + [r.entries[0]] + Elements(r')
  {
    var x, f := r.children[0], r.entries[0];
    SplitFirst(r.children);
    SplitFirst(r.entries);
    Cons(x, f, r', r);
  }

  /** Moving the last pair of `l` up and the separator `e` down into `r` keeps the traversal of the three. */
  lemma FromLeft<V>(l: Node<V>, e: (int, V), r: Node<V>, l': Node<V>, r': Node<V>)
    requires l.entries != [] && SameKind(l, r)
    requires l'.entries == l.entries[..|l.entries| - 1] && r'.entries == [e] + r.entries
    requires l'.children == (if l.children == [] then [] else l.children[..|l.children| - 1])
    requires r'.children == (if l.children == [] then r.children else [l.children[|l.children| - 1]] + r.children)
    ensures Elements(l') + [l.entries[|l.entries| - 1]] + Elements(r') == Elements(l) + [e] + Elements(r)
  {
    if l.children == [] {
      FromLeftLeaf(l, e, r, l', r');
    } else {
      FromLeftInner(l, e, r, l', r');
    }
  }

  lemma FromLeftLeaf<V>(l: Node<V>, e: (int, V), r: Node<V>, l': Node<V>, r': Node<V>)
    requires l.entries != [] && l.children == [] && r.children == []
    requires l'.entries == l.entries[..|l.entries| - 1] && r'.entries == [e] + r.entries
    requires l'.children == [] && r'.children == []
    ensures Elements(l') + [l.entries[|l.entries| - 1]] + Elements(r') == Elements(l) + [e] + Elements(r)
  {
    LeafElements(l); LeafElements(r); LeafElements(l'); LeafElements(r');
    var a, f := l'.entries, l.entries[|l.entries| - 1];
    assert l.entries == a + [f];
    Shift2(a, f, e, r.entries);
  }

  lemma FromLeftInner<V>(l: Node<V>, e: (int, V), r: Node<V>, l': Node<V>, r': Node<V>)
    requires l.entries != [] && |l.children| == |l.entries| + 1 && |r.children| == |r.entries| + 1
    requires l'.entries == l.entries[..|l.entries| - 1] && r'.entries == [e] + r.entries
    requires l'.children == l.children[..|l.children| - 1] && r'.children == [l.children[|l.children| - 1]] + r.children
    ensures Elements(l') + [l.entries[|l.entries| - 1]] + Elements(r') == Elements(l) + [e] + Elements(r)
  {
    var x, f := l.children[|l.children| - 1], l.entries[|l.entries| - 1];
    DropLast(l, l');
    Cons(x, e, r, r');
    Shift3(Elements(l'), f, Elements(x), e, Elements(r));
  }

  /** A node read as the node without its last entry and child, that entry, then that child. */
  lemma DropLast<V>(l: Node<V>, l': Node<V>)
    requires l.entries != [] && |l.children| == |l.entries| + 1
    requires l'.entries == l.entries[..|l.entries| - 1] && l'.children == l.children[..|l.children| - 1]
    ensures Elements(l) == Elements(l') + [l.entries[|l.entries| - 1]] + Elements(l.children[|l.children| - 1])
  {
    var x, f := l.children[|l.children| - 1], l.entries[|l.entries| - 1];
    SplitLast(l.entries);
    SplitLast(l.children);
    Snoc(l', f, x, l);
  }

  /** `delete_sibling` keeps the traversal of the node. */
  lemma RotateElements<V>(node: Node<V>, i: nat, j: nat, h: nat)
    requires Tree(node, h) && h > 0
    requires i < |node.children| && j < |node.children| && (j == i + 1 || j + 1 == i)
    requires node.children[j].entries != []
    ensures Elements(Rotate(node, i, j)) == Elements(node)
  {
    var k := if i < j then i else j;
    var n' := Rotate(node, i, j);
    RotatePair(node, i, j, h);
    RotateShape(node, i, j);
    ElementsAt2(node, k);
    PairParts(node, k, n');
    SameMiddle(Pre(node, k), Elements(node.children[k]), node.entries[k], Elements(node.children[k + 1]),
               Elements(n'.children[k]), n'.entries[k], Elements(n'.children[k + 1]), Post(node, k + 1));
  }

  /** The separator and the two children `delete_sibling` touches read as before. */
  lemma RotatePair<V>(node: Node<V>, i: nat, j: nat, h: nat)
    requires Tree(node, h) && h > 0
    requires i < |node.children| && j < |node.children| && (j == i + 1 || j + 1 == i)
    requires node.children[j].entries != []
    ensures var k, n' := (if i < j then i else j), Rotate(node, i, j);
      Elements(n'.children[k]) + [n'.entries[k]] + Elements(n'.children[k + 1])
      == Elements(node.children[k]) + [node.entries[k]] + Elements(node.children[k + 1])
  {
    var k := if i < j then i else j;
    Siblings(node, k, h);
    if i < j {
      RotatePairRight(node, i, j);
    } else {
      RotatePairLeft(node, i, j);
    }
  }

  lemma RotatePairRight<V>(node: Node<V>, i: nat, j: nat)
    requires |node.children| == |node.entries| + 1 && j == i + 1 && j < |node.children|
    requires node.children[j].entries != [] && SameKind(node.children[i], node.children[j])
    ensures var n' := Rotate(node, i, j);
      Elements(n'.children[i]) + [n'.entries[i]] + Elements(n'.children[j])
      == Elements(node.children[i]) + [node.entries[i]] + Elements(node.children[j])
  {
    var c, s := node.children[i], node.children[j];
    var c' := c.(entries := c.entries + [node.entries[i]],
                 children := if s.children == [] then c.children else c.children + [s.children[0]]);
    var s' := s.(entries := s.entries[1..],
                 children := if s.children == [] then [] else s.children[1..]);
    assert Rotate(node, i, j).children[i] == c' && Rotate(node, i, j).children[j] == s';
    FromRight(c, node.entries[i], s, c', s');
  }

  lemma RotatePairLeft<V>(node: Node<V>, i: nat, j: nat)
    requires |node.children| == |node.entries| + 1 && j + 1 == i && i < |node.children|
    requires node.children[j].entries != [] && SameKind(node.children[j], node.children[i])
    ensures var n' := Rotate(node, i, j);
      Elements(n'.children[j]) + [n'.entries[j]] + Elements(n'.children[i])
      == Elements(node.children[j]) + [node.entries[j]] + Elements(node.children[i])
  {
    var c, s := node.children[i], node.children[j];
    var c' := c.(entries := [node.entries[j]] + c.entries,
                 children := if s.children == [] then c.children else [s.children[|s.children| - 1]] + c.children);
    var s' := s.(entries := s.entries[..|s.entries| - 1],
                 children := if s.children == [] then [] else s.children[..|s.children| - 1]);
    assert Rotate(node, i, j).children[j] == s' && Rotate(node, i, j).children[i] == c';
    FromLeft(s, node.entries[j], c, s', c');
  }

  /** `delete_sibling` only touches the separator and the two children around it. */
  lemma RotateShape<V>(node: Node<V>, i: nat, j: nat)
    requires |node.children| == |node.entries| + 1
    requires i < |node.children| && j < |node.children| && (j == i + 1 || j + 1 == i)
    requires node.children[j].entries != []
    ensures var k, n' := (if i < j then i else j), Rotate(node, i, j);
      && |n'.entries| == |node.entries| && |n'.children| == |node.children|
      && n'.entries[..k] == node.entries[..k] && n'.entries[k + 1..] == node.entries[k + 1..]
      && n'.children[..k] == node.children[..k] && n'.children[k + 2..] == node.children[k + 2..]
      && n'.isRoot == node.isRoot && n'.isLeaf == node.isLeaf
  {
    var k, n' := (if i < j then i else j), Rotate(node, i, j);
    UpdateSlices(node.entries, k, n'.entries[k]);
    Update2Slices(node.children, k, n'.children[k], n'.children[k + 1]);
  }

  /**
   * `delete_sibling` keeps the tree well formed when the sibling can spare a pair and the
   * child has room for one: the child gains exactly one pair, the sibling loses one, and
   * the node keeps its number of pairs.
   */
  lemma RotateTree<V>(node: Node<V>, i: nat, j: nat, h: nat)
    requires Tree(node, h) && h > 0
    requires i < |node.children| && j < |node.children| && (j == i + 1 || j + 1 == i)
    requires |node.children[j].entries| >= B && |node.children[i].entries| < CAPACITY
    ensures var n' := Rotate(node, i, j);
      && Tree(n', h) && n'.isRoot == node.isRoot && |n'.entries| == |node.entries|
      && |n'.children[i].entries| == |node.children[i].entries| + 1
      && |n'.children[j].entries| == |node.children[j].entries| - 1
  {
    var n' := Rotate(node, i, j);
    var k := if i < j then i else j;
    Siblings(node, k, h);
    RotateShape(node, i, j);
    assert ChildOk(n'.children[i], h - 1) && ChildOk(n'.children[j], h - 1) by {
      if i < j {
        RotateKidsRight(node, i, j, h);
      } else {
        RotateKidsLeft(node, i, j, h);
      }
    }
    forall t | 0 <= t < |n'.children| ensures ChildOk(n'.children[t], h - 1) {
      if t != i && t != j {
        assert n'.children[t] == node.children[t];
      }
    }
  }

  lemma RotateKidsRight<V>(node: Node<V>, i: nat, j: nat, h: nat)
    requires |node.children| == |node.entries| + 1 && j == i + 1 && j < |node.children| && h > 0
    requires ChildOk(node.children[i], h - 1) && ChildOk(node.children[j], h - 1)
    requires |node.children[j].entries| >= B && |node.children[i].entries| < CAPACITY
    ensures var n' := Rotate(node, i, j);
      && ChildOk(n'.children[i], h - 1) && ChildOk(n'.children[j], h - 1)
      && |n'.children[i].entries| == |node.children[i].entries| + 1
      && |n'.children[j].entries| == |node.children[j].entries| - 1
  {
    var n' := Rotate(node, i, j);
    var c, s, c', s' := node.children[i], node.children[j], n'.children[i], n'.children[j];
    assert Tree(c, h - 1) && Tree(s, h - 1);
    if h > 1 {
      assert c'.children == c.children + [s.children[0]] && s'.children == s.children[1..];
      forall t | 0 <= t < |c'.children| ensures ChildOk(c'.children[t], h - 2) {
        if t < |c.children| {
          assert c'.children[t] == c.children[t];
        } else {
          assert c'.children[t] == s.children[0];
        }
      }
      forall t | 0 <= t < |s'.children| ensures ChildOk(s'.children[t], h - 2) {
        assert s'.children[t] == s.children[t + 1];
      }
    }
  }

  lemma RotateKidsLeft<V>(node: Node<V>, i: nat, j: nat, h: nat)
    requires |node.children| == |node.entries| + 1 && j + 1 == i && i < |node.children| && h > 0
    requires ChildOk(node.children[i], h - 1) && ChildOk(node.children[j], h - 1)
    requires |node.children[j].entries| >= B && |node.children[i].entries| < CAPACITY
    ensures var n' := Rotate(node, i, j);
      && ChildOk(n'.children[i], h - 1) && ChildOk(n'.children[j], h - 1)
      && |n'.children[i].entries| == |node.children[i].entries| + 1
      && |n'.children[j].entries| == |node.children[j].entries| - 1
  {
    var n' := Rotate(node, i, j);
    var c, s, c', s' := node.children[i], node.children[j], n'.children[i], n'.children[j];
    assert Tree(c, h - 1) && Tree(s, h - 1);
    if h > 1 {
      var x := s.children[|s.children| - 1];
      assert c'.children == [x] + c.children && s'.children == s.children[..|s.children| - 1];
      forall t | 0 <= t < |c'.children| ensures ChildOk(c'.children[t], h - 2) {
        if t == 0 {
          assert c'.children[t] == x;
        } else {
          assert c'.children[t] == c.children[t - 1];
        }
      }
      forall t | 0 <= t < |s'.children| ensures ChildOk(s'.children[t], h - 2) {
        assert s'.children[t] == s.children[t];
      }
    }
  }

  /**
   * The new separator keeps the order: from a right sibling it is above the old one, from
   * a left sibling below it.
   */
  lemma RotateOrder<V>(node: Node<V>, i: nat, j: nat, h: nat)
    requires Tree(node, h) && h > 0 && Sorted(Elements(node))
    requires i < |node.children| && j < |node.children| && (j == i + 1 || j + 1 == i)
    requires node.children[j].entries != []
    ensures i < j ==> node.entries[i].0 < Rotate(node, i, j).entries[i].0
    ensures j < i ==> Rotate(node, i, j).entries[j].0 < node.entries[j].0
  {
    var s := node.children[j];
    var k := if i < j then i else j;
    Siblings(node, k, h);
    ElementsAt2(node, k);
    if i < j {
      EntryIn(s, h - 1, 0);
      SortedBefore(Pre(node, k) + Elements(node.children[k]), node.entries[k], Elements(s),
                   Post(node, k + 1), s.entries[0]);
    } else {
      EntryIn(s, h - 1, |s.entries| - 1);
      SortedAfter(Pre(node, k), Elements(s), node.entries[k], Elements(node.children[k + 1]),
                  Post(node, k + 1), s.entries[|s.entries| - 1]);
    }
  }

  // ---------------------------------------------------------------------------
  // delete_merge
  // ---------------------------------------------------------------------------

  /** Child `c`, separator `e` and sibling `s` as one node, with `c`'s flags. */
  function Merged<V>(c: Node<V>, e: (int, V), s: Node<V>): Node<V> {
    c.(entries := c.entries + [e] + s.entries, children := c.children + s.children)
  }

  /**
   * The node after `delete_merge(node, i, j)` for the adjacent children `k = min(i, j)` and
   * `k + 1`: they and their separator become one child at `k`; when that empties a root,
   * the merged child itself becomes the root.
   */
  function MergeAt<V>(node: Node<V>, k: nat): Node<V>
    requires |node.children| == |node.entries| + 1 && k < |node.entries|
  {
    var m := Merged(node.children[k], node.entries[k], node.children[k + 1]);
    if node.isRoot && |node.entries| == 1 then m.(isRoot := true)
    else node.(entries := RemoveAt(node.entries, k), children := node.children[..k] + [m] + node.children[k + 2..])
  }

  lemma MergedElements<V>(c: Node<V>, e: (int, V), s: Node<V>)
    requires SameKind(c, s)
    ensures Elements(Merged(c, e, s)) == Elements(c) + [e] + Elements(s)
  {
    if c.children == [] {
      JoinLeaves(c, e, s, Merged(c, e, s));
    } else {
      Join(c, e, s, Merged(c, e, s));
    }
  }

  /** `delete_merge` keeps the traversal of the node, also when it promotes the merged child. */
  lemma MergeElements<V>(node: Node<V>, k: nat, h: nat)
    requires Tree(node, h) && h > 0 && k < |node.entries|
    ensures Elements(MergeAt(node, k)) == Elements(node)
  {
    var c, e, s := node.children[k], node.entries[k], node.children[k + 1];
    var m := Merged(c, e, s);
    Siblings(node, k, h);
    MergedElements(c, e, s);
    ElementsAt2(node, k);
    if node.isRoot && |node.entries| == 1 {
      PreFirst(node);
      PostLast(node);
      RootFlag(m, true, h - 1);
      Regroup([], Elements(c), e, Elements(s), [], Elements(m));
    } else {
      Narrow(node, k, MergeAt(node, k), m);
      Regroup(Pre(node, k), Elements(c), e, Elements(s), Post(node, k + 1), Elements(m));
    }
  }

  /** The traversal of a node in which children `k` and `k + 1` and pair `k` of `node` became child `m`. */
  lemma Narrow<V>(node: Node<V>, k: nat, n': Node<V>, m: Node<V>)
    requires |node.children| == |node.entries| + 1 && k < |node.entries|
    requires n'.entries == RemoveAt(node.entries, k)
    requires n'.children == node.children[..k] + [m] + node.children[k + 2..]
    ensures Elements(n') == Pre(node, k) + Elements(m) + Post(node, k + 1)
  {
    ReplaceTwo(node.children, k, m);
    ElementsAt(n', k);
    PreSame(n', node, k);
    PostSame(n', k, node, k + 1);
  }

  /** Two children of height `h` whose pairs fit in one node merge into a child of height `h`. */
  lemma MergedTree<V>(c: Node<V>, e: (int, V), s: Node<V>, h: nat)
    requires ChildOk(c, h) && ChildOk(s, h) && |c.entries| + |s.entries| + 1 <= CAPACITY
    requires c.isLeaf == s.isLeaf
    ensures ChildOk(Merged(c, e, s), h)
  {
    var m := Merged(c, e, s);
    if h > 0 {
      forall t | 0 <= t < |m.children| ensures ChildOk(m.children[t], h - 1) {
        if t < |c.children| {
          assert m.children[t] == c.children[t];
        } else {
          assert m.children[t] == s.children[t - |c.children|];
        }
      }
    }
  }

  /**
   * `delete_merge` of two children whose pairs fit in one node keeps the tree well formed:
   * the merged child holds both children's pairs and the separator; the node loses one pair
   * and one child, or, when it was a root with a single pair, is replaced by the merged child
   * as the new root, one level lower.
   */
  lemma MergeTree<V>(node: Node<V>, k: nat, h: nat)
    requires Tree(node, h) && h > 0 && k < |node.entries|
    requires |node.children[k].entries| + |node.children[k + 1].entries| + 1 <= CAPACITY
    ensures var n', size := MergeAt(node, k), |node.children[k].entries| + |node.children[k + 1].entries| + 1;
      && (node.isRoot && |node.entries| == 1 ==> Tree(n', h - 1) && n'.isRoot && |n'.entries| == size)
      && (!(node.isRoot && |node.entries| == 1) ==>
            && Tree(n', h) && n'.isRoot == node.isRoot && |n'.entries| + 1 == |node.entries|
            && |n'.children| == |node.children| - 1 && |n'.children[k].entries| == size
            && n'.entries[..k] == node.entries[..k] && n'.entries[k..] == node.entries[k + 1..])
  {
    var c, e, s := node.children[k], node.entries[k], node.children[k + 1];
    var m := Merged(c, e, s);
    Siblings(node, k, h);
    MergedTree(c, e, s, h - 1);
    var n' := MergeAt(node, k);
    if node.isRoot && |node.entries| == 1 {
      RootFlag(m, true, h - 1);
    } else {
      ReplaceTwo(node.children, k, m);
      forall t | 0 <= t < |n'.children| ensures ChildOk(n'.children[t], h - 1) {
        if t < k {
          assert n'.children[t] == node.children[t];
        } else if t > k {
          assert n'.children[t] == node.children[t + 1];
        }
      }
    }
  }

  // ---------------------------------------------------------------------------
  // Descending into one child
  // ---------------------------------------------------------------------------

  /**
   * A key between pairs `i - 1` and `i` of a node with an ascending traversal can only be
   * in child `i`: looking it up or removing it happens in that child alone.
   */
  lemma Focused<V>(n: Node<V>, i: nat, key: int, h: nat)
    requires Tree(n, h) && h > 0 && Sorted(Elements(n)) && Between(n.entries, i, key)
    ensures ChildOk(n.children[i], h - 1) && Tree(n.children[i], h - 1)
    ensures Sorted(Elements(n.children[i]))
    ensures Elements(n) == Pre(n, i) + Elements(n.children[i]) + Post(n, i)
    ensures AllBelow(Pre(n, i), key) && AllAbove(Post(n, i), key)
    ensures Lookup(Elements(n), key) == Lookup(Elements(n.children[i]), key)
    ensures Without(Elements(n), key) == Pre(n, i) + Without(Elements(n.children[i]), key) + Post(n, i)
  {
    assert ChildOk(n.children[i], h - 1);
    ElementsAt(n, i);
    if i > 0 {
      PreNext(n, i - 1);
    } else {
      PreFirst(n);
    }
    if i < |n.entries| {
      PostNext(n, i);
    } else {
      PostLast(n);
    }
    SortedMiddle(Pre(n, i), Elements(n.children[i]), Post(n, i));
    Bracketed(Pre(n, i), Elements(n.children[i]), Post(n, i), key);
    Focus(Pre(n, i), Elements(n.children[i]), Post(n, i), key);
  }

  /** Putting a well-formed child back at `i` keeps the tree well formed. */
  lemma Reattach<V>(n: Node<V>, i: nat, h: nat, c: Node<V>)
    requires Tree(n, h) && h > 0 && i <= |n.entries| && ChildOk(c, h - 1)
    ensures var n' := n.(children := n.children[i := c]);
      Tree(n', h) && Elements(n') == Pre(n, i) + Elements(c) + Post(n, i)
  {
    var n' := n.(children := n.children[i := c]);
    ReplaceChild(n, i, c);
    forall t | 0 <= t < |n'.children| ensures ChildOk(n'.children[t], h - 1) {
      if t != i {
        assert n'.children[t] == n.children[t];
      }
    }
  }

  /** Giving pair `k` a new value under the same key keeps the tree well formed and updates that key in the traversal. */
  lemma ReplaceEntry<V>(node: Node<V>, k: nat, v: V, h: nat)
    requires Tree(node, h) && Sorted(Elements(node)) && k < |node.entries|
    ensures var n' := node.(entries := node.entries[k := (node.entries[k].0, v)]);
      && Tree(n', h) && Elements(n') == Upsert(Elements(node), node.entries[k].0, v)
  {
    var x := node.entries[k];
    var n' := node.(entries := node.entries[k := (x.0, v)]);
    if h == 0 {
      UpsertAt(node.entries, k, v);
    } else {
      assert forall t :: 0 <= t < |n'.children| ==> ChildOk(n'.children[t], h - 1);
      UpdateSlices(node.entries, k, (x.0, v));
      PairParts(node, k, n');
      ElementsAt2(node, k);
      ReplaceMiddle(Pre(node, k), Elements(node.children[k]), x, Elements(node.children[k + 1]), Post(node, k + 1), v);
    }
  }

  /** A well-formed replacement of a child, of the same kind and no fewer pairs, is a child as good. */
  lemma StillChild<V>(c: Node<V>, c': Node<V>, h: nat)
    requires ChildOk(c, h) && Tree(c', h) && c'.isRoot == c.isRoot && |c'.entries| >= |c.entries|
    ensures ChildOk(c', h)
  {
  }

  /** The shape of a tree does not depend on which pairs its nodes hold. */
  lemma Reentry<V>(n: Node<V>, es: seq<(int, V)>, h: nat)
    requires Tree(n, h) && |es| == |n.entries|
    ensures Tree(n.(entries := es), h)
  {
  }
}
