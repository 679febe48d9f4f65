/**
 * Key–value sequences ordered by key: the abstract view of a B-tree (its in-order
 * traversal) and the operations the map promises on it.
 */
module OrderedPairs {
  import opened Common

  /** Keys strictly ascending: every key occurs once. */
  ghost predicate Sorted<V>(s: seq<(int, V)>) {
    forall i, j :: 0 <= i < j < |s| ==> s[i].0 < s[j].0
  }

  function Keys<V>(s: seq<(int, V)>): set<int> {
    set i | 0 <= i < |s| :: s[i].0
  }

  /** `k` lies between the keys at positions `i - 1` and `i`: where it would be inserted. */
  ghost predicate Between<V>(s: seq<(int, V)>, i: nat, k: int) {
    && i <= |s|
    && (i > 0 ==> s[i - 1].0 < k)
    && (i < |s| ==> k < s[i].0)
  }

  ghost predicate AllBelow<V>(s: seq<(int, V)>, k: int) {
    forall i :: 0 <= i < |s| ==> s[i].0 < k
  }

  ghost predicate AllAbove<V>(s: seq<(int, V)>, k: int) {
    forall i :: 0 <= i < |s| ==> k < s[i].0
  }

  /** The value stored with the first occurrence of `k`. */
  function Lookup<V>(s: seq<(int, V)>, k: int): (r: Option<V>)
    ensures r.Some? <==> k in Keys(s)
    ensures r.Some? ==> (k, r.value) in s
  {
    if s == [] then None
    else if s[0].0 == k then Some(s[0].1)
    else
      var r := Lookup(s[1..], k);
      assert Keys(s) == {s[0].0} + Keys(s[1..]) by { KeysCons(s); }
      r
  }

  /** Insert-or-replace in ascending position: what the map's `insert` does to its contents. */
  function Upsert<V>(s: seq<(int, V)>, k: int, v: V): seq<(int, V)> {
    if s == [] then [(k, v)]
    else if s[0].0 == k then [(k, v)] + s[1..]
    else if k < s[0].0 then [(k, v)] + s
    else [s[0]] + Upsert(s[1..], k, v)
  }

  /** Every pair whose key is `k` dropped: what the map's `remove` does to its contents. */
  function Without<V>(s: seq<(int, V)>, k: int): seq<(int, V)> {
    if s == [] then []
    else (if s[0].0 == k then [] else [s[0]]) + Without(s[1..], k)
  }

  /** The abstract map of a sequence (first occurrence wins). */
  function ToMap<V>(s: seq<(int, V)>): (m: map<int, V>)
    ensures m.Keys == Keys(s)
  {
    map k | k in Keys(s) :: Lookup(s, k).value
  }

  lemma KeysCons<V>(s: seq<(int, V)>)
    requires s != []
    ensures Keys(s) == {s[0].0} + Keys(s[1..])
  {
    forall k | k in Keys(s) ensures k in {s[0].0} + Keys(s[1..]) {
      var i :| 0 <= i < |s| && s[i].0 == k;
      if i > 0 { assert s[1..][i - 1].0 == k; }
    }
    forall k | k in Keys(s[1..]) ensures k in Keys(s) {
      var i :| 0 <= i < |s[1..]| && s[1..][i].0 == k;
      assert s[i + 1].0 == k;
    }
  }

  lemma KeysAppend<V>(a: seq<(int, V)>, b: seq<(int, V)>)
    ensures Keys(a + b) == Keys(a) + Keys(b)
  {
    forall k | k in Keys(a + b) ensures k in Keys(a) + Keys(b) {
      var i :| 0 <= i < |a + b| && (a + b)[i].0 == k;
      if i >= |a| { assert b[i - |a|].0 == k; }
    }
    forall k | k in Keys(b) ensures k in Keys(a + b) {
      var i :| 0 <= i < |b| && b[i].0 == k;
      assert (a + b)[|a| + i].0 == k;
    }
    forall k | k in Keys(a) ensures k in Keys(a + b) {
      var i :| 0 <= i < |a| && a[i].0 == k;
      assert (a + b)[i].0 == k;
    }
  }

  lemma {:induction false} LookupAppend<V>(a: seq<(int, V)>, b: seq<(int, V)>, k: int)
    ensures Lookup(a + b, k) == if k in Keys(a) then Lookup(a, k) else Lookup(b, k)
    decreases |a|
  {
    if a == [] {
      assert a + b == b;
    } else {
      KeysCons(a);
      assert (a + b)[0] == a[0] && (a + b)[1..] == a[1..] + b;
      if a[0].0 != k {
        LookupAppend(a[1..], b, k);
      }
    }
  }

  lemma {:induction false} WithoutAppend<V>(a: seq<(int, V)>, b: seq<(int, V)>, k: int)
    ensures Without(a + b, k) == Without(a, k) + Without(b, k)
    decreases |a|
  {
    if a == [] {
      assert a + b == b;
    } else {
      assert (a + b)[0] == a[0] && (a + b)[1..] == a[1..] + b;
      WithoutAppend(a[1..], b, k);
    }
  }

  lemma {:induction false} WithoutAbsent<V>(s: seq<(int, V)>, k: int)
    requires k !in Keys(s)
    ensures Without(s, k) == s
    decreases |s|
  {
    if s != [] {
      KeysCons(s);
      WithoutAbsent(s[1..], k);
    }
  }

  lemma BelowAbsent<V>(s: seq<(int, V)>, k: int)
    requires AllBelow(s, k) || AllAbove(s, k)
    ensures k !in Keys(s)
  {
  }

  /**
   * A key that lies strictly between `a` and `b` is looked up, removed and inserted
   * inside `m` alone.
   */
  lemma Focus<V>(a: seq<(int, V)>, m: seq<(int, V)>, b: seq<(int, V)>, k: int)
    requires k !in Keys(a) && k !in Keys(b)
    ensures Lookup(a + m + b, k) == Lookup(m, k)
    ensures Without(a + m + b, k) == a + Without(m, k) + b
  {
    LookupAppend(a + m, b, k);
    LookupAppend(a, m, k);
    KeysAppend(a, m);
    WithoutAppend(a + m, b, k);
    WithoutAppend(a, m, k);
    WithoutAbsent(a, k);
    WithoutAbsent(b, k);
  }

  lemma {:induction false} UpsertBefore<V>(m: seq<(int, V)>, b: seq<(int, V)>, k: int, v: V)
    requires AllAbove(b, k)
    ensures Upsert(m + b, k, v) == Upsert(m, k, v) + b
    decreases |m|
  {
    if m == [] {
      assert m + b == b;
    } else {
      assert (m + b)[0] == m[0] && (m + b)[1..] == m[1..] + b;
      if m[0].0 != k && !(k < m[0].0) {
        UpsertBefore(m[1..], b, k, v);
      }
    }
  }

  /** Insertion between a part below `k` and a part above `k` happens in the middle part. */
  lemma {:induction false} UpsertMiddle<V>(a: seq<(int, V)>, m: seq<(int, V)>, b: seq<(int, V)>, k: int, v: V)
    requires AllBelow(a, k) && AllAbove(b, k)
    ensures Upsert(a + m + b, k, v) == a + Upsert(m, k, v) + b
    decreases |a|
  {
    if a == [] {
      assert a + m + b == m + b;
      UpsertBefore(m, b, k, v);
    } else {
      assert (a + m + b)[0] == a[0] && (a + m + b)[1..] == a[1..] + m + b;
      UpsertMiddle(a[1..], m, b, k, v);
    }
  }

  lemma {:induction false} UpsertAbove<V>(s: seq<(int, V)>, k: int, v: V, x: int)
    requires AllAbove(s, x) && x < k
    ensures AllAbove(Upsert(s, k, v), x)
    decreases |s|
  {
    if s != [] && s[0].0 != k && !(k < s[0].0) {
      UpsertAbove(s[1..], k, v, x);
    }
  }

  lemma {:induction false} UpsertSorted<V>(s: seq<(int, V)>, k: int, v: V)
    requires Sorted(s)
    ensures Sorted(Upsert(s, k, v))
    decreases |s|
  {
    if s != [] && s[0].0 != k && !(k < s[0].0) {
      UpsertSorted(s[1..], k, v);
      UpsertAbove(s[1..], k, v, s[0].0);
    }
  }

  lemma {:induction false} WithoutAbove<V>(s: seq<(int, V)>, k: int, x: int)
    requires AllAbove(s, x)
    ensures AllAbove(Without(s, k), x)
    decreases |s|
  {
    if s != [] {
      WithoutAbove(s[1..], k, x);
    }
  }

  lemma {:induction false} WithoutSorted<V>(s: seq<(int, V)>, k: int)
    requires Sorted(s)
    ensures Sorted(Without(s, k))
    decreases |s|
  {
    if s != [] {
      WithoutSorted(s[1..], k);
      WithoutAbove(s[1..], k, s[0].0);
    }
  }

  lemma {:induction false} LookupUpsert<V>(s: seq<(int, V)>, k: int, v: V, x: int)
    ensures Lookup(Upsert(s, k, v), x) == if x == k then Some(v) else Lookup(s, x)
    decreases |s|
  {
    if s != [] && s[0].0 != k && !(k < s[0].0) {
      LookupUpsert(s[1..], k, v, x);
    } else if s != [] && s[0].0 == k {
      assert Upsert(s, k, v)[1..] == s[1..];
    } else if s != [] {
      assert Upsert(s, k, v)[1..] == s;
    }
  }

  lemma {:induction false} LookupWithout<V>(s: seq<(int, V)>, k: int, x: int)
    ensures Lookup(Without(s, k), x) == if x == k then None else Lookup(s, x)
    decreases |s|
  {
    if s != [] {
      LookupWithout(s[1..], k, x);
      if s[0].0 != k {
        assert Without(s, k) == [s[0]] + Without(s[1..], k);
        assert ([s[0]] + Without(s[1..], k))[1..] == Without(s[1..], k);
      } else {
        assert Without(s, k) == Without(s[1..], k);
      }
    }
  }

  /** `insert` on the contents is map update. */
  lemma ToMapUpsert<V>(s: seq<(int, V)>, k: int, v: V)
    ensures ToMap(Upsert(s, k, v)) == ToMap(s)[k := v]
  {
    var m, m' := ToMap(Upsert(s, k, v)), ToMap(s)[k := v];
    forall x ensures (x in m <==> x in m') && (x in m ==> m[x] == m'[x]) {
      LookupUpsert(s, k, v, x);
    }
  }

  /** `remove` on the contents is removal of the key from the map. */
  lemma ToMapWithout<V>(s: seq<(int, V)>, k: int)
    ensures ToMap(Without(s, k)) == ToMap(s) - {k}
  {
    var m, m' := ToMap(Without(s, k)), ToMap(s) - {k};
    forall x ensures (x in m <==> x in m') && (x in m ==> m[x] == m'[x]) {
      LookupWithout(s, k, x);
    }
  }

  lemma SortedTail<V>(s: seq<(int, V)>)
    requires Sorted(s) && s != []
    ensures Sorted(s[1..]) && AllAbove(s[1..], s[0].0)
  {
  }

  /** On a sorted sequence `insert` adds one pair exactly when the key was absent. */
  lemma {:induction false} UpsertLength<V>(s: seq<(int, V)>, k: int, v: V)
    requires Sorted(s)
    ensures |Upsert(s, k, v)| == if k in Keys(s) then |s| else |s| + 1
    decreases |s|
  {
    if s != [] {
      KeysCons(s);
      SortedTail(s);
      if k < s[0].0 {
        BelowAbsent(s[1..], k);
      } else if s[0].0 != k {
        UpsertLength(s[1..], k, v);
      }
    }
  }

  /** On a sorted sequence `remove` drops one pair exactly when the key was present. */
  lemma {:induction false} WithoutLength<V>(s: seq<(int, V)>, k: int)
    requires Sorted(s)
    ensures |Without(s, k)| == if k in Keys(s) then |s| - 1 else |s|
    decreases |s|
  {
    if s != [] {
      KeysCons(s);
      SortedTail(s);
      if s[0].0 == k {
        BelowAbsent(s[1..], k);
        WithoutAbsent(s[1..], k);
      } else {
        WithoutLength(s[1..], k);
      }
    }
  }

  /** Pieces of a sorted sequence are sorted and every key of one piece is below every key of a later one. */
  lemma SortedSplit<V>(a: seq<(int, V)>, b: seq<(int, V)>)
    requires Sorted(a + b)
    ensures Sorted(a) && Sorted(b)
    ensures forall i, j :: 0 <= i < |a| && 0 <= j < |b| ==> a[i].0 < b[j].0
  {
    assert forall i :: 0 <= i < |a| ==> a[i] == (a + b)[i];
    assert forall j :: 0 <= j < |b| ==> b[j] == (a + b)[|a| + j];
  }

  lemma SortedMiddle<V>(a: seq<(int, V)>, m: seq<(int, V)>, b: seq<(int, V)>)
    requires Sorted(a + m + b)
    ensures Sorted(m)
  {
    SortedSplit(a + m, b);
    SortedSplit(a, m);
  }

  /**
   * In a sorted `a + m + b` a key above the last of `a` and below the first of `b`
   * occurs in neither.
   */
  lemma Bracketed<V>(a: seq<(int, V)>, m: seq<(int, V)>, b: seq<(int, V)>, k: int)
    requires Sorted(a + m + b)
    requires a != [] ==> a[|a| - 1].0 < k
    requires b != [] ==> k < b[0].0
    ensures AllBelow(a, k) && AllAbove(b, k)
    ensures k !in Keys(a) && k !in Keys(b)
  {
    SortedSplit(a + m, b);
    SortedSplit(a, m);
    assert forall i :: 0 <= i < |a| ==> a[i] == (a + m)[i];
  }

  /** The key at position `i` of a sorted sequence splits it around that one pair. */
  lemma SortedAt<V>(s: seq<(int, V)>, i: nat)
    requires Sorted(s) && i < |s|
    ensures s == s[..i] + [s[i]] + s[i + 1..]
    ensures s[i].0 !in Keys(s[..i]) && s[i].0 !in Keys(s[i + 1..])
  {
    assert s == s[..i] + [s[i]] + s[i + 1..];
    Bracketed(s[..i], [s[i]], s[i + 1..], s[i].0);
  }

  /** In a sorted sequence a key is found at its one position. */
  lemma LookupAt<V>(s: seq<(int, V)>, i: nat)
    requires Sorted(s) && i < |s|
    ensures Lookup(s, s[i].0) == Some(s[i].1)
  {
    SortedAt(s, i);
    Focus(s[..i], [s[i]], s[i + 1..], s[i].0);
  }

  /** Removing a key of a sorted sequence removes its one pair. */
  lemma WithoutAt<V>(s: seq<(int, V)>, i: nat)
    requires Sorted(s) && i < |s|
    ensures Without(s, s[i].0) == s[..i] + s[i + 1..]
  {
    SortedAt(s, i);
    Focus(s[..i], [s[i]], s[i + 1..], s[i].0);
  }

  /** Inserting a key that is present replaces the value of its pair in place. */
  lemma UpsertAt<V>(s: seq<(int, V)>, i: nat, v: V)
    requires Sorted(s) && i < |s|
    ensures Upsert(s, s[i].0, v) == s[i := (s[i].0, v)]
  {
    var k, a, b := s[i].0, s[..i], s[i + 1..];
    SortedAt(s, i);
    Bracketed(a, [s[i]], b, k);
    UpsertMiddle(a, [s[i]], b, k, v);
    assert Upsert([s[i]], k, v) == [(k, v)];
    UpdateAt(s, i, (k, v));
  }

  /**
   * Inserting a key that lies between positions `i - 1` and `i` of a sorted sequence
   * puts its pair at `i`.
   */
  lemma UpsertBetween<V>(s: seq<(int, V)>, i: nat, k: int, v: V)
    requires Sorted(s) && i <= |s|
    requires i > 0 ==> s[i - 1].0 < k
    requires i < |s| ==> k < s[i].0
    ensures Upsert(s, k, v) == s[..i] + [(k, v)] + s[i..]
    ensures k !in Keys(s)
  {
    assert s == s[..i] + [] + s[i..];
    Bracketed(s[..i], [], s[i..], k);
    UpsertMiddle(s[..i], [], s[i..], k, v);
    KeysAppend(s[..i], s[i..]);
  }

  /** In a sorted sequence a pair is below everything after it. */
  lemma SortedBefore<V>(a: seq<(int, V)>, x: (int, V), m: seq<(int, V)>, b: seq<(int, V)>, y: (int, V))
    requires Sorted(a + [x] + m + b) && y in m
    ensures x.0 < y.0
  {
    var t :| 0 <= t < |m| && m[t] == y;
    var s := a + [x] + m + b;
    assert s[|a|] == x && s[|a| + 1 + t] == y;
  }

  /** In a sorted sequence a pair is above everything before it. */
  lemma SortedAfter<V>(a: seq<(int, V)>, m: seq<(int, V)>, x: (int, V), b: seq<(int, V)>, q: seq<(int, V)>, y: (int, V))
    requires Sorted(a + m + [x] + b + q) && y in m
    ensures y.0 < x.0
  {
    var t :| 0 <= t < |m| && m[t] == y;
    var s := a + m + [x] + b + q;
    assert s[|a| + t] == y && s[|a| + |m|] == x;
  }

  /** Replacing the pair of a key in a sorted sequence replaces its value. */
  lemma ReplaceMiddle<V>(p: seq<(int, V)>, l: seq<(int, V)>, x: (int, V), r: seq<(int, V)>, q: seq<(int, V)>, v: V)
    requires Sorted(p + l + [x] + r + q)
    ensures Upsert(p + l + [x] + r + q, x.0, v) == p + l + [(x.0, v)] + r + q
  {
    var s := p + l + [x] + r + q;
    var i := |p + l|;
    assert s[i] == x;
    UpsertAt(s, i, v);
    assert s[i := (x.0, v)] == p + l + [(x.0, v)] + r + q;
  }

  /** Removing a key from a sorted sequence drops its one pair; feeding in the predecessor of that pair. */
  lemma DropBefore<V>(p: seq<(int, V)>, l: seq<(int, V)>, y: (int, V), x: (int, V), r: seq<(int, V)>, q: seq<(int, V)>)
    requires Sorted(p + (l + [y]) + [x] + r + q)
    ensures Without(p + (l + [y]) + [x] + r + q, x.0) == p + l + [y] + r + q
    ensures Lookup(p + (l + [y]) + [x] + r + q, x.0) == Some(x.1)
  {
    var s := p + (l + [y]) + [x] + r + q;
    var i := |p| + |l| + 1;
    assert s[i] == x;
    assert s[..i] == p + l + [y] && s[i + 1..] == r + q;
    WithoutAt(s, i);
    LookupAt(s, i);
  }

  /** The same, feeding in the successor of the removed pair. */
  lemma DropAfter<V>(p: seq<(int, V)>, l: seq<(int, V)>, x: (int, V), y: (int, V), r: seq<(int, V)>, q: seq<(int, V)>)
    requires Sorted(p + l + [x] + ([y] + r) + q)
    ensures Without(p + l + [x] + ([y] + r) + q, x.0) == p + l + [y] + r + q
    ensures Lookup(p + l + [x] + ([y] + r) + q, x.0) == Some(x.1)
  {
    var s := p + l + [x] + ([y] + r) + q;
    var i := |p| + |l|;
    assert s[i] == x;
    assert s[..i] == p + l && s[i + 1..] == [y] + r + q;
    WithoutAt(s, i);
    LookupAt(s, i);
  }

  /**
   * After a pair is inserted at `i` into `s` (the median a split lifts), a key that lay
   * at `i` lies on the side of that pair its order says.
   */
  lemma BetweenSplit<V>(s: seq<(int, V)>, i: nat, k: int, s': seq<(int, V)>)
    requires Between(s, i, k)
    requires |s'| == |s| + 1 && s'[..i] == s[..i] && s'[i + 1..] == s[i..]
    ensures k < s'[i].0 ==> Between(s', i, k)
    ensures s'[i].0 < k ==> Between(s', i + 1, k)
  {
    if i > 0 {
      assert s'[i - 1] == s'[..i][i - 1];
    }
    if i < |s| {
      assert s'[i + 1] == s'[i + 1..][0];
    }
  }

  /** Ascending keys are distinct: a sorted sequence has as many keys as pairs. */
  lemma {:induction false} SortedKeyCount<V>(s: seq<(int, V)>)
    requires Sorted(s)
    ensures |Keys(s)| == |s|
    decreases |s|
  {
    if s != [] {
      SortedTail(s);
      SortedKeyCount(s[1..]);
      KeysCons(s);
      BelowAbsent(s[1..], s[0].0);
    }
  }

  /** Two ascending runs on either side of a pair make an ascending run. */
  lemma SortedJoin<V>(a: seq<(int, V)>, x: (int, V), b: seq<(int, V)>)
    requires Sorted(a) && Sorted(b) && AllBelow(a, x.0) && AllAbove(b, x.0)
    ensures Sorted(a + [x] + b)
  {
    var s := a + [x] + b;
    forall i, j | 0 <= i < j < |s| ensures s[i].0 < s[j].0 {
      if j < |a| {
      } else if j == |a| {
      } else if i > |a| {
        assert s[i] == b[i - |a| - 1] && s[j] == b[j - |a| - 1];
      } else {
        assert s[j] == b[j - |a| - 1];
      }
    }
  }
}
