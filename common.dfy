/** Small helpers shared by every module of the model. */
module Common {

  /** The source's `Option`: a value that may be absent. */
  datatype Option<T> = None | Some(value: T)

  /** A byte of stable memory. */
  newtype byte = x: int | 0 <= x < 256

  /** A binary search's answer: `Ok(i)` when slot `i` holds the key, `Err(i)` for the insertion index. */
  datatype SearchResult = Ok(idx: nat) | Err(idx: nat)

  /** `s` with `x` inserted so that it ends up at index `i`. */
  function InsertAt<T>(s: seq<T>, i: nat, x: T): (r: seq<T>)
    requires i <= |s|
    ensures |r| == |s| + 1 && r[i] == x
    ensures r[..i] == s[..i] && r[i + 1..] == s[i..]
  {
    s[..i] + [x] + s[i..]
  }

  /** `s` without its element at index `i`. */
  function RemoveAt<T>(s: seq<T>, i: nat): (r: seq<T>)
    requires i < |s|
    ensures |r| == |s| - 1
    ensures r[..i] == s[..i] && r[i..] == s[i + 1..]
  {
    s[..i] + s[i + 1..]
  }

  /** A non-empty sequence is its front followed by its last element. */
  lemma SplitLast<T>(s: seq<T>)
    requires s != []
    ensures s == s[..|s| - 1] + [s[|s| - 1]]
  {
  }

  /** A non-empty sequence is its first element followed by its tail. */
  lemma SplitFirst<T>(s: seq<T>)
    requires s != []
    ensures s == [s[0]] + s[1..]
  {
  }

  /** Taking one of two distinct elements back out of their pair leaves the other. */
  lemma PairMinus<T>(x: T, y: T)
    requires x != y
    ensures {x} + {y} - {y} == {x} && {y} + {x} - {y} == {x}
  {
  }

  /** Adding an element to the empty set and taking it back out. */
  lemma SingleMinus<T>(x: T)
    ensures {} + {x} == {x} && {x} - {x} == {} && {} + {x} - {x} == {}
  {
  }

  /** Inserting past the head of a sequence inserts into its tail. */
  lemma InsertAtTail<T>(s: seq<T>, i: nat, x: T)
    requires 0 < i <= |s|
    ensures InsertAt(s, i, x) == [s[0]] + InsertAt(s[1..], i - 1, x)
  {
    assert s[..i] == [s[0]] + s[1..][..i - 1];
    assert s[i..] == s[1..][i - 1..];
  }

  /** Removing past the head of a sequence removes from its tail. */
  lemma RemoveAtTail<T>(s: seq<T>, i: nat)
    requires 0 < i < |s|
    ensures RemoveAt(s, i) == [s[0]] + RemoveAt(s[1..], i - 1)
  {
    assert s[..i] == [s[0]] + s[1..][..i - 1];
    assert s[i + 1..] == s[1..][i..];
  }

  /** Element `j` of `InsertAt(s, i, x)`, by position. */
  lemma InsertAtIndex<T>(s: seq<T>, i: nat, x: T)
    requires i <= |s|
    ensures forall j :: 0 <= j < |s| + 1 ==>
      InsertAt(s, i, x)[j] == if j < i then s[j] else if j == i then x else s[j - 1]
  {
    var r := InsertAt(s, i, x);
    forall j | 0 <= j < |s| + 1
      ensures r[j] == if j < i then s[j] else if j == i then x else s[j - 1]
    {
      if j < i {
        assert r[..i][j] == s[..i][j];
      } else if j > i {
        assert r[i + 1..][j - i - 1] == s[i..][j - i - 1];
      }
    }
  }

  /** Element `j` of `RemoveAt(s, i)`, by position. */
  lemma RemoveAtIndex<T>(s: seq<T>, i: nat)
    requires i < |s|
    ensures forall j :: 0 <= j < |s| - 1 ==> RemoveAt(s, i)[j] == if j < i then s[j] else s[j + 1]
  {
    var r := RemoveAt(s, i);
    forall j | 0 <= j < |s| - 1
      ensures r[j] == if j < i then s[j] else s[j + 1]
    {
      if j < i {
        assert r[..i][j] == s[..i][j];
      } else {
        assert r[i..][j - i] == s[i + 1..][j - i];
      }
    }
  }

  /** Removing what was just inserted gives the original sequence back. */
  lemma RemoveInsert<T>(s: seq<T>, i: nat, x: T)
    requires i <= |s|
    ensures RemoveAt(InsertAt(s, i, x), i) == s
  {
    var t := InsertAt(s, i, x);
    assert RemoveAt(t, i) == t[..i] + t[i + 1..];
  }

  /** Updating index `i` is cutting the sequence around `i`. */
  lemma UpdateAt<T>(s: seq<T>, i: nat, x: T)
    requires i < |s|
    ensures s[i := x] == s[..i] + [x] + s[i + 1..]
  {
  }

  /** Updating index `k` leaves the slices on either side of it alone. */
  lemma UpdateSlices<T>(s: seq<T>, k: nat, x: T)
    requires k < |s|
    ensures s[k := x][..k] == s[..k] && s[k := x][k + 1..] == s[k + 1..]
  {
  }

  /** Updating indexes `k` and `k + 1`, in either order, leaves the slices around them alone. */
  lemma Update2Slices<T>(s: seq<T>, k: nat, a: T, b: T)
    requires k + 1 < |s|
    ensures s[k := a][k + 1 := b] == s[k + 1 := b][k := a]
    ensures s[k := a][k + 1 := b][..k] == s[..k] && s[k := a][k + 1 := b][k + 2..] == s[k + 2..]
  {
  }

  /** Updates of two different indexes commute. */
  lemma UpdateSwap<T>(s: seq<T>, i: nat, j: nat, a: T, b: T)
    requires i < |s| && j < |s| && i != j
    ensures s[j := b][i := a] == s[i := a][j := b]
  {
  }

  /** Replacing the two elements at `k` and `k + 1` by one element `x`. */
  lemma ReplaceTwo<T>(s: seq<T>, k: nat, x: T)
    requires k + 1 < |s|
    ensures var r := s[..k] + [x] + s[k + 2..];
      |r| == |s| - 1 && r[..k] == s[..k] && r[k] == x && r[k + 1..] == s[k + 2..]
  {
    var r := s[..k] + [x] + s[k + 2..];
    assert r[k + 1..] == s[k + 2..];
  }

  /** Removing the element at `i` and inserting `x` there is updating index `i`. */
  lemma RemoveInsertAt<T>(s: seq<T>, i: nat, x: T)
    requires i < |s|
    ensures InsertAt(RemoveAt(s, i), i, x) == s[i := x]
  {
  }

  /** Removing the element at `k + 1` and updating index `k` replaces both by one element. */
  lemma RemoveUpdate<T>(s: seq<T>, k: nat, x: T)
    requires k + 1 < |s|
    ensures RemoveAt(s, k + 1)[k := x] == s[..k] + [x] + s[k + 2..]
  {
  }
}
