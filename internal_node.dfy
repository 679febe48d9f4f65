/**
 * The flat internal-node layer of the certified B-tree
 * (src/collections/btree_map/internal_node.rs).
 *
 * An internal node is a fixed-size record in the heap: a length, CHILDREN_CAPACITY
 * child-pointer slots and CAPACITY key slots.  Every operation writes slots of that
 * record; the number of live slots is passed in by the caller and the stored length
 * is only rewritten through `WriteLen`.  The record is modelled as a class holding
 * one array per slot kind; keys are integers compared with `<`.
 */
module InternalNode {
  import opened Common

  const B: nat := 6
  const CAPACITY: nat := 2 * B - 1
  const CHILDREN_CAPACITY: nat := 2 * B
  const MIN_LEN_AFTER_SPLIT: nat := B - 1
  const CHILDREN_MIN_LEN_AFTER_SPLIT: nat := B

  /** Strictly ascending first `len` elements. */
  ghost predicate Ascending(s: seq<int>, len: nat)
    requires len <= |s|
  {
    forall i, j :: 0 <= i < j < len ==> s[i] < s[j]
  }

  /** The number of key slots `binary_search` covers: its first probe reads slot 0 even for length 0. */
  function Probed(length: nat): nat
  {
    if length == 0 then 1 else length
  }

  /** Slots after writing `x` at `idx` and shifting the live slots `[idx, len)` one to the right. */
  function ShiftIn<T>(s: seq<T>, idx: nat, len: nat, x: T): seq<T>
    requires idx <= len < |s|
  {
    s[..idx] + [x] + s[idx..len] + s[len + 1..]
  }

  /** Slots after moving the live slots `(idx, len)` one to the left; slot `len - 1` keeps its old value. */
  function ShiftOut<T>(s: seq<T>, idx: nat, len: nat): seq<T>
    requires idx < len <= |s|
  {
    s[..idx] + s[idx + 1..len] + s[len - 1..]
  }

  /** Inserting a slot and then removing it again restores every live slot. */
  lemma {:induction false} ShiftOutShiftIn<T>(s: seq<T>, idx: nat, len: nat, x: T)
    requires idx <= len < |s|
    ensures |ShiftOut(ShiftIn(s, idx, len, x), idx, len + 1)| == |s|
    ensures ShiftOut(ShiftIn(s, idx, len, x), idx, len + 1)[..len] == s[..len]
  {
    var t := ShiftIn(s, idx, len, x);
    assert t[..idx] == s[..idx];
    assert t[idx + 1..len + 1] == s[idx..len];
    var u := ShiftOut(t, idx, len + 1);
    assert u[..len] == s[..idx] + s[idx..len];
    assert s[..len] == s[..idx] + s[idx..len];
  }

  /** Copying `[idx, len)` one slot right and then writing slot `idx` is `ShiftIn`. */
  lemma ShiftInAsUpdate<T>(s: seq<T>, idx: nat, len: nat, x: T)
    requires idx < len < |s|
    ensures (s[..idx + 1] + s[idx..len] + s[len + 1..])[idx := x] == ShiftIn(s, idx, len, x)
  {
    var t := (s[..idx + 1] + s[idx..len] + s[len + 1..])[idx := x];
    var u := ShiftIn(s, idx, len, x);
    assert |t| == |u|;
    forall j | 0 <= j < |t| ensures t[j] == u[j] {
      if j < idx {
      } else if j == idx {
      } else if j <= len {
        assert t[j] == s[j - 1];
      } else {
        assert t[j] == s[j];
      }
    }
  }

  /** The live part after `ShiftIn` is the sequence insertion. */
  lemma ShiftInLive<T>(s: seq<T>, idx: nat, len: nat, x: T)
    requires idx <= len < |s|
    ensures |ShiftIn(s, idx, len, x)| == |s|
    ensures ShiftIn(s, idx, len, x)[..len + 1] == InsertAt(s[..len], idx, x)
  {
    var t := ShiftIn(s, idx, len, x);
    assert t[..len + 1] == s[..idx] + [x] + s[idx..len];
    assert s[..len][..idx] == s[..idx] && s[..len][idx..] == s[idx..len];
  }

  /** The live part after `ShiftOut` is the sequence removal. */
  lemma ShiftOutLive<T>(s: seq<T>, idx: nat, len: nat)
    requires idx < len <= |s|
    ensures |ShiftOut(s, idx, len)| == |s|
    ensures ShiftOut(s, idx, len)[..len - 1] == RemoveAt(s[..len], idx)
  {
    var t := ShiftOut(s, idx, len);
    assert t[..len - 1] == s[..idx] + s[idx + 1..len];
    assert s[..len][..idx] == s[..idx] && s[..len][idx + 1..] == s[idx + 1..len];
  }

  class InternalBTreeNode {
    /** The length field of the record (`read_len` / `write_len`). */
    var len: nat
    const keys: array<int>
    const children: array<nat>

    ghost predicate Valid()
      reads this
    {
      keys.Length == CAPACITY && children.Length == CHILDREN_CAPACITY
    }

    /** `create_empty`: a fresh record with length 0. */
    constructor CreateEmpty()
      ensures Valid() && len == 0
      ensures fresh(keys) && fresh(children)
    {
      len := 0;
      keys := new int[CAPACITY];
      children := new nat[CHILDREN_CAPACITY];
    }

    /** `create`: a fresh record with one key and the two child pointers around it. */
    constructor Create(key: int, lcp: nat, rcp: nat)
      ensures Valid() && len == 1
      ensures fresh(keys) && fresh(children)
      ensures keys[0] == key && children[0] == lcp && children[1] == rcp
    {
      len := 1;
      var ks := new int[CAPACITY];
      var cs := new nat[CHILDREN_CAPACITY];
      ks[0] := key;
      cs[0], cs[1] := lcp, rcp;
      keys, children := ks, cs;
    }

    method WriteLen(newLen: nat)
      modifies this
      ensures len == newLen
    {
      len := newLen;
    }

    /**
     * `binary_search`: over the first `length` keys, which must be strictly ascending,
     * finds `k` or the index at which it would have to be inserted.  The first probe
     * reads slot 0 even when `length` is 0, so the search always covers `Probed(length)`
     * slots: with no live key it answers from the stale slot 0.
     */
    method BinarySearch(k: int, length: nat) returns (r: SearchResult)
      requires Valid() && length <= CAPACITY
      requires Ascending(keys[..], length)
      ensures r.Ok? ==> r.idx < Probed(length) && keys[r.idx] == k
      ensures r.Err? ==> r.idx <= Probed(length)
      ensures r.Err? ==> forall i :: 0 <= i < r.idx ==> keys[i] < k
      ensures r.Err? ==> forall i :: r.idx <= i < Probed(length) ==> k < keys[i]
      ensures r.Ok? <==> k in keys[..Probed(length)]
    {
      var min, max := 0, length;
      var mid := (max - min) / 2;
      while true
        invariant 0 <= min <= mid <= max <= length
        invariant length > 0 ==> mid < max
        invariant forall i :: 0 <= i < min ==> keys[i] < k
        invariant forall i :: max <= i < length ==> k < keys[i]
        decreases max - min, if mid == min then 1 else 0
      {
        var key := keys[mid];
        if key == k {
          r := Ok(mid);
          assert keys[..Probed(length)][mid] == k;
          return;
        } else if key > k {
          max := mid;
          var newMid := (max - min) / 2 + min;
          if newMid == mid {
            r := Err(mid);
            NotIn(k, Probed(length), mid);
            return;
          }
          mid := newMid;
        } else {
          min := mid;
          var newMid := (max - min) / 2 + min;
          if newMid == mid {
            assert forall i :: 0 <= i <= mid ==> keys[i] < k by {
              forall i | 0 <= i <= mid ensures keys[i] < k {
                if i < mid { assert keys[i] < keys[mid]; }
              }
            }
            r := Err(mid + 1);
            NotIn(k, Probed(length), mid + 1);
            return;
          }
          mid := newMid;
        }
      }
    }

    /** A key smaller than everything from `idx` on and larger than everything before is absent. */
    lemma NotIn(k: int, length: nat, idx: nat)
      requires Valid() && idx <= length <= CAPACITY
      requires forall i :: 0 <= i < idx ==> keys[i] < k
      requires forall i :: idx <= i < length ==> k < keys[i]
      ensures k !in keys[..length]
    {
      forall i | 0 <= i < length
        ensures keys[..length][i] != k
      {
        if i < idx { assert keys[i] < k; } else { assert k < keys[i]; }
      }
    }

    /** `read_keys_to_buf`: copies `count` key slots starting at `from` into a scratch buffer. */
    method ReadKeysToBuf(from: nat, count: nat) returns (buf: seq<int>)
      requires Valid() && from + count <= CAPACITY
      ensures buf == keys[from..from + count]
    {
      buf := keys[from..from + count];
    }

    /** `write_keys_from_buf`: writes the buffer into the key slots starting at `from`. */
    method WriteKeysFromBuf(from: nat, buf: seq<int>)
      requires Valid() && from + |buf| <= CAPACITY
      modifies keys
      ensures keys[..] == old(keys[..from]) + buf + old(keys[from + |buf|..])
    {
      forall j | from <= j < from + |buf| {
        keys[j] := buf[j - from];
      }
      assert keys[..] == old(keys[..from]) + buf + old(keys[from + |buf|..]);
    }

    method ReadChildPtrsToBuf(from: nat, count: nat) returns (buf: seq<nat>)
      requires Valid() && from + count <= CHILDREN_CAPACITY
      ensures buf == children[from..from + count]
    {
      buf := children[from..from + count];
    }

    method WriteChildPtrsFromBuf(from: nat, buf: seq<nat>)
      requires Valid() && from + |buf| <= CHILDREN_CAPACITY
      modifies children
      ensures children[..] == old(children[..from]) + buf + old(children[from + |buf|..])
    {
      forall j | from <= j < from + |buf| {
        children[j] := buf[j - from];
      }
      assert children[..] == old(children[..from]) + buf + old(children[from + |buf|..]);
    }

    /** `push_key`: writes `key` into slot `length`. */
    method PushKey(key: int, length: nat)
      requires Valid() && length < CAPACITY
      modifies keys
      ensures keys[..] == old(keys[..])[length := key]
    {
      keys[length] := key;
    }

    /** `insert_key`: shifts the live keys `[idx, length)` one slot right and writes `key` at `idx`. */
    method InsertKey(idx: nat, key: int, length: nat)
      requires Valid() && idx <= length < CAPACITY
      modifies keys
      ensures keys[..] == ShiftIn(old(keys[..]), idx, length, key)
      ensures idx == length ==> keys[..] == old(keys[..])[length := key]
    {
      if idx == length {
        PushKey(key, length);
        assert old(keys[..])[length := key] == ShiftIn(old(keys[..]), idx, length, key);
        return;
      }
      var buf := ReadKeysToBuf(idx, length - idx);
      WriteKeysFromBuf(idx + 1, buf);
      ghost var shifted := keys[..];
      keys[idx] := key;
      assert keys[..] == shifted[idx := key];
      ShiftInAsUpdate(old(keys[..]), idx, length, key);
    }

    /** `remove_key`: shifts the live keys `(idx, length)` one slot left; nothing is cleared. */
    method RemoveKey(idx: nat, length: nat)
      requires Valid() && idx < length <= CAPACITY
      modifies keys
      ensures keys[..] == ShiftOut(old(keys[..]), idx, length)
      ensures idx == length - 1 ==> keys[..] == old(keys[..])
    {
      if idx == length - 1 {
        assert ShiftOut(keys[..], idx, length) == keys[..];
        return;
      }
      var buf := ReadKeysToBuf(idx + 1, length - idx - 1);
      WriteKeysFromBuf(idx, buf);
    }

    /** `push_child_ptr`: writes `ptr` into child slot `childrenLen`. */
    method PushChildPtr(ptr: nat, childrenLen: nat)
      requires Valid() && childrenLen < CHILDREN_CAPACITY
      modifies children
      ensures children[..] == old(children[..])[childrenLen := ptr]
    {
      children[childrenLen] := ptr;
    }

    /** `insert_child_ptr`: the child-slot version of `InsertKey`. */
    method InsertChildPtr(idx: nat, ptr: nat, childrenLen: nat)
      requires Valid() && idx <= childrenLen < CHILDREN_CAPACITY
      modifies children
      ensures children[..] == ShiftIn(old(children[..]), idx, childrenLen, ptr)
      ensures idx == childrenLen ==> children[..] == old(children[..])[childrenLen := ptr]
    {
      if idx == childrenLen {
        PushChildPtr(ptr, childrenLen);
        assert old(children[..])[childrenLen := ptr] == ShiftIn(old(children[..]), idx, childrenLen, ptr);
        return;
      }
      var buf := ReadChildPtrsToBuf(idx, childrenLen - idx);
      WriteChildPtrsFromBuf(idx + 1, buf);
      ghost var shifted := children[..];
      children[idx] := ptr;
      assert children[..] == shifted[idx := ptr];
      ShiftInAsUpdate(old(children[..]), idx, childrenLen, ptr);
    }

    /** `remove_child_ptr`: the child-slot version of `RemoveKey`. */
    method RemoveChildPtr(idx: nat, childrenLen: nat)
      requires Valid() && idx < childrenLen <= CHILDREN_CAPACITY
      modifies children
      ensures children[..] == ShiftOut(old(children[..]), idx, childrenLen)
      ensures idx == childrenLen - 1 ==> children[..] == old(children[..])
    {
      if idx == childrenLen - 1 {
        assert ShiftOut(children[..], idx, childrenLen) == children[..];
        return;
      }
      var buf := ReadChildPtrsToBuf(idx + 1, childrenLen - idx - 1);
      WriteChildPtrsFromBuf(idx, buf);
    }

    /** `read_left_sibling`: the child pointer left of child `idx`, none for the first child. */
    function ReadLeftSibling(idx: nat): (r: Option<nat>)
      requires Valid() && idx < CHILDREN_CAPACITY
      reads this, children
      ensures r.None? <==> idx == 0
      ensures r.Some? ==> r.value == children[idx - 1]
    {
      if idx == 0 then None else Some(children[idx - 1])
    }

    /** `read_right_sibling`: the child pointer right of child `idx`, none for the last child `length`. */
    function ReadRightSibling(idx: nat, length: nat): (r: Option<nat>)
      requires Valid() && idx <= length < CHILDREN_CAPACITY
      reads this, children
      ensures r.None? <==> idx == length
      ensures r.Some? ==> r.value == children[idx + 1]
    {
      if idx == length then None else Some(children[idx + 1])
    }

    /**
     * `steal_from_left`: this node takes the parent's separator `parentIdx` as its new first
     * key; the separator is replaced by the left sibling's last key (or by the key supplied
     * in `leftInsertLast`), and the left sibling's last child (or the supplied pointer)
     * becomes this node's first child.  The sibling's slots are not written: the caller
     * shortens it through its length.
     */
    method StealFromLeft(selfLen: nat, left: InternalBTreeNode, leftLen: nat,
                         parent: InternalBTreeNode, parentIdx: nat,
                         leftInsertLast: Option<(int, nat)>)
      requires Valid() && left.Valid() && parent.Valid()
      requires keys != parent.keys && keys != left.keys && left.keys != parent.keys
      requires children != left.children
      requires selfLen + 1 < CHILDREN_CAPACITY && parentIdx < CAPACITY
      requires leftInsertLast.None? ==> 1 <= leftLen <= CAPACITY
      modifies keys, children, parent.keys
      ensures keys[..] == ShiftIn(old(keys[..]), 0, selfLen, old(parent.keys[parentIdx]))
      ensures children[..] == ShiftIn(old(children[..]), 0, selfLen + 1,
        if leftInsertLast.Some? then leftInsertLast.value.1 else old(left.children[leftLen]))
      ensures parent.keys[..] == old(parent.keys[..])[parentIdx :=
        if leftInsertLast.Some? then leftInsertLast.value.0 else old(left.keys[leftLen - 1])]
      ensures left.keys[..] == old(left.keys[..]) && left.children[..] == old(left.children[..])
    {
      var pk := parent.keys[parentIdx];
      if leftInsertLast.Some? {
        var (k, c) := leftInsertLast.value;
        parent.keys[parentIdx] := k;
        InsertChildPtr(0, c, selfLen + 1);
      } else {
        var lsk := left.keys[leftLen - 1];
        parent.keys[parentIdx] := lsk;
        var lsc := left.children[leftLen];
        InsertChildPtr(0, lsc, selfLen + 1);
      }
      InsertKey(0, pk, selfLen);
    }

    /**
     * `steal_from_right`: this node appends the parent's separator `parentIdx` and the right
     * sibling's first child; the separator becomes the sibling's first key and the sibling's
     * keys and children move one slot left.  When `rightInsertFirst` supplies a key and a
     * pointer, the sibling keeps its keys, its first child slot takes the supplied pointer
     * and the separator becomes the supplied key.
     */
    method StealFromRight(selfLen: nat, right: InternalBTreeNode, rightLen: nat,
                          parent: InternalBTreeNode, parentIdx: nat,
                          rightInsertFirst: Option<(int, nat)>)
      requires Valid() && right.Valid() && parent.Valid()
      requires keys != parent.keys && keys != right.keys && right.keys != parent.keys
      requires children != right.children
      requires selfLen + 1 < CHILDREN_CAPACITY && parentIdx < CAPACITY
      requires rightInsertFirst.None? ==> 1 <= rightLen <= CAPACITY
      modifies keys, children, parent.keys, right.keys, right.children
      ensures keys[..] == old(keys[..])[selfLen := old(parent.keys[parentIdx])]
      ensures children[..] == old(children[..])[selfLen + 1 := old(right.children[0])]
      ensures rightInsertFirst.None? ==>
        && parent.keys[..] == old(parent.keys[..])[parentIdx := old(right.keys[0])]
        && right.keys[..] == ShiftOut(old(right.keys[..]), 0, rightLen)
        && right.children[..] == ShiftOut(old(right.children[..]), 0, rightLen + 1)
      ensures rightInsertFirst.Some? ==>
        && parent.keys[..] == old(parent.keys[..])[parentIdx := rightInsertFirst.value.0]
        && right.keys[..] == old(right.keys[..])
        && right.children[..] == old(right.children[..])[0 := rightInsertFirst.value.1]
    {
      var pk := parent.keys[parentIdx];
      var rsc;
      if rightInsertFirst.Some? {
        var (k, c) := rightInsertFirst.value;
        rsc := right.children[0];
        right.children[0] := c;
        parent.keys[parentIdx] := k;
      } else {
        var rsk := right.keys[0];
        right.RemoveKey(0, rightLen);
        rsc := right.children[0];
        right.RemoveChildPtr(0, rightLen + 1);
        parent.keys[parentIdx] := rsk;
      }
      PushKey(pk, selfLen);
      PushChildPtr(rsc, selfLen + 1);
    }

    /**
     * `split_max_len`: a fresh right node receives keys `[B, B + MIN_LEN_AFTER_SPLIT)` and
     * children `[B, B + CHILDREN_MIN_LEN_AFTER_SPLIT)`; the median key `MIN_LEN_AFTER_SPLIT`
     * is returned.  This node's slots are not written and both lengths are left to the caller.
     */
    method SplitMaxLen() returns (right: InternalBTreeNode, mid: int)
      requires Valid()
      ensures fresh(right) && fresh(right.keys) && fresh(right.children)
      ensures right.Valid() && right.len == 0
      ensures right.keys[..MIN_LEN_AFTER_SPLIT] == keys[B..B + MIN_LEN_AFTER_SPLIT]
      ensures right.children[..CHILDREN_MIN_LEN_AFTER_SPLIT] == children[B..B + CHILDREN_MIN_LEN_AFTER_SPLIT]
      ensures mid == keys[MIN_LEN_AFTER_SPLIT]
    {
      right := new InternalBTreeNode.CreateEmpty();
      var buf := ReadKeysToBuf(B, MIN_LEN_AFTER_SPLIT);
      right.WriteKeysFromBuf(0, buf);
      var cbuf := ReadChildPtrsToBuf(B, CHILDREN_MIN_LEN_AFTER_SPLIT);
      right.WriteChildPtrsFromBuf(0, cbuf);
      mid := keys[MIN_LEN_AFTER_SPLIT];
    }

    /**
     * `merge_min_len`: this node (holding MIN_LEN_AFTER_SPLIT keys) takes `mid` as key
     * `MIN_LEN_AFTER_SPLIT` and then the right node's keys and children, becoming a full
     * node.  Releasing `right` to the allocator is not modelled.
     */
    method MergeMinLen(mid: int, right: InternalBTreeNode)
      requires Valid() && right.Valid()
      requires keys != right.keys && children != right.children
      modifies keys, children
      ensures keys[..] == old(keys[..MIN_LEN_AFTER_SPLIT]) + [mid] + old(right.keys[..MIN_LEN_AFTER_SPLIT])
      ensures children[..] == old(children[..CHILDREN_MIN_LEN_AFTER_SPLIT]) + old(right.children[..CHILDREN_MIN_LEN_AFTER_SPLIT])
    {
      PushKey(mid, MIN_LEN_AFTER_SPLIT);
      var buf := right.ReadKeysToBuf(0, MIN_LEN_AFTER_SPLIT);
      WriteKeysFromBuf(B, buf);
      var cbuf := right.ReadChildPtrsToBuf(0, CHILDREN_MIN_LEN_AFTER_SPLIT);
      WriteChildPtrsFromBuf(B, cbuf);
    }
  }

  /**
   * The split/merge round trip of the node test: splitting a full node and merging the
   * two halves back with the returned median restores every key and child slot.
   */
  method SplitMergeRoundTrip(node: InternalBTreeNode)
    requires node.Valid()
    modifies node, node.keys, node.children
    ensures node.keys[..] == old(node.keys[..]) && node.children[..] == old(node.children[..])
    ensures node.len == CAPACITY
  {
    var right, mid := node.SplitMaxLen();
    node.WriteLen(MIN_LEN_AFTER_SPLIT);
    right.WriteLen(MIN_LEN_AFTER_SPLIT);
    node.MergeMinLen(mid, right);
    node.WriteLen(CAPACITY);
    assert node.keys[..] == old(node.keys[..]);
    assert node.children[..] == old(node.children[..]);
  }
}
