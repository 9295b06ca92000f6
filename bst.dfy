/**
 * The unbalanced binary search tree of `bst.c`.
 *
 * A tree is a value of `BinTree`: `Nil` is the null pointer and
 * `Node(left, data, right)` a node with its payload.  The header (`TREE`) is
 * the class `Tree`, holding the root, the node count and the comparator the
 * tree was created with.  The recursive helpers `_search`, `_insert`,
 * `_delete` and `_destroy` take a subtree and give back the subtree that
 * replaces it, which is how the C code uses their results.
 *
 * The search-tree invariant is that the in-order sequence of payloads is
 * strictly ascending under the comparator (`IsBst`); `Ordered` states the
 * same property node by node and `OrderedIffBst` shows the two agree.  Every
 * operation is specified by the sequence function of `Order` it performs
 * on the in-order sequence: `Find` for a search, `InsertSorted` for an
 * insertion, `Remove` for a deletion.
 *
 * Two places of the code do not do what the tree promises.  `_delete` of a
 * node with two children deletes the successor from the wrong subtree
 * (`DeleteAtAsWritten`, shown by `TwoChildDeleteScenario`), and `_insert`
 * hands the duplicate callback the new payload instead of the stored one
 * (`Tree.InsertAsWritten`, shown by `DuplicateScenario`).  The members
 * without a suffix are the corrected behaviour.
 */
module Bst {
  import opened Order
  import opened Wrappers

  /** A subtree: the null pointer or a node with its two children. */
  datatype BinTree<T> = Nil | Node(left: BinTree<T>, data: T, right: BinTree<T>)

  /** The payloads in in-order: left subtree, node, right subtree. */
  function InOrder<T>(t: BinTree<T>): (s: seq<T>)
    ensures t.Nil? <==> s == []
    decreases t
  {
    match t
    case Nil => []
    case Node(l, d, r) => InOrder(l) + [d] + InOrder(r)
  }

  /**
   * The payloads in post-order: left subtree, right subtree, node.  It holds
   * every payload of the tree exactly as often as the in-order sequence does.
   */
  function PostOrder<T>(t: BinTree<T>): (s: seq<T>)
    ensures |s| == |InOrder(t)|
    ensures multiset(s) == multiset(InOrder(t))
    decreases t
  {
    match t
    case Nil => []
    case Node(l, d, r) => PostOrder(l) + PostOrder(r) + [d]
  }

  /** The search-tree invariant: the in-order payloads ascend strictly. */
  ghost predicate IsBst<T>(cmp: (T, T) -> int, t: BinTree<T>) {
    StrictlyAscending(cmp, InOrder(t))
  }

  /** Every element of `s` compares below `x`. */
  ghost predicate Below<T>(cmp: (T, T) -> int, s: seq<T>, x: T) {
    forall k :: 0 <= k < |s| ==> cmp(s[k], x) < 0
  }

  /** `x` compares below every element of `s`. */
  ghost predicate Above<T>(cmp: (T, T) -> int, s: seq<T>, x: T) {
    forall k :: 0 <= k < |s| ==> cmp(x, s[k]) < 0
  }

  /**
   * The search-tree property node by node: at every node the left subtree's
   * payloads compare below the node's payload and the right subtree's above.
   */
  ghost predicate Ordered<T>(cmp: (T, T) -> int, t: BinTree<T>)
    decreases t
  {
    match t
    case Nil => true
    case Node(l, d, r) =>
      Ordered(cmp, l) && Ordered(cmp, r) && Below(cmp, InOrder(l), d) && Above(cmp, InOrder(r), d)
  }

  /** A search tree splits at its root into two search trees, one below and one above the root. */
  lemma BstParts<T>(cmp: (T, T) -> int, t: BinTree<T>)
    requires t.Node? && IsBst(cmp, t)
    ensures IsBst(cmp, t.left) && IsBst(cmp, t.right)
    ensures Below(cmp, InOrder(t.left), t.data) && Above(cmp, InOrder(t.right), t.data)
  {
    var L, R, s := InOrder(t.left), InOrder(t.right), InOrder(t);
    assert s == L + [t.data] + R;
    forall i, j | 0 <= i < j < |L| ensures cmp(L[i], L[j]) < 0 {
      assert s[i] == L[i] && s[j] == L[j];
    }
    forall i, j | 0 <= i < j < |R| ensures cmp(R[i], R[j]) < 0 {
      assert s[|L| + 1 + i] == R[i] && s[|L| + 1 + j] == R[j];
    }
    forall i | 0 <= i < |L| ensures cmp(L[i], t.data) < 0 {
      assert s[i] == L[i] && s[|L|] == t.data;
    }
    forall j | 0 <= j < |R| ensures cmp(t.data, R[j]) < 0 {
      assert s[|L|] == t.data && s[|L| + 1 + j] == R[j];
    }
  }

  /** Two search trees, one below and one above a payload, join under it into a search tree. */
  lemma BstJoin<T(!new)>(cmp: (T, T) -> int, t: BinTree<T>)
    requires IsComparator(cmp) && t.Node?
    requires IsBst(cmp, t.left) && IsBst(cmp, t.right)
    requires Below(cmp, InOrder(t.left), t.data) && Above(cmp, InOrder(t.right), t.data)
    ensures IsBst(cmp, t)
  {
    var L, R, s := InOrder(t.left), InOrder(t.right), InOrder(t);
    assert s == L + [t.data] + R;
    forall i, j | 0 <= i < j < |s| ensures cmp(s[i], s[j]) < 0 {
      if j < |L| {
        assert s[i] == L[i] && s[j] == L[j];
      } else if i < |L| && j == |L| {
        assert s[i] == L[i];
      } else if i < |L| {
        assert s[i] == L[i] && s[j] == R[j - |L| - 1];
        StrictTrans(cmp, s[i], t.data, s[j]);
      } else if i == |L| {
        assert s[j] == R[j - |L| - 1];
      } else {
        assert s[i] == R[i - |L| - 1] && s[j] == R[j - |L| - 1];
      }
    }
  }

  /** The node-by-node property and the ascending in-order sequence are the same invariant. */
  lemma {:induction false} OrderedIffBst<T(!new)>(cmp: (T, T) -> int, t: BinTree<T>)
    requires IsComparator(cmp)
    ensures Ordered(cmp, t) <==> IsBst(cmp, t)
    decreases t
  {
    if t.Node? {
      OrderedIffBst(cmp, t.left);
      OrderedIffBst(cmp, t.right);
      if IsBst(cmp, t) {
        BstParts(cmp, t);
      }
      if Ordered(cmp, t) {
        BstJoin(cmp, t);
      }
    }
  }

  /** A key below the root lies below the root and everything right of it. */
  lemma KeyBelowRoot<T(!new)>(cmp: (T, T) -> int, t: BinTree<T>, key: T)
    requires IsComparator(cmp) && t.Node? && IsBst(cmp, t) && cmp(key, t.data) < 0
    ensures cmp(t.data, key) > 0
    ensures forall k :: 0 <= k < |InOrder(t.right)| ==> cmp(InOrder(t.right)[k], key) > 0
  {
    BstParts(cmp, t);
    var R := InOrder(t.right);
    forall k | 0 <= k < |R| ensures cmp(R[k], key) > 0 {
      StrictTrans(cmp, key, t.data, R[k]);
    }
  }

  /** A key above the root lies above the root and everything left of it. */
  lemma KeyAboveRoot<T(!new)>(cmp: (T, T) -> int, t: BinTree<T>, key: T)
    requires IsComparator(cmp) && t.Node? && IsBst(cmp, t) && cmp(key, t.data) > 0
    ensures cmp(t.data, key) < 0 && Below(cmp, InOrder(t.left), key)
  {
    BstParts(cmp, t);
    var L := InOrder(t.left);
    forall k | 0 <= k < |L| ensures cmp(L[k], key) < 0 {
      StrictTrans(cmp, L[k], t.data, key);
    }
  }

  /** A key equal to the root lies above the left subtree and below the right one. */
  lemma KeyAtRoot<T(!new)>(cmp: (T, T) -> int, t: BinTree<T>, key: T)
    requires IsComparator(cmp) && t.Node? && IsBst(cmp, t) && cmp(key, t.data) == 0
    ensures Below(cmp, InOrder(t.left), key) && Above(cmp, InOrder(t.right), key)
    ensures cmp(t.data, key) == 0
  {
    BstParts(cmp, t);
    ZeroSymmetric(cmp, key, t.data);
    var L, R := InOrder(t.left), InOrder(t.right);
    forall k | 0 <= k < |L| ensures cmp(L[k], key) < 0 {
      StrictTrans(cmp, L[k], t.data, key);
    }
    forall k | 0 <= k < |R| ensures cmp(key, R[k]) < 0 {
      StrictTrans(cmp, key, t.data, R[k]);
    }
  }

  /** Nothing in a sequence entirely below `key` matches it. */
  lemma BelowNoMatch<T>(cmp: (T, T) -> int, s: seq<T>, key: T)
    requires Below(cmp, s, key)
    ensures Find(cmp, s, key) == None && Remove(cmp, s, key) == s
  {
    FindSpec(cmp, s, key);
    RemoveNoMatch(cmp, s, key);
  }

  /**
   * A key below the root: lookup, insertion and removal on the whole
   * in-order sequence happen within the left subtree's part of it.
   */
  lemma LeftSide<T>(cmp: (T, T) -> int, t: BinTree<T>, key: T)
    requires t.Node? && cmp(t.data, key) > 0
    requires forall k :: 0 <= k < |InOrder(t.right)| ==> cmp(InOrder(t.right)[k], key) > 0
    ensures Find(cmp, InOrder(t), key) == Find(cmp, InOrder(t.left), key)
    ensures InsertSorted(cmp, InOrder(t), key) == InsertSorted(cmp, InOrder(t.left), key) + [t.data] + InOrder(t.right)
    ensures Remove(cmp, InOrder(t), key) == Remove(cmp, InOrder(t.left), key) + [t.data] + InOrder(t.right)
  {
    var L, R := InOrder(t.left), InOrder(t.right);
    var B := [t.data] + R;
    assert InOrder(t) == L + B;
    assert forall k :: 0 <= k < |B| ==> cmp(B[k], key) > 0 by {
      forall k | 0 <= k < |B| ensures cmp(B[k], key) > 0 {
        if k > 0 {
          assert B[k] == R[k - 1];
        }
      }
    }
    LeftSeq(cmp, L, B, key);
    Regroup(InsertSorted(cmp, L, key), t.data, R);
    Regroup(Remove(cmp, L, key), t.data, R);
  }

  /** Concatenation around a single element regroups freely. */
  lemma Regroup<T>(a: seq<T>, d: T, b: seq<T>)
    ensures a + [d] + b == a + ([d] + b)
  {
  }

  /** Lookup, insertion and removal in `a + b`, when all of `b` lies above the key, stay within `a`. */
  lemma LeftSeq<T>(cmp: (T, T) -> int, a: seq<T>, b: seq<T>, key: T)
    requires forall k :: 0 <= k < |b| ==> cmp(b[k], key) > 0
    ensures Find(cmp, a + b, key) == Find(cmp, a, key)
    ensures InsertSorted(cmp, a + b, key) == InsertSorted(cmp, a, key) + b
    ensures Remove(cmp, a + b, key) == Remove(cmp, a, key) + b
  {
    FindSpec(cmp, b, key);
    RemoveNoMatch(cmp, b, key);
    FindConcat(cmp, a, b, key);
    RemoveConcat(cmp, a, b, key);
    if Find(cmp, a, key).None? {
      FindSpec(cmp, a, key);
      RemoveNoMatch(cmp, a, key);
    }
    InsertSortedBefore(cmp, a, b, key);
  }

  /**
   * A key above the root: lookup, insertion and removal on the whole
   * in-order sequence happen within the right subtree's part of it.
   */
  lemma RightSide<T>(cmp: (T, T) -> int, t: BinTree<T>, key: T)
    requires t.Node? && cmp(t.data, key) < 0 && Below(cmp, InOrder(t.left), key)
    ensures Find(cmp, InOrder(t), key) == Find(cmp, InOrder(t.right), key)
    ensures InsertSorted(cmp, InOrder(t), key) == InOrder(t.left) + [t.data] + InsertSorted(cmp, InOrder(t.right), key)
    ensures Remove(cmp, InOrder(t), key) == InOrder(t.left) + [t.data] + Remove(cmp, InOrder(t.right), key)
  {
    var A, R := InOrder(t.left) + [t.data], InOrder(t.right);
    assert InOrder(t) == A + R;
    assert Below(cmp, A, key) by {
      forall k | 0 <= k < |A| ensures cmp(A[k], key) < 0 {
        if k < |A| - 1 {
          assert A[k] == InOrder(t.left)[k];
        }
      }
    }
    RightSeq(cmp, A, R, key);
  }

  /** Lookup, insertion and removal in `a + b`, when all of `a` lies below the key, stay within `b`. */
  lemma RightSeq<T>(cmp: (T, T) -> int, a: seq<T>, b: seq<T>, key: T)
    requires Below(cmp, a, key)
    ensures Find(cmp, a + b, key) == Find(cmp, b, key)
    ensures InsertSorted(cmp, a + b, key) == a + InsertSorted(cmp, b, key)
    ensures Remove(cmp, a + b, key) == a + Remove(cmp, b, key)
  {
    FindSpec(cmp, a, key);
    FindConcat(cmp, a, b, key);
    RemoveConcat(cmp, a, b, key);
    InsertSortedAfter(cmp, a, b, key);
  }

  /** A key equal to the root: the root's payload is the match, and removing it joins the subtrees. */
  lemma AtRoot<T>(cmp: (T, T) -> int, t: BinTree<T>, key: T)
    requires t.Node? && cmp(t.data, key) == 0 && Below(cmp, InOrder(t.left), key)
    ensures Find(cmp, InOrder(t), key) == Some(t.data)
    ensures Remove(cmp, InOrder(t), key) == InOrder(t.left) + InOrder(t.right)
  {
    var L, R := InOrder(t.left), InOrder(t.right);
    assert InOrder(t) == L + ([t.data] + R);
    RootSeq(cmp, L, t.data, R, key);
  }

  /** In `a + [d] + b`, when all of `a` lies below the key and `d` matches it, `d` is the match. */
  lemma RootSeq<T>(cmp: (T, T) -> int, a: seq<T>, d: T, b: seq<T>, key: T)
    requires Below(cmp, a, key) && cmp(d, key) == 0
    ensures Find(cmp, a + ([d] + b), key) == Some(d)
    ensures Remove(cmp, a + ([d] + b), key) == a + b
  {
    FindSpec(cmp, a, key);
    FindConcat(cmp, a, [d] + b, key);
    RemoveConcat(cmp, a, [d] + b, key);
    assert ([d] + b)[1..] == b;
  }

  /**
   * `_search`: descends left while the key compares below the node's payload
   * and right while it compares above, and yields the subtree whose root
   * matches, or `Nil` when it falls off the tree.
   */
  function SearchAt<T>(cmp: (T, T) -> int, t: BinTree<T>, key: T): (r: BinTree<T>)
    ensures r.Node? ==> cmp(key, r.data) == 0
    decreases t
  {
    if t.Nil? then Nil
    else
      var c := cmp(key, t.data);
      if c == 0 then t
      else if c < 0 then SearchAt(cmp, t.left, key)
      else SearchAt(cmp, t.right, key)
  }

  /** In a search tree, `_search` finds exactly the payload a lookup in the in-order sequence finds. */
  lemma {:induction false} SearchAtFinds<T(!new)>(cmp: (T, T) -> int, t: BinTree<T>, key: T)
    requires IsComparator(cmp) && IsBst(cmp, t)
    ensures var r := SearchAt(cmp, t, key);
      Find(cmp, InOrder(t), key) == if r.Nil? then None else Some(r.data)
    decreases t
  {
    if t.Node? {
      BstParts(cmp, t);
      var c := cmp(key, t.data);
      if c < 0 {
        KeyBelowRoot(cmp, t, key);
        LeftSide(cmp, t, key);
        SearchAtFinds(cmp, t.left, key);
      } else if c > 0 {
        KeyAboveRoot(cmp, t, key);
        RightSide(cmp, t, key);
        SearchAtFinds(cmp, t.right, key);
      } else {
        KeyAtRoot(cmp, t, key);
        AtRoot(cmp, t, key);
      }
    }
  }

  /** `_makeNode`: a one-node tree holding `x`, or nothing when allocation fails. */
  function MakeNode<T>(x: T, allocFails: bool): (r: Option<BinTree<T>>)
    ensures r.Some? <==> !allocFails
    ensures r.Some? ==> r.value.Node? && r.value.left.Nil? && r.value.right.Nil? && InOrder(r.value) == [x]
  {
    if allocFails then None else Some(Node(Nil, x, Nil))
  }

  /**
   * `_insert`: compares the new node's payload with each node's payload,
   * descends left on less and right on greater, and attaches the new node at
   * the first empty child (result 1).  On a payload that compares equal it
   * attaches nothing (result 2) and yields in `existing` the payload it met;
   * which payload the duplicate callback then receives is decided by the
   * caller (`Tree.Insert`, `Tree.InsertAsWritten`).
   */
  method InsertAt<T(!new)>(cmp: (T, T) -> int, root: BinTree<T>, newNode: BinTree<T>)
    returns (r: int, t: BinTree<T>, existing: Option<T>)
    requires IsComparator(cmp) && IsBst(cmp, root) && root.Node?
    requires newNode.Node? && newNode.left.Nil? && newNode.right.Nil?
    ensures Find(cmp, InOrder(root), newNode.data).None? ==>
      r == 1 && existing == None && InOrder(t) == InsertSorted(cmp, InOrder(root), newNode.data)
    ensures Find(cmp, InOrder(root), newNode.data).Some? ==>
      r == 2 && t == root && existing == Find(cmp, InOrder(root), newNode.data)
    decreases root
  {
    var x := newNode.data;
    BstParts(cmp, root);
    var c := cmp(x, root.data);
    if c < 0 {
      KeyBelowRoot(cmp, root, x);
      LeftSide(cmp, root, x);
      if root.left.Nil? {
        r, t, existing := 1, Node(newNode, root.data, root.right), None;
      } else {
        var l1;
        r, l1, existing := InsertAt(cmp, root.left, newNode);
        t := Node(l1, root.data, root.right);
      }
    } else if c > 0 {
      KeyAboveRoot(cmp, root, x);
      RightSide(cmp, root, x);
      if root.right.Nil? {
        r, t, existing := 1, Node(root.left, root.data, newNode), None;
      } else {
        var r1;
        r, r1, existing := InsertAt(cmp, root.right, newNode);
        t := Node(root.left, root.data, r1);
      }
    } else {
      KeyAtRoot(cmp, root, x);
      AtRoot(cmp, root, x);
      r, t, existing := 2, root, Some(root.data);
    }
  }

  /**
   * The `minright` loop of `_delete`: follows left children from the root of
   * a non-empty subtree down to the node holding its first in-order payload.
   */
  method MinNode<T>(t: BinTree<T>) returns (m: BinTree<T>)
    requires t.Node?
    ensures m.Node? && m.left.Nil? && m.data == InOrder(t)[0]
  {
    m := t;
    while m.left.Node?
      invariant m.Node? && InOrder(m)[0] == InOrder(t)[0]
      decreases m
    {
      assert InOrder(m) == InOrder(m.left) + ([m.data] + InOrder(m.right));
      m := m.left;
    }
    assert InOrder(m) == [m.data] + InOrder(m.right);
  }

  /**
   * `_delete` with its two-children case corrected: the successor (the first
   * payload of the right subtree) replaces the node's payload and is deleted
   * from the right subtree, and the payload reported is the deleted node's.
   */
  method DeleteAt<T(!new)>(cmp: (T, T) -> int, root: BinTree<T>, key: T)
    returns (t: BinTree<T>, dataOut: Option<T>)
    requires IsComparator(cmp) && IsBst(cmp, root)
    ensures dataOut == Find(cmp, InOrder(root), key)
    ensures InOrder(t) == Remove(cmp, InOrder(root), key)
    ensures IsBst(cmp, t)
    decreases root
  {
    if root.Nil? {
      return Nil, None;
    }
    BstParts(cmp, root);
    var c := cmp(key, root.data);
    if c < 0 {
      KeyBelowRoot(cmp, root, key);
      LeftSide(cmp, root, key);
      var l1, o := DeleteAt(cmp, root.left, key);
      t, dataOut := Node(l1, root.data, root.right), o;
    } else if c > 0 {
      KeyAboveRoot(cmp, root, key);
      RightSide(cmp, root, key);
      var r1, o := DeleteAt(cmp, root.right, key);
      t, dataOut := Node(root.left, root.data, r1), o;
    } else {
      KeyAtRoot(cmp, root, key);
      AtRoot(cmp, root, key);
      dataOut := Some(root.data);
      if root.left.Nil? && root.right.Nil? {
        t := Nil;
      } else if root.right.Nil? {
        t := root.left;
        assert InOrder(root.left) + [] == InOrder(root.left);
      } else if root.left.Nil? {
        t := root.right;
        assert [] + InOrder(root.right) == InOrder(root.right);
      } else {
        var minright := MinNode(root.right);
        var r1, _ := DeleteAt(cmp, root.right, minright.data);
        t := Node(root.left, minright.data, r1);
        SuccessorReplaces(cmp, InOrder(root.left), InOrder(root.right), InOrder(r1));
      }
    }
    RemoveSortedKeepsAscending(cmp, InOrder(root), key);
  }

  /**
   * Putting the first element of `r` between `l` and what is left of `r`
   * once that element is removed gives back `l + r`.
   */
  lemma SuccessorReplaces<T(!new)>(cmp: (T, T) -> int, l: seq<T>, r: seq<T>, rest: seq<T>)
    requires IsComparator(cmp) && r != [] && rest == Remove(cmp, r, r[0])
    ensures l + [r[0]] + rest == l + r
  {
    assert rest == r[1..];
    assert r == [r[0]] + r[1..];
  }

  /**
   * `_delete` as written.  In the two-children case the successor replaces
   * the node's payload, but line 191 deletes it from the LEFT subtree and
   * stores the result as the right child: the left subtree ends up on both
   * sides and the old right subtree is lost.  A key that is absent leaves
   * the tree as it was.
   */
  method DeleteAtAsWritten<T(!new)>(cmp: (T, T) -> int, root: BinTree<T>, key: T)
    returns (t: BinTree<T>, dataOut: Option<T>)
    requires IsComparator(cmp)
    ensures Find(cmp, InOrder(root), key).None? ==> t == root && dataOut == None
    ensures IsBst(cmp, root) && root.Node? && cmp(key, root.data) == 0 && root.left.Node? && root.right.Node? ==>
      t == Node(root.left, InOrder(root.right)[0], root.left) && dataOut == Some(root.data)
    decreases root
  {
    if root.Nil? {
      return Nil, None;
    }
    ghost var L, R := InOrder(root.left), InOrder(root.right);
    var c := cmp(key, root.data);
    if c < 0 {
      var l1, o := DeleteAtAsWritten(cmp, root.left, key);
      t, dataOut := Node(l1, root.data, root.right), o;
      assert InOrder(root) == L + ([root.data] + R);
      FindConcat(cmp, L, [root.data] + R, key);
    } else if c > 0 {
      var r1, o := DeleteAtAsWritten(cmp, root.right, key);
      t, dataOut := Node(root.left, root.data, r1), o;
      assert InOrder(root) == (L + [root.data]) + R;
      FindConcat(cmp, L + [root.data], R, key);
    } else {
      dataOut := Some(root.data);
      assert InOrder(root) == L + ([root.data] + R);
      FindConcat(cmp, L, [root.data] + R, key);
      ZeroSymmetric(cmp, key, root.data);
      if root.left.Nil? && root.right.Nil? {
        t := Nil;
      } else if root.right.Nil? {
        t := root.left;
      } else if root.left.Nil? {
        t := root.right;
      } else {
        var minright := MinNode(root.right);
        if IsBst(cmp, root) {
          SuccessorAboveLeft(cmp, root);
          BelowNoMatch(cmp, L, minright.data);
        }
        var l2, o2 := DeleteAtAsWritten(cmp, root.left, minright.data);
        t := Node(root.left, minright.data, l2);
        if o2.Some? {
          dataOut := o2;
        }
      }
    }
  }

  /** In a search tree the successor of the root lies above the whole left subtree. */
  lemma SuccessorAboveLeft<T(!new)>(cmp: (T, T) -> int, t: BinTree<T>)
    requires IsComparator(cmp) && t.Node? && t.right.Node? && IsBst(cmp, t)
    ensures Below(cmp, InOrder(t.left), InOrder(t.right)[0])
  {
    BstParts(cmp, t);
    var L, s := InOrder(t.left), InOrder(t.right)[0];
    forall k | 0 <= k < |L| ensures cmp(L[k], s) < 0 {
      StrictTrans(cmp, L[k], t.data, s);
    }
  }

  /**
   * `_destroy`: releases the left subtree, then the right subtree, then the
   * node itself, handing each payload to the callback as it goes.  The
   * payloads released are every payload of the tree, each exactly once.
   */
  method DestroyAt<T>(t: BinTree<T>) returns (released: seq<T>)
    ensures released == PostOrder(t)
    ensures multiset(released) == multiset(InOrder(t))
    decreases t
  {
    if t.Nil? {
      return [];
    }
    var l := DestroyAt(t.left);
    var r := DestroyAt(t.right);
    released := l + r + [t.data];
  }

  /** The tree header (`TREE`): root, node count and the comparator. */
  class Tree<T(!new)> {
    var count: int
    var root: BinTree<T>
    const compare: (T, T) -> int

    /** The tree invariant: a search tree under `compare` whose node count is `count`. */
    ghost predicate Valid()
      reads this
    {
      IsComparator(compare) && IsBst(compare, root) && count == |InOrder(root)|
    }

    /** An empty tree ordered by `compare`. */
    constructor (compare: (T, T) -> int)
      requires IsComparator(compare)
      ensures Valid() && root == Nil && count == 0 && this.compare == compare
    {
      count := 0;
      root := Nil;
      this.compare := compare;
    }

    /**
     * `BST_Insert`: 0 when the node cannot be allocated (nothing changes),
     * 1 when the payload is added, 2 when a payload comparing equal is
     * already present (nothing changes, and `dup` is the payload the
     * duplicate callback receives: the stored one).
     */
    method Insert(dataIn: T, allocFails: bool) returns (r: int, dup: Option<T>)
      requires Valid()
      modifies this
      ensures Valid()
      ensures allocFails ==> r == 0 && dup == None && root == old(root) && count == old(count)
      ensures !allocFails && old(root).Nil? ==> root == Node(Nil, dataIn, Nil)
      ensures !allocFails && Find(compare, old(InOrder(root)), dataIn).None? ==>
        r == 1 && dup == None && count == old(count) + 1 &&
        InOrder(root) == InsertSorted(compare, old(InOrder(root)), dataIn)
      ensures !allocFails && Find(compare, old(InOrder(root)), dataIn).Some? ==>
        r == 2 && dup == Find(compare, old(InOrder(root)), dataIn) && root == old(root) && count == old(count)
    {
      var newNode := MakeNode(dataIn, allocFails);
      if newNode.None? {
        return 0, None;
      }
      if root.Nil? {
        root := newNode.value;
        count := count + 1;
        return 1, None;
      }
      var result, t, existing := InsertAt(compare, root, newNode.value);
      if result == 1 {
        InsertSortedKeepsAscending(compare, InOrder(root), dataIn);
        root := t;
        count := count + 1;
        return 1, None;
      }
      return 2, existing;
    }

    /**
     * `BST_Insert` as written: on a duplicate `_insert` hands the callback
     * the payload of the node it was about to insert, not the payload
     * already in the tree.
     */
    method InsertAsWritten(dataIn: T, allocFails: bool) returns (r: int, dup: Option<T>)
      requires Valid()
      modifies this
      ensures Valid()
      ensures allocFails ==> r == 0 && dup == None && root == old(root) && count == old(count)
      ensures !allocFails && Find(compare, old(InOrder(root)), dataIn).None? ==>
        r == 1 && dup == None && count == old(count) + 1 &&
        InOrder(root) == InsertSorted(compare, old(InOrder(root)), dataIn)
      ensures !allocFails && Find(compare, old(InOrder(root)), dataIn).Some? ==>
        r == 2 && dup == Some(dataIn) && root == old(root) && count == old(count)
    {
      var newNode := MakeNode(dataIn, allocFails);
      if newNode.None? {
        return 0, None;
      }
      if root.Nil? {
        root := newNode.value;
        count := count + 1;
        return 1, None;
      }
      var result, t, existing := InsertAt(compare, root, newNode.value);
      if result == 1 {
        InsertSortedKeepsAscending(compare, InOrder(root), dataIn);
        root := t;
        count := count + 1;
        return 1, None;
      }
      return 2, Some(newNode.value.data);
    }

    /**
     * `BST_Delete`: removes the node matching `key` and returns its payload,
     * decrementing `count` exactly when something was removed.
     */
    method Delete(key: T) returns (dataOut: Option<T>)
      requires Valid()
      modifies this
      ensures Valid()
      ensures dataOut == Find(compare, old(InOrder(root)), key)
      ensures InOrder(root) == Remove(compare, old(InOrder(root)), key)
      ensures count == if dataOut.Some? then old(count) - 1 else old(count)
    {
      ghost var s := InOrder(root);
      var t, out := DeleteAt(compare, root, key);
      RemoveLength(compare, s, key);
      root := t;
      if out.Some? {
        count := count - 1;
      }
      dataOut := out;
    }

    /** `BST_Search`: the stored payload matching `key`, found without changing the tree. */
    function Search(key: T): (r: Option<T>)
      reads this
      requires Valid()
      ensures r == Find(compare, InOrder(root), key)
    {
      if root.Nil? then None
      else
        SearchAtFinds(compare, root, key);
        var found := SearchAt(compare, root, key);
        if found.Nil? then None else Some(found.data)
    }

    /**
     * `BST_Destroy`: releases every node in post-order, handing each payload
     * to the callback once, and leaves the header empty.
     */
    method Destroy() returns (released: seq<T>)
      requires Valid()
      modifies this
      ensures Valid() && root == Nil && count == 0
      ensures released == PostOrder(old(root))
      ensures multiset(released) == multiset(old(InOrder(root)))
    {
      released := DestroyAt(root);
      root := Nil;
      count := 0;
    }
  }

  /** `BST_Create`: a new empty tree, or none when the header cannot be allocated. */
  method Create<T(!new)>(compare: (T, T) -> int, allocFails: bool) returns (t: Tree?<T>)
    requires IsComparator(compare)
    ensures allocFails <==> t == null
    ensures t != null ==> fresh(t) && t.Valid() && t.root == Nil && t.count == 0 && t.compare == compare
  {
    if allocFails {
      return null;
    }
    t := new Tree(compare);
  }

  /** Integer order as a three-way comparator. */
  function IntCompare(a: int, b: int): (r: int)
    ensures r < 0 <==> a < b
    ensures r == 0 <==> a == b
  {
    if a < b then -1 else if a > b then 1 else 0
  }

  /** Pairs ordered by their first component only. */
  function KeyCompare(a: (int, int), b: (int, int)): (r: int)
    ensures r == 0 <==> a.0 == b.0
  {
    IntCompare(a.0, b.0)
  }

  /** Both orders above are three-way comparators. */
  lemma ComparatorsAreComparators()
    ensures IsComparator(IntCompare) && IsComparator(KeyCompare)
  {
    forall a: int, b: int, c: int ensures Chains(IntCompare, a, b, c) { }
    forall a: (int, int), b: (int, int), c: (int, int) ensures Chains(KeyCompare, a, b, c) { }
  }

  /**
   * Deleting the root 5 of the search tree 3 <- 5 -> 8 as written leaves the
   * in-order sequence [3, 8, 3]: the left leaf is on both sides and 8's old
   * node is lost.  The corrected deletion leaves [3, 8].
   */
  method TwoChildDeleteScenario() returns (asWritten: seq<int>, corrected: seq<int>)
    ensures asWritten == [3, 8, 3]
    ensures corrected == [3, 8]
  {
    var t := Node(Node(Nil, 3, Nil), 5, Node(Nil, 8, Nil));
    SmallTree();
    var t1, o1 := DeleteAtAsWritten(IntCompare, t, 5);
    asWritten := InOrder(t1);
    var t2, o2 := DeleteAt(IntCompare, t, 5);
    corrected := InOrder(t2);
  }

  /** The tree 3 <- 5 -> 8 is a search tree; removing 5 from its in-order sequence leaves [3, 8]. */
  lemma SmallTree()
    ensures var t := Node(Node(Nil, 3, Nil), 5, Node(Nil, 8, Nil));
      && IsComparator(IntCompare) && IsBst(IntCompare, t)
      && InOrder(t) == [3, 5, 8] && InOrder(t.right)[0] == 8
      && Remove(IntCompare, InOrder(t), 5) == [3, 8]
      && InOrder(Node(t.left, 8, t.left)) == [3, 8, 3]
  {
    ComparatorsAreComparators();
    SmallSorted();
    SmallRemove();
  }

  /** [3, 5, 8] ascends strictly. */
  lemma SmallSorted()
    ensures StrictlyAscending(IntCompare, [3, 5, 8])
  {
    var s := [3, 5, 8];
    forall i, j | 0 <= i < j < |s| ensures IntCompare(s[i], s[j]) < 0 {
      assert s[i] < s[j];
    }
  }

  /** Removing 5 from [3, 5, 8] leaves [3, 8]. */
  lemma SmallRemove()
    ensures Remove(IntCompare, [3, 5, 8], 5) == [3, 8]
  {
    var s := [3, 5, 8];
    assert s[1..] == [5, 8] && [5, 8][1..] == [8];
    assert Remove(IntCompare, s, 5) == [3] + Remove(IntCompare, [5, 8], 5);
  }

  /**
   * With pairs ordered by their first component, inserting (1, 20) into a
   * tree holding (1, 10) as written hands the callback (1, 20), a payload
   * that is not in the tree; the corrected insertion hands it (1, 10).
   */
  method DuplicateScenario() returns (stored: seq<(int, int)>, asWritten: Option<(int, int)>, corrected: Option<(int, int)>)
    ensures stored == [(1, 10)]
    ensures asWritten == Some((1, 20))
    ensures corrected == Some((1, 10))
  {
    ComparatorsAreComparators();
    var tree := new Tree(KeyCompare);
    var r1, d1 := tree.Insert((1, 10), false);
    stored := InOrder(tree.root);
    assert Find(KeyCompare, stored, (1, 20)) == Some((1, 10));
    var r2, d2 := tree.InsertAsWritten((1, 20), false);
    var r3, d3 := tree.Insert((1, 20), false);
    asWritten, corrected := d2, d3;
  }
}
