/**
 * The generic sorted doubly linked list (`LIST` of `adt_dlist.c`).
 *
 * It has the same shape as the word list: a header with `count`, `head` and
 * `rear`, and nodes with a payload and the links `rlink` and `llink`.  The
 * payloads are of any type `T`; their order is the comparator handed to
 * `createList`, kept in the header as `compare`, and the list keeps them
 * strictly ascending under it.  Ghost `Nodes` and `Contents` are the nodes and
 * payloads in forward order.  Here `_insert` and `_delete` keep `count`
 * themselves, so they promise the whole invariant `Valid()`.
 *
 * The methods without a suffix are the list as its comments and its other
 * branches promise it.  Three places of the code do not keep that promise;
 * each is modelled as written by a method named `...AsWritten` whose
 * contract shows what goes wrong, and by a small scenario method that
 * produces the broken state from an empty list.
 */
module GenericList {
  import opened Order
  import opened Wrappers

  /** A node: the payload it points at and its two links. */
  class Node<T> {
    var data: T
    var llink: Node?<T>
    var rlink: Node?<T>

    constructor (data: T)
      ensures this.data == data && llink == null && rlink == null
    {
      this.data := data;
      llink := null;
      rlink := null;
    }
  }

  /** The list header (`LIST`), with the comparator it was created with. */
  class List<T(!new)> {
    var count: int
    var head: Node?<T>
    var rear: Node?<T>
    const compare: (T, T) -> int
    ghost var Nodes: seq<Node<T>>
    ghost var Contents: seq<T>

    /** Pointers, payloads and order agree with `Nodes` and `Contents`. */
    ghost predicate Linked()
      reads this, Nodes
    {
      && IsComparator(compare)
      && |Contents| == |Nodes|
      && Distinct(Nodes)
      && (forall i :: 0 <= i < |Nodes| ==> Nodes[i].data == Contents[i])
      && head == (if Nodes == [] then null else Nodes[0])
      && rear == (if Nodes == [] then null else Nodes[|Nodes| - 1])
      && (forall i {:trigger Nodes[i].rlink} :: 0 <= i < |Nodes| - 1 ==> Nodes[i].rlink == Nodes[i + 1])
      && (forall i {:trigger Nodes[i].llink} :: 0 < i < |Nodes| ==> Nodes[i].llink == Nodes[i - 1])
      && (Nodes != [] ==> Nodes[0].llink == null && Nodes[|Nodes| - 1].rlink == null)
      && StrictlyAscending(compare, Contents)
    }

    /** The list invariant: linked, ordered, and `count` is the number of nodes. */
    ghost predicate Valid()
      reads this, Nodes
    {
      Linked() && count == |Nodes|
    }

    /**
     * `createList`: an empty list ordered by `compare`, which must be a
     * three-way comparator (the list relies on that and cannot check it).
     */
    constructor (compare: (T, T) -> int)
      requires IsComparator(compare)
      ensures Valid() && Nodes == [] && Contents == [] && this.compare == compare
      ensures count == 0 && head == null && rear == null
    {
      count := 0;
      head := null;
      rear := null;
      this.compare := compare;
      Nodes := [];
      Contents := [];
    }

    /**
     * `_search`: walks forward comparing the key with each payload
     * (`compare(key, payload)`), stops with `found` at the first payload
     * equal to the key, stops without it at the first payload above the
     * key, and passes the others.  On return `pLoc` is the node it stopped at
     * (null at the end), `pPre` the node before it (or null); `found` holds
     * exactly when some payload equals the key.
     */
    method Search(key: T) returns (found: bool, pPre: Node?<T>, pLoc: Node?<T>, ghost idx: nat)
      requires Valid()
      ensures idx <= |Nodes|
      ensures pPre == (if idx == 0 then null else Nodes[idx - 1])
      ensures pLoc == (if idx < |Nodes| then Nodes[idx] else null)
      ensures forall k :: 0 <= k < idx ==> compare(key, Contents[k]) > 0
      ensures idx < |Contents| ==> compare(key, Contents[idx]) <= 0
      ensures found <==> pLoc != null && compare(key, Contents[idx]) == 0
      ensures found <==> exists k :: 0 <= k < |Contents| && compare(key, Contents[k]) == 0
    {
      pPre := null;
      pLoc := head;
      idx := 0;
      found := false;
      while pLoc != null
        invariant idx <= |Nodes|
        invariant pPre == (if idx == 0 then null else Nodes[idx - 1])
        invariant pLoc == (if idx < |Nodes| then Nodes[idx] else null)
        invariant forall k :: 0 <= k < idx ==> compare(key, Contents[k]) > 0
        decreases |Nodes| - idx
      {
        var find := compare(key, pLoc.data);
        if find == 0 {
          found := true;
          break;
        } else if find < 0 {
          break;
        }
        assert pLoc.rlink == if idx + 1 < |Nodes| then Nodes[idx + 1] else null;
        pPre := pLoc;
        pLoc := pLoc.rlink;
        idx := idx + 1;
      }
      ScanFindsAllMatchesKeyFirst(compare, Contents, idx, key);
    }

    /**
     * `addNode`: when a payload equal to `dataIn` is stored already, that
     * stored payload goes to the duplicate callback (`dup`), nothing changes
     * and the result is 2.  Otherwise `dataIn` is linked in at its place and
     * the result is 1, or 0 when the node cannot be allocated (nothing
     * changes).  The source returns 1 in that last case; see
     * `AddNodeAsWritten`.
     */
    method AddNode(dataIn: T, allocFails: bool) returns (r: int, dup: Option<T>)
      requires Valid()
      modifies this, Nodes
      ensures Valid()
      ensures Find(compare, old(Contents), dataIn).Some? ==>
        r == 2 && dup == Find(compare, old(Contents), dataIn) && Contents == old(Contents)
      ensures Find(compare, old(Contents), dataIn).None? && !allocFails ==>
        r == 1 && dup == None && Contents == InsertSorted(compare, old(Contents), dataIn)
      ensures Find(compare, old(Contents), dataIn).None? && allocFails ==>
        r == 0 && dup == None && Contents == old(Contents)
    {
      var found, pPre, pLoc;
      ghost var idx;
      found, pPre, pLoc, idx := Search(dataIn);
      ghost var s := Contents;
      if found {
        KeyScanDecides(compare, s, idx, dataIn);
        return 2, Some(pLoc.data);
      }
      r := Insert(pPre, dataIn, allocFails, idx);
      KeyScanInserts(compare, s, idx, dataIn);
      return r, None;
    }

    /**
     * `addNode` as written: the result of `_insert` is ignored and the
     * result is 1 even when the node could not be allocated and nothing was
     * stored.  (The `_insert` used here is the corrected one, so that this
     * method shows this defect alone.)
     */
    method AddNodeAsWritten(dataIn: T, allocFails: bool) returns (r: int, dup: Option<T>)
      requires Valid()
      modifies this, Nodes
      ensures Valid()
      ensures Find(compare, old(Contents), dataIn).Some? ==>
        r == 2 && dup == Find(compare, old(Contents), dataIn) && Contents == old(Contents)
      ensures Find(compare, old(Contents), dataIn).None? ==> r == 1 && dup == None
      ensures Find(compare, old(Contents), dataIn).None? && allocFails ==> Contents == old(Contents)
    {
      var found, pPre, pLoc;
      ghost var idx;
      found, pPre, pLoc, idx := Search(dataIn);
      ghost var s := Contents;
      if found {
        KeyScanDecides(compare, s, idx, dataIn);
        return 2, Some(pLoc.data);
      }
      var ignored := Insert(pPre, dataIn, allocFails, idx);
      KeyScanInserts(compare, s, idx, dataIn);
      return 1, None;
    }

    /**
     * `removeNode`: unlinks the payload equal to the key and hands it back
     * (1), or reports that none is stored (0, nothing changes).
     */
    method RemoveNode(key: T) returns (r: int, dataOut: Option<T>)
      requires Valid()
      modifies this, Nodes
      ensures Valid()
      ensures Find(compare, old(Contents), key).None? ==>
        r == 0 && dataOut == None && Contents == old(Contents)
      ensures Find(compare, old(Contents), key).Some? ==>
        r == 1 && dataOut == Find(compare, old(Contents), key) &&
        Contents == Remove(compare, old(Contents), key) && count == old(count) - 1
    {
      var found, pPre, pLoc;
      ghost var idx;
      found, pPre, pLoc, idx := Search(key);
      ghost var s := Contents;
      KeyScanDecides(compare, s, idx, key);
      if !found {
        return 0, None;
      }
      var data := Delete(pPre, pLoc, idx);
      return 1, Some(data);
    }

    /** `searchNode`: the stored payload equal to the key (1), or none (0). */
    method SearchNode(key: T) returns (r: int, dataOut: Option<T>)
      requires Valid()
      ensures dataOut == Find(compare, Contents, key)
      ensures r == (if dataOut.Some? then 1 else 0)
    {
      var found, pPre, pLoc;
      ghost var idx;
      found, pPre, pLoc, idx := Search(key);
      KeyScanDecides(compare, Contents, idx, key);
      if found {
        return 1, Some(pLoc.data);
      }
      return 0, None;
    }

    /** `countList`: the number of stored payloads. */
    function CountList(): (n: int)
      reads this, Nodes
      requires Valid()
      ensures n == |Contents|
    {
      count
    }

    /** `emptyList`: 1 when no payload is stored, 0 otherwise. */
    function EmptyList(): (r: int)
      reads this, Nodes
      requires Valid()
      ensures r == 1 <==> Contents == []
      ensures r == 0 <==> Contents != []
    {
      if count == 0 then 1 else 0
    }

    /**
     * `traverseList`: follows `rlink` from `head`; `visited` is the sequence
     * of payloads handed to the callback, ascending under `compare`.
     */
    method TraverseList() returns (visited: seq<T>)
      requires Valid()
      ensures visited == Contents
      ensures StrictlyAscending(compare, visited)
    {
      var cur := head;
      visited := [];
      ghost var i := 0;
      while cur != null
        invariant i <= |Nodes|
        invariant cur == (if i < |Nodes| then Nodes[i] else null)
        invariant visited == Contents[..i]
        decreases |Nodes| - i
      {
        visited := visited + [cur.data];
        cur := cur.rlink;
        i := i + 1;
      }
    }

    /**
     * `traverseListR`: follows `llink` from `rear`; `visited` is the sequence
     * of payloads handed to the callback, the forward order reversed.  This
     * relies on `rear` being the last node, which the as-written `_insert`
     * and `_delete` do not keep.
     */
    method TraverseListR() returns (visited: seq<T>)
      requires Valid()
      ensures visited == Reverse(Contents)
      ensures StrictlyAscending(compare, Reverse(visited))
    {
      var cur := rear;
      visited := [];
      ghost var i := |Nodes|;
      ghost var rev := Reverse(Contents);
      while cur != null
        invariant 0 <= i <= |Nodes| == |rev|
        invariant forall k :: 0 <= k < |rev| ==> rev[k] == Contents[|Contents| - 1 - k]
        invariant cur == (if i > 0 then Nodes[i - 1] else null)
        invariant visited == rev[..|Nodes| - i]
        decreases i
      {
        visited := visited + [cur.data];
        cur := cur.llink;
        i := i - 1;
      }
      assert visited == rev[..|rev|];
      ReverseReverse(Contents);
    }

    /**
     * `destroyList`: hands every payload to the callback in forward order
     * and releases the nodes and the header; the model leaves the header
     * empty.
     */
    method Destroy() returns (released: seq<T>)
      requires Valid()
      modifies this
      ensures released == old(Contents)
      ensures Valid() && Nodes == [] && Contents == []
    {
      var cur := head;
      released := [];
      ghost var i := 0;
      while cur != null
        invariant i <= |Nodes|
        invariant cur == (if i < |Nodes| then Nodes[i] else null)
        invariant released == Contents[..i]
        decreases |Nodes| - i
      {
        var next := cur.rlink;
        released := released + [cur.data];
        cur := next;
        i := i + 1;
      }
      count := 0;
      head := null;
      rear := null;
      Nodes := [];
      Contents := [];
    }

    /**
     * `_insert`: links a new node holding `dataIn` in after `pPre` (at the
     * head when `pPre` is null) and counts it (1), or reports an allocation
     * failure and changes nothing (0).  The new node's `llink` is `pPre`,
     * its successor's `llink` is the new node, and `rear` is the new node
     * exactly when it has no successor, on both branches.
     */
    method Insert(pPre: Node?<T>, dataIn: T, allocFails: bool, ghost idx: nat) returns (r: int)
      requires Valid()
      requires idx <= |Nodes| && pPre == (if idx == 0 then null else Nodes[idx - 1])
      requires idx > 0 ==> compare(Contents[idx - 1], dataIn) < 0
      requires idx < |Contents| ==> compare(dataIn, Contents[idx]) < 0
      modifies this, Nodes
      ensures Valid() && r == (if allocFails then 0 else 1)
      ensures r == 0 ==> unchanged(this) && unchanged(Nodes)
      ensures r == 1 ==> count == old(count) + 1
      ensures r == 1 ==> Contents == old(Contents)[..idx] + [dataIn] + old(Contents)[idx..]
      ensures r == 1 ==> |Nodes| == |old(Nodes)| + 1 && fresh(Nodes[idx]) && Nodes == old(Nodes)[..idx] + [Nodes[idx]] + old(Nodes)[idx..]
      ensures r == 1 ==> Nodes[idx].llink == pPre
      ensures r == 1 && idx < |old(Nodes)| ==> old(Nodes)[idx].llink == Nodes[idx]
      ensures r == 1 ==> (rear == Nodes[idx] <==> Nodes[idx].rlink == null)
    {
      if allocFails {
        return 0;
      }
      if pPre == null {
        LinkFirst(dataIn);
      } else {
        LinkAfter(pPre, dataIn, idx);
      }
      CountUp();
      return 1;
    }

    /**
     * The `pPre == NULL` branch of `_insert`: the new node becomes `head`,
     * and `rear` when the list was empty.
     */
    method LinkFirst(dataIn: T)
      requires Valid()
      requires 0 < |Contents| ==> compare(dataIn, Contents[0]) < 0
      modifies this, Nodes
      ensures Linked() && count == old(count)
      ensures Contents == [dataIn] + old(Contents)
      ensures |Nodes| == |old(Nodes)| + 1 && fresh(Nodes[0]) && Nodes == [Nodes[0]] + old(Nodes)
      ensures Nodes[0].llink == null
      ensures 0 < |old(Nodes)| ==> old(Nodes)[0].llink == Nodes[0]
      ensures rear == Nodes[0] <==> Nodes[0].rlink == null
    {
      ghost var oldNodes, oldContents := Nodes, Contents;
      var newNode := new Node(dataIn);
      newNode.llink := null;
      newNode.rlink := head;
      if head != null {
        head.llink := newNode;
      }
      head := newNode;
      if newNode.rlink == null {
        rear := newNode;
      }
      Nodes := [newNode] + oldNodes;
      Contents := [dataIn] + oldContents;
      assert Nodes == oldNodes[..0] + [newNode] + oldNodes[0..];
      assert Contents == oldContents[..0] + [dataIn] + oldContents[0..];
      SpliceKeepsLinked(0, newNode);
    }

    /**
     * `_insert` on its `pPre == NULL` branch as written: `rear` is left as
     * it was.  That is right for a non-empty list, but the first payload
     * stored in an empty list leaves `rear` null, so the list no longer
     * satisfies `Valid()` and `traverseListR` visits nothing.
     */
    method InsertFirstAsWritten(dataIn: T)
      requires Valid()
      requires 0 < |Contents| ==> compare(dataIn, Contents[0]) < 0
      modifies this, Nodes
      ensures Contents == [dataIn] + old(Contents) && count == old(count) + 1
      ensures |Nodes| == |old(Nodes)| + 1 && fresh(Nodes[0]) && head == Nodes[0]
      ensures rear == old(rear)
      ensures old(Nodes) != [] ==> Valid()
      ensures old(Nodes) == [] ==> Nodes == [head] && rear == null
    {
      ghost var oldNodes, oldContents := Nodes, Contents;
      var newNode := new Node(dataIn);
      newNode.llink := null;
      newNode.rlink := head;
      if head != null {
        head.llink := newNode;
      }
      head := newNode;
      count := count + 1;
      Nodes := [newNode] + oldNodes;
      Contents := [dataIn] + oldContents;
      if oldNodes != [] {
        assert Nodes == oldNodes[..0] + [newNode] + oldNodes[0..];
        assert Contents == oldContents[..0] + [dataIn] + oldContents[0..];
        SpliceKeepsLinked(0, newNode);
      }
    }

    /**
     * The `pPre != NULL` branch of `_insert`: the new node follows `pPre`.
     * Its two cases, with and without a successor, are `LinkBetween` and
     * `LinkLast`.
     */
    method LinkAfter(pPre: Node<T>, dataIn: T, ghost idx: nat)
      requires Valid()
      requires 0 < idx <= |Nodes| && pPre == Nodes[idx - 1]
      requires compare(Contents[idx - 1], dataIn) < 0
      requires idx < |Contents| ==> compare(dataIn, Contents[idx]) < 0
      modifies this, Nodes
      ensures Linked() && count == old(count)
      ensures Contents == old(Contents)[..idx] + [dataIn] + old(Contents)[idx..]
      ensures |Nodes| == |old(Nodes)| + 1 && fresh(Nodes[idx]) && Nodes == old(Nodes)[..idx] + [Nodes[idx]] + old(Nodes)[idx..]
      ensures Nodes[idx].llink == pPre
      ensures idx < |old(Nodes)| ==> old(Nodes)[idx].llink == Nodes[idx]
      ensures rear == Nodes[idx] <==> Nodes[idx].rlink == null
    {
      if pPre.rlink != null {
        LinkBetween(pPre, dataIn, idx);
      } else {
        LinkLast(pPre, dataIn, idx);
      }
    }

    /**
     * `_insert` after `pPre` when `pPre` has a successor: the successor's
     * `llink` moves to the new node; `rear` stays.
     */
    method LinkBetween(pPre: Node<T>, dataIn: T, ghost idx: nat)
      requires Valid()
      requires 0 < idx < |Nodes| && pPre == Nodes[idx - 1]
      requires compare(Contents[idx - 1], dataIn) < 0
      requires compare(dataIn, Contents[idx]) < 0
      modifies this, Nodes
      ensures Linked() && count == old(count)
      ensures Contents == old(Contents)[..idx] + [dataIn] + old(Contents)[idx..]
      ensures |Nodes| == |old(Nodes)| + 1 && fresh(Nodes[idx]) && Nodes == old(Nodes)[..idx] + [Nodes[idx]] + old(Nodes)[idx..]
      ensures Nodes[idx].llink == pPre && old(Nodes)[idx].llink == Nodes[idx]
      ensures rear != Nodes[idx] && Nodes[idx].rlink != null
    {
      ghost var oldNodes, oldContents := Nodes, Contents;
      var newNode := new Node(dataIn);
      newNode.rlink := pPre.rlink;
      newNode.llink := pPre;
      pPre.rlink := newNode;
      newNode.rlink.llink := newNode;
      Nodes := oldNodes[..idx] + [newNode] + oldNodes[idx..];
      Contents := oldContents[..idx] + [dataIn] + oldContents[idx..];
      SpliceKeepsLinked(idx, newNode);
    }

    /**
     * `_insert` after `pPre` when `pPre` is the last node: the new node
     * becomes `rear`.
     */
    method LinkLast(pPre: Node<T>, dataIn: T, ghost idx: nat)
      requires Valid()
      requires 0 < idx == |Nodes| && pPre == Nodes[idx - 1]
      requires compare(Contents[idx - 1], dataIn) < 0
      modifies this, Nodes
      ensures Linked() && count == old(count)
      ensures Contents == old(Contents) + [dataIn]
      ensures |Nodes| == |old(Nodes)| + 1 && fresh(Nodes[idx]) && Nodes == old(Nodes) + [Nodes[idx]]
      ensures Nodes[idx].llink == pPre
      ensures rear == Nodes[idx] && Nodes[idx].rlink == null
    {
      ghost var oldNodes, oldContents := Nodes, Contents;
      var newNode := new Node(dataIn);
      newNode.rlink := pPre.rlink;
      newNode.llink := pPre;
      pPre.rlink := newNode;
      rear := newNode;
      Nodes := oldNodes + [newNode];
      Contents := oldContents + [dataIn];
      assert Nodes == oldNodes[..idx] + [newNode] + oldNodes[idx..];
      assert Contents == oldContents[..idx] + [dataIn] + oldContents[idx..];
      SpliceKeepsLinked(idx, newNode);
    }

    /** `pList->count++` in `_insert`, once the node has been linked in. */
    method CountUp()
      requires Linked() && count + 1 == |Nodes|
      modifies this`count
      ensures Valid()
    {
      label Before:
      count := count + 1;
      CountKeepsLinked@Before();
    }

    /** `pList->count--` in `_delete`, once the node has been unlinked. */
    method CountDown()
      requires Linked() && count - 1 == |Nodes|
      modifies this`count
      ensures Valid()
    {
      label Before:
      count := count - 1;
      CountKeepsLinked@Before();
    }

    /**
     * `_delete`: unlinks `pLoc`, the node after `pPre` (the head when `pPre`
     * is null), from both chains, hands back its payload and counts it out.
     * Removing the only node empties `head` and `rear`; removing the last
     * node of a longer list makes `pPre` the new `rear`.
     */
    method Delete(pPre: Node?<T>, pLoc: Node<T>, ghost idx: nat) returns (dataOut: T)
      requires Valid()
      requires idx < |Nodes| && pLoc == Nodes[idx] && pPre == (if idx == 0 then null else Nodes[idx - 1])
      modifies this, Nodes
      ensures dataOut == old(Contents)[idx]
      ensures Valid() && count == old(count) - 1
      ensures Nodes == old(Nodes)[..idx] + old(Nodes)[idx + 1..]
      ensures Contents == old(Contents)[..idx] + old(Contents)[idx + 1..]
      ensures |old(Nodes)| == 1 ==> head == null && rear == null
      ensures 0 < idx == |old(Nodes)| - 1 ==> rear == pPre && pPre.rlink == null
    {
      dataOut := pLoc.data;
      if pPre == null {
        UnlinkFirst();
      } else {
        UnlinkAfter(pPre, pLoc, idx);
      }
      CountDown();
    }

    /**
     * The `pPre == NULL` branch of `_delete`: `head` moves to the second
     * node, and `rear` becomes null with it when that was the only node.
     */
    method UnlinkFirst()
      requires Valid() && 0 < |Nodes|
      modifies this, Nodes
      ensures Linked() && count == old(count)
      ensures Nodes == old(Nodes)[1..] && Contents == old(Contents)[1..]
      ensures |old(Nodes)| == 1 ==> head == null && rear == null
    {
      ghost var oldNodes, oldContents := Nodes, Contents;
      ghost var next := if 1 < |Nodes| then Nodes[1] else null;
      assert head.rlink == next;
      head := head.rlink;
      if head != null {
        head.llink := null;
      } else {
        rear := null;
      }
      Nodes := oldNodes[1..];
      Contents := oldContents[1..];
      assert Nodes == oldNodes[..0] + oldNodes[0 + 1..];
      assert Contents == oldContents[..0] + oldContents[0 + 1..];
      UnlinkKeepsLinked(0);
    }

    /**
     * `_delete` on its `pPre == NULL` branch as written: `rear` is left as
     * it was.  That is right while other nodes remain, but deleting the only
     * node leaves `rear` pointing at the released node, which is no longer
     * in the list.
     */
    method DeleteFirstAsWritten() returns (dataOut: T)
      requires Valid() && 0 < |Nodes|
      modifies this, Nodes
      ensures dataOut == old(Contents)[0]
      ensures Nodes == old(Nodes)[1..] && Contents == old(Contents)[1..] && count == old(count) - 1
      ensures rear == old(rear)
      ensures 1 < |old(Nodes)| ==> Valid()
      ensures |old(Nodes)| == 1 ==> head == null && rear == old(Nodes)[0] && rear !in Nodes
    {
      ghost var oldNodes, oldContents := Nodes, Contents;
      ghost var next := if 1 < |Nodes| then Nodes[1] else null;
      assert head.rlink == next;
      dataOut := head.data;
      head := head.rlink;
      if head != null {
        head.llink := null;
      }
      count := count - 1;
      Nodes := oldNodes[1..];
      Contents := oldContents[1..];
      if 1 < |oldNodes| {
        assert Nodes == oldNodes[..0] + oldNodes[0 + 1..];
        assert Contents == oldContents[..0] + oldContents[0 + 1..];
        UnlinkKeepsLinked(0);
      }
    }

    /** The `pPre != NULL` branch of `_delete`: `pPre` is bridged to the node after `pLoc`. */
    method UnlinkAfter(pPre: Node<T>, pLoc: Node<T>, ghost idx: nat)
      requires Valid()
      requires 0 < idx < |Nodes| && pLoc == Nodes[idx] && pPre == Nodes[idx - 1]
      modifies this, Nodes
      ensures Linked() && count == old(count)
      ensures Nodes == old(Nodes)[..idx] + old(Nodes)[idx + 1..]
      ensures Contents == old(Contents)[..idx] + old(Contents)[idx + 1..]
      ensures idx == |old(Nodes)| - 1 ==> rear == pPre && pPre.rlink == null
    {
      ghost var oldNodes, oldContents := Nodes, Contents;
      ghost var next := if idx + 1 < |Nodes| then Nodes[idx + 1] else null;
      assert pLoc.rlink == next;
      DistinctAt(Nodes, idx - 1, idx);
      pPre.rlink := pLoc.rlink;
      if pLoc.rlink != null {
        pLoc.rlink.llink := pPre;
      } else {
        rear := pPre;
      }
      Nodes := oldNodes[..idx] + oldNodes[idx + 1..];
      Contents := oldContents[..idx] + oldContents[idx + 1..];
      UnlinkKeepsLinked(idx);
    }

    /**
     * The pointer work of `_insert` re-establishes `Linked()`: node `n` now
     * sits at index `idx`, its neighbours point at it, and no other link of
     * an old node moved.
     */
    twostate lemma SpliceKeepsLinked(idx: nat, new n: Node<T>)
      requires old(Linked()) && idx <= |old(Nodes)| && !old(allocated(n))
      requires Nodes == old(Nodes)[..idx] + [n] + old(Nodes)[idx..]
      requires Contents == old(Contents)[..idx] + [n.data] + old(Contents)[idx..]
      requires idx > 0 ==> compare(old(Contents)[idx - 1], n.data) < 0
      requires idx < |old(Contents)| ==> compare(n.data, old(Contents)[idx]) < 0
      requires n.llink == (if idx == 0 then null else old(Nodes)[idx - 1])
      requires n.rlink == (if idx < |old(Nodes)| then old(Nodes)[idx] else null)
      requires idx > 0 ==> old(Nodes)[idx - 1].rlink == n
      requires idx < |old(Nodes)| ==> old(Nodes)[idx].llink == n
      requires head == Nodes[0] && rear == Nodes[|Nodes| - 1]
      requires forall m: Node<T> :: old(allocated(m)) ==> m.data == old(m.data)
      requires forall m: Node<T> :: old(allocated(m)) && (idx == 0 || m != old(Nodes)[idx - 1]) ==> m.rlink == old(m.rlink)
      requires forall m: Node<T> :: old(allocated(m)) && (idx == |old(Nodes)| || m != old(Nodes)[idx]) ==> m.llink == old(m.llink)
      ensures Linked()
    {
      ghost var o := old(Nodes);
      SpliceIndices(o, idx, n);
      SpliceIndices(old(Contents), idx, n.data);
      InsertKeepsAscending(compare, old(Contents), idx, n.data);
      forall i | 0 <= i < |Nodes| ensures Nodes[i].data == Contents[i] {
        if i < idx {
          assert old(Nodes[i].data) == old(Contents[i]);
        } else if i > idx {
          assert old(Nodes[i - 1].data) == old(Contents[i - 1]);
        }
      }
      forall i | 0 <= i < |Nodes| - 1 ensures Nodes[i].rlink == Nodes[i + 1] {
        if i < idx - 1 {
          DistinctAt(o, i, idx - 1);
          assert old(Nodes[i].rlink) == o[i + 1];
        } else if i > idx {
          if idx > 0 { DistinctAt(o, i - 1, idx - 1); }
          assert old(Nodes[i - 1].rlink) == o[i];
        }
      }
      forall i | 0 < i < |Nodes| ensures Nodes[i].llink == Nodes[i - 1] {
        if i < idx {
          if idx < |o| { DistinctAt(o, i, idx); }
          assert old(Nodes[i].llink) == o[i - 1];
        } else if i > idx + 1 {
          DistinctAt(o, i - 1, idx);
          assert old(Nodes[i - 1].llink) == o[i - 2];
        }
      }
      DistinctSplice(o, idx, n);
    }

    /** Updating `count` alone keeps `Linked()`, which does not read it. */
    twostate lemma CountKeepsLinked()
      requires old(Linked())
      requires head == old(head) && rear == old(rear) && Nodes == old(Nodes) && Contents == old(Contents)
      requires unchanged(Nodes)
      ensures Linked()
    {
    }

    /**
     * The pointer work of `_delete` re-establishes `Linked()`: the node at
     * index `idx` is gone, its neighbours point at each other, and no other
     * link of a remaining node moved.
     */
    twostate lemma UnlinkKeepsLinked(idx: nat)
      requires old(Linked()) && idx < |old(Nodes)|
      requires Nodes == old(Nodes)[..idx] + old(Nodes)[idx + 1..]
      requires Contents == old(Contents)[..idx] + old(Contents)[idx + 1..]
      requires idx > 0 ==> old(Nodes)[idx - 1].rlink == (if idx + 1 < |old(Nodes)| then old(Nodes)[idx + 1] else null)
      requires idx + 1 < |old(Nodes)| ==> old(Nodes)[idx + 1].llink == (if idx == 0 then null else old(Nodes)[idx - 1])
      requires head == (if Nodes == [] then null else Nodes[0]) && rear == (if Nodes == [] then null else Nodes[|Nodes| - 1])
      requires forall m: Node<T> :: old(allocated(m)) ==> m.data == old(m.data)
      requires forall m: Node<T> :: old(allocated(m)) && (idx == 0 || m != old(Nodes)[idx - 1]) ==> m.rlink == old(m.rlink)
      requires forall m: Node<T> :: old(allocated(m)) && (idx + 1 == |old(Nodes)| || m != old(Nodes)[idx + 1]) ==> m.llink == old(m.llink)
      ensures Linked()
    {
      ghost var o := old(Nodes);
      RemoveIndices(o, idx);
      RemoveIndices(old(Contents), idx);
      RemoveKeepsAscending(compare, old(Contents), idx);
      forall i | 0 <= i < |Nodes| ensures Nodes[i].data == Contents[i] {
        if i < idx {
          assert old(Nodes[i].data) == old(Contents[i]);
        } else {
          assert old(Nodes[i + 1].data) == old(Contents[i + 1]);
        }
      }
      forall i | 0 <= i < |Nodes| - 1 ensures Nodes[i].rlink == Nodes[i + 1] {
        if i < idx - 1 {
          DistinctAt(o, i, idx - 1);
          assert old(Nodes[i].rlink) == o[i + 1];
        } else if i >= idx {
          if idx > 0 { DistinctAt(o, i + 1, idx - 1); }
          assert old(Nodes[i + 1].rlink) == o[i + 2];
        }
      }
      forall i | 0 < i < |Nodes| ensures Nodes[i].llink == Nodes[i - 1] {
        if i < idx {
          if idx + 1 < |o| { DistinctAt(o, i, idx + 1); }
          assert old(Nodes[i].llink) == o[i - 1];
        } else if i > idx {
          if idx + 1 < |o| { DistinctAt(o, i + 1, idx + 1); }
          assert old(Nodes[i + 1].llink) == o[i];
        }
      }
      DistinctCut(o, idx);
    }
  }

  /** `createList`: a new empty list, or none when the header cannot be allocated. */
  method CreateList<T(!new)>(compare: (T, T) -> int, allocFails: bool) returns (l: List?<T>)
    requires IsComparator(compare)
    ensures allocFails <==> l == null
    ensures l != null ==> fresh(l) && l.Valid() && l.Contents == [] && l.count == 0 && l.compare == compare
  {
    if allocFails {
      return null;
    }
    l := new List(compare);
  }

  /**
   * Where the key-first scan of `_search` stops, lookup and removal are
   * decided: the payload there is the one found and the one cut out when it
   * equals the key, and otherwise no payload equals the key.
   */
  lemma KeyScanDecides<T(!new)>(cmp: (T, T) -> int, s: seq<T>, i: nat, key: T)
    requires IsComparator(cmp) && StrictlyAscending(cmp, s) && i <= |s|
    requires forall k :: 0 <= k < i ==> cmp(key, s[k]) > 0
    requires i < |s| ==> cmp(key, s[i]) <= 0
    ensures i < |s| && cmp(key, s[i]) == 0 ==>
      Find(cmp, s, key) == Some(s[i]) && Remove(cmp, s, key) == s[..i] + s[i + 1..]
    ensures !(i < |s| && cmp(key, s[i]) == 0) ==>
      Find(cmp, s, key) == None && Remove(cmp, s, key) == s
  {
    ScanFindsAllMatchesKeyFirst(cmp, s, i, key);
    forall k | 0 <= k < |s| ensures cmp(s[k], key) == 0 <==> cmp(key, s[k]) == 0 {
      ZeroSymmetric(cmp, s[k], key);
    }
    if i < |s| && cmp(key, s[i]) == 0 {
      FindFirst(cmp, s, key, i);
      RemoveFirstMatch(cmp, s, key, i);
    } else {
      FindSpec(cmp, s, key);
      RemoveNoMatch(cmp, s, key);
    }
  }

  /**
   * When the key-first scan for a payload absent from the list stops at
   * `i`, the sorted insertion of that payload splices it in at `i`.
   */
  lemma KeyScanInserts<T(!new)>(cmp: (T, T) -> int, s: seq<T>, i: nat, x: T)
    requires IsComparator(cmp) && StrictlyAscending(cmp, s) && i <= |s|
    requires forall k :: 0 <= k < i ==> cmp(x, s[k]) > 0
    requires i < |s| ==> cmp(x, s[i]) < 0
    ensures Find(cmp, s, x).None?
    ensures InsertSorted(cmp, s, x) == s[..i] + [x] + s[i..]
  {
    KeyScanDecides(cmp, s, i, x);
    if i < |s| {
      assert cmp(s[i], x) > 0;
    }
    PositionIs(cmp, s, x, i);
    InsertSortedAtPosition(cmp, s, x);
  }

  /**
   * Storing one payload in an empty list with the as-written `_insert`
   * leaves a list whose `head` is set but whose `rear` is null.
   */
  method FirstInsertLosesRear<T(!new)>(compare: (T, T) -> int, x: T) returns (l: List<T>)
    requires IsComparator(compare)
    ensures l.Contents == [x] && l.head != null && l.rear == null
  {
    l := new List(compare);
    l.InsertFirstAsWritten(x);
  }

  /**
   * Deleting the only payload of a one-element list with the as-written
   * `_delete` leaves `rear` pointing at the node that was released.
   */
  method LastDeleteLeavesRear<T(!new)>(compare: (T, T) -> int, x: T) returns (l: List<T>, gone: Node<T>)
    requires IsComparator(compare)
    ensures l.Contents == [] && l.head == null && l.rear == gone && gone !in l.Nodes
  {
    l := new List(compare);
    var r := l.Insert(null, x, false, 0);
    gone := l.head;
    var data := l.DeleteFirstAsWritten();
  }

  /**
   * With allocation failing, the as-written `addNode` reports a stored
   * payload (1) for a list that is still empty.
   */
  method OverflowReportsSuccess<T(!new)>(compare: (T, T) -> int, x: T) returns (l: List<T>, r: int)
    requires IsComparator(compare)
    ensures r == 1 && l.Contents == []
  {
    l := new List(compare);
    var dup;
    r, dup := l.AddNodeAsWritten(x, true);
  }
}
