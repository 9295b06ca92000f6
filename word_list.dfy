/**
 * The interactive word list: a doubly linked list of word records kept in
 * strictly ascending `strcmp` order of their words.
 *
 * The list header holds `count`, `head` and `rear`; every node holds its
 * record and the links `rlink` (forward) and `llink` (backward).  Ghost
 * `Nodes` lists the nodes in forward order and ghost `Contents` their records;
 * `Linked()` ties the pointers to them: `head` is the first node, `rear` the
 * last, each `rlink` is the next node, each `llink` the previous one, and the
 * words ascend strictly.  `Valid()` adds that `count` is the number of nodes.
 * The internal `_insert` and `_delete` leave `count` to their callers, so
 * they promise `Linked()` only.
 */
module WordList {
  import opened Order
  import opened Words
  import opened Wrappers

  /** A node of the list: the record it owns and its two links. */
  class Node {
    var data: WordRec
    var llink: Node?
    var rlink: Node?

    constructor (data: WordRec)
      ensures this.data == data && llink == null && rlink == null
    {
      this.data := data;
      llink := null;
      rlink := null;
    }
  }

  /** The list header (`LIST`). */
  class List {
    var count: int
    var head: Node?
    var rear: Node?
    ghost var Nodes: seq<Node>
    ghost var Contents: seq<WordRec>

    /** Pointers, records and order agree with `Nodes` and `Contents`. */
    ghost predicate Linked()
      reads this`head, this`rear, this`Nodes, this`Contents, Nodes
    {
      && |Contents| == |Nodes|
      && Distinct(Nodes)
      && (forall i :: 0 <= i < |Nodes| ==> Nodes[i].data == Contents[i])
      && head == (if Nodes == [] then null else Nodes[0])
      && rear == (if Nodes == [] then null else Nodes[|Nodes| - 1])
      && (forall i {:trigger Nodes[i].rlink} :: 0 <= i < |Nodes| - 1 ==> Nodes[i].rlink == Nodes[i + 1])
      && (forall i {:trigger Nodes[i].llink} :: 0 < i < |Nodes| ==> Nodes[i].llink == Nodes[i - 1])
      && (Nodes != [] ==> Nodes[0].llink == null && Nodes[|Nodes| - 1].rlink == null)
      && StrictlyAscending(CompareByWord, Contents)
    }

    /** The list invariant: linked, ordered, and `count` is the number of nodes. */
    ghost predicate Valid()
      reads this, Nodes
    {
      Linked() && count == |Nodes|
    }

    /** `createList`: an empty list (the source does not check its allocation). */
    constructor ()
      ensures Valid() && Nodes == [] && Contents == []
      ensures count == 0 && head == null && rear == null
    {
      count := 0;
      head := null;
      rear := null;
      Nodes := [];
      Contents := [];
    }

    /**
     * `_search`: walks forward while the node's word is below the key's.  On
     * return `pLoc` is the first node whose word is not below the key (or
     * null), `pPre` the node before it (or null), and `found` says whether
     * `pLoc` holds the key's word, which happens exactly when the word is in
     * the list at all.
     */
    method Search(key: WordRec) returns (found: bool, pPre: Node?, pLoc: Node?, ghost idx: nat)
      requires Valid()
      ensures idx <= |Nodes|
      ensures pPre == (if idx == 0 then null else Nodes[idx - 1])
      ensures pLoc == (if idx < |Nodes| then Nodes[idx] else null)
      ensures forall k :: 0 <= k < idx ==> Strcmp(Contents[k].word, key.word) < 0
      ensures idx < |Contents| ==> Strcmp(Contents[idx].word, key.word) >= 0
      ensures found <==> pLoc != null && Contents[idx].word == key.word
      ensures found <==> exists k :: 0 <= k < |Contents| && Contents[k].word == key.word
    {
      pPre := null;
      pLoc := head;
      idx := 0;
      while pLoc != null && CompareByWord(pLoc.data, key) < 0
        invariant idx <= |Nodes|
        invariant pPre == (if idx == 0 then null else Nodes[idx - 1])
        invariant pLoc == (if idx < |Nodes| then Nodes[idx] else null)
        invariant forall k :: 0 <= k < idx ==> CompareByWord(Contents[k], key) < 0
        decreases |Nodes| - idx
      {
        assert Linked() && pLoc == Nodes[idx];
        assert pLoc.rlink == if idx + 1 < |Nodes| then Nodes[idx + 1] else null;
        pPre := pLoc;
        pLoc := pLoc.rlink;
        idx := idx + 1;
      }
      found := pLoc != null && CompareByWord(pLoc.data, key) == 0;
      WordScanFindsAllMatches(Contents, idx, key);
    }

    /**
     * `addNode`: reads one word record.  When the word is stored already its
     * record gets one more occurrence and the result is 2; otherwise
     * `dataIn` is linked in at its place in word order, `count` goes up and
     * the result is 1, unless the node cannot be allocated (0, nothing
     * changes).  Either way the records become `AddWord(old(Contents), dataIn)`.
     */
    method AddNode(dataIn: WordRec, allocFails: bool) returns (r: int)
      requires Valid()
      modifies this, Nodes
      ensures Valid()
      ensures Find(CompareByWord, old(Contents), dataIn).Some? ==>
        r == 2 && Contents == AddWord(old(Contents), dataIn)
      ensures Find(CompareByWord, old(Contents), dataIn).None? && !allocFails ==>
        r == 1 && Contents == AddWord(old(Contents), dataIn)
      ensures Find(CompareByWord, old(Contents), dataIn).None? && allocFails ==>
        r == 0 && Contents == old(Contents)
    {
      var found, pPre, pLoc;
      ghost var idx;
      found, pPre, pLoc, idx := Search(dataIn);
      ghost var s := Contents;
      if found {
        BumpFreq(pLoc, idx, dataIn);
        return 2;
      }
      if idx < |Contents| {
        StrcmpAntisymmetric(Contents[idx].word, dataIn.word);
      }
      r := Insert(pPre, dataIn, allocFails, idx);
      if r == 0 {
        AddWordInserts(s, dataIn, idx);
        return 0;
      }
      CountUp();
      AddWordInserts(s, dataIn, idx);
      return 1;
    }

    /**
     * `pLoc->dataPtr->freq++` in `addNode`: the record of the node at `idx`
     * counts one more occurrence of its word; nothing else changes.
     */
    method BumpFreq(pLoc: Node, ghost idx: nat, ghost x: WordRec)
      requires Valid() && idx < |Nodes| && pLoc == Nodes[idx]
      requires forall k :: 0 <= k < idx ==> Strcmp(Contents[k].word, x.word) < 0
      requires Contents[idx].word == x.word
      modifies this`Contents, pLoc`data
      ensures Valid() && Nodes == old(Nodes)
      ensures Find(CompareByWord, old(Contents), x).Some? && Contents == AddWord(old(Contents), x)
    {
      AddWordBumps(Contents, x, idx);
      pLoc.data := WordRec(pLoc.data.word, pLoc.data.freq + 1);
      Contents := Contents[idx := pLoc.data];
      BumpKeepsLinked(idx);
    }

    /** `pList->count++` in `addNode`, once a node has been linked in. */
    method CountUp()
      requires Linked() && count + 1 == |Nodes|
      modifies this`count
      ensures Valid()
    {
      label Before:
      count := count + 1;
      CountKeepsLinked@Before();
    }

    /** `pList->count--` in `removeNode`, once a node has been unlinked. */
    method CountDown()
      requires Linked() && count - 1 == |Nodes|
      modifies this`count
      ensures Valid()
    {
      label Before:
      count := count - 1;
      CountKeepsLinked@Before();
    }

    /**
     * `removeNode`: unlinks the record with the key's word and hands it back
     * (1), or reports that the word is not stored (0, nothing changes).
     */
    method RemoveNode(key: WordRec) returns (r: int, dataOut: Option<WordRec>)
      requires Valid()
      modifies this, Nodes
      ensures Valid()
      ensures Find(CompareByWord, old(Contents), key).None? ==>
        r == 0 && dataOut == None && Contents == old(Contents)
      ensures Find(CompareByWord, old(Contents), key).Some? ==>
        r == 1 && dataOut == Find(CompareByWord, old(Contents), key) &&
        Contents == Remove(CompareByWord, old(Contents), key)
    {
      var found, pPre, pLoc;
      ghost var idx;
      found, pPre, pLoc, idx := Search(key);
      ghost var s := Contents;
      ScanDecides(s, idx, key);
      if !found {
        return 0, None;
      }
      var data := Delete(pPre, pLoc, idx);
      CountDown();
      return 1, Some(data);
    }

    /** `searchNode`: the stored record with the key's word (1), or none (0). */
    method SearchNode(key: WordRec) returns (r: int, dataOut: Option<WordRec>)
      requires Valid()
      ensures dataOut == Find(CompareByWord, Contents, key)
      ensures r == (if dataOut.Some? then 1 else 0)
    {
      var found, pPre, pLoc;
      ghost var idx;
      found, pPre, pLoc, idx := Search(key);
      ScanDecides(Contents, idx, key);
      if found {
        return 1, Some(pLoc.data);
      }
      return 0, None;
    }

    /** `countList`: the number of stored records. */
    function CountList(): (n: int)
      reads this, Nodes
      requires Valid()
      ensures n == |Contents|
    {
      count
    }

    /** `emptyList`: 1 when no record is stored, 0 otherwise. */
    function EmptyList(): (r: int)
      reads this, Nodes
      requires Valid()
      ensures r == 1 <==> Contents == []
      ensures r == 0 <==> Contents != []
    {
      if CountList() == 0 then 1 else 0
    }

    /**
     * `traverseList`: follows `rlink` from `head`; `visited` is the sequence
     * of records handed to the callback, in ascending word order.
     */
    method TraverseList() returns (visited: seq<WordRec>)
      requires Valid()
      ensures visited == Contents
    {
      var cur := head;
      visited := [];
      ghost var i := 0;
      while cur != null
        invariant i <= |Nodes|
        invariant cur == (if i < |Nodes| then Nodes[i] else null)
        invariant visited == Contents[..i]
        decreases |Nodes| - i
      {
        visited := visited + [cur.data];
        cur := cur.rlink;
        i := i + 1;
      }
    }

    /**
     * `traverseListR`: follows `llink` from `rear`; `visited` is the sequence
     * of records handed to the callback, in descending word order.
     */
    method TraverseListR() returns (visited: seq<WordRec>)
      requires Valid()
      ensures visited == Reverse(Contents)
      ensures StrictlyAscending(CompareByWord, Reverse(visited))
    {
      var cur := rear;
      visited := [];
      ghost var i := |Nodes|;
      ghost var rev := Reverse(Contents);
      while cur != null
        invariant 0 <= i <= |Nodes| == |rev|
        invariant forall k :: 0 <= k < |rev| ==> rev[k] == Contents[|Contents| - 1 - k]
        invariant cur == (if i > 0 then Nodes[i - 1] else null)
        invariant visited == rev[..|Nodes| - i]
        decreases i
      {
        visited := visited + [cur.data];
        cur := cur.llink;
        i := i - 1;
      }
      assert visited == rev[..|rev|];
      ReverseReverse(Contents);
    }

    /**
     * `destroyList`: releases every record in forward order and the list
     * with them; the model leaves the header empty.
     */
    method Destroy() returns (released: seq<WordRec>)
      requires Valid()
      modifies this
      ensures released == old(Contents)
      ensures Valid() && Nodes == [] && Contents == []
    {
      var cur := head;
      released := [];
      ghost var i := 0;
      while cur != null
        invariant i <= |Nodes|
        invariant cur == (if i < |Nodes| then Nodes[i] else null)
        invariant released == Contents[..i]
        decreases |Nodes| - i
      {
        var next := cur.rlink;
        released := released + [cur.data];
        cur := next;
        i := i + 1;
      }
      count := 0;
      head := null;
      rear := null;
      Nodes := [];
      Contents := [];
    }

    /**
     * `_insert`: splices a new node holding `dataIn` in after `pPre` (at the
     * head when `pPre` is null), or reports an allocation failure.  The new
     * node's `llink` is `pPre`, its successor's `llink` is the new node, and
     * `rear` is the new node exactly when it has no successor.  `count` is
     * left to the caller.
     */
    method Insert(pPre: Node?, dataIn: WordRec, allocFails: bool, ghost idx: nat) returns (r: int)
      requires Valid()
      requires idx <= |Nodes| && pPre == (if idx == 0 then null else Nodes[idx - 1])
      requires idx > 0 ==> Strcmp(Contents[idx - 1].word, dataIn.word) < 0
      requires idx < |Contents| ==> Strcmp(dataIn.word, Contents[idx].word) < 0
      modifies this, Nodes
      ensures r == (if allocFails then 0 else 1)
      ensures r == 0 ==> unchanged(this) && unchanged(Nodes)
      ensures r == 1 ==> Linked() && count == old(count)
      ensures r == 1 ==> Contents == old(Contents)[..idx] + [dataIn] + old(Contents)[idx..]
      ensures r == 1 ==> |Nodes| == |old(Nodes)| + 1 && fresh(Nodes[idx]) && Nodes == old(Nodes)[..idx] + [Nodes[idx]] + old(Nodes)[idx..]
      ensures r == 1 ==> Nodes[idx].llink == pPre
      ensures r == 1 && idx < |old(Nodes)| ==> old(Nodes)[idx].llink == Nodes[idx]
      ensures r == 1 ==> (rear == Nodes[idx] <==> Nodes[idx].rlink == null)
    {
      if allocFails {
        return 0;
      }
      if pPre == null {
        LinkFirst(dataIn);
      } else {
        LinkAfter(pPre, dataIn, idx);
      }
      return 1;
    }

    /** The `pPre == NULL` branch of `_insert`: the new node becomes `head`. */
    method LinkFirst(dataIn: WordRec)
      requires Valid()
      requires 0 < |Contents| ==> Strcmp(dataIn.word, Contents[0].word) < 0
      modifies this, Nodes
      ensures Linked() && count == old(count)
      ensures Contents == [dataIn] + old(Contents)
      ensures |Nodes| == |old(Nodes)| + 1 && fresh(Nodes[0]) && Nodes == [Nodes[0]] + old(Nodes)
      ensures Nodes[0].llink == null
      ensures 0 < |old(Nodes)| ==> old(Nodes)[0].llink == Nodes[0]
      ensures rear == Nodes[0] <==> Nodes[0].rlink == null
    {
      ghost var oldNodes, oldContents := Nodes, Contents;
      var newNode := new Node(dataIn);
      newNode.rlink := head;
      if head != null {
        head.llink := newNode;
      }
      head := newNode;
      if rear == null {
        rear := newNode;
      }
      Nodes := [newNode] + oldNodes;
      Contents := [dataIn] + oldContents;
      assert Nodes == oldNodes[..0] + [newNode] + oldNodes[0..];
      assert Contents == oldContents[..0] + [dataIn] + oldContents[0..];
      SpliceKeepsLinked(0, newNode);
    }

    /** The `pPre != NULL` branch of `_insert`: the new node follows `pPre`. */
    method LinkAfter(pPre: Node, dataIn: WordRec, ghost idx: nat)
      requires Valid()
      requires 0 < idx <= |Nodes| && pPre == Nodes[idx - 1]
      requires Strcmp(Contents[idx - 1].word, dataIn.word) < 0
      requires idx < |Contents| ==> Strcmp(dataIn.word, Contents[idx].word) < 0
      modifies this, Nodes
      ensures Linked() && count == old(count)
      ensures Contents == old(Contents)[..idx] + [dataIn] + old(Contents)[idx..]
      ensures |Nodes| == |old(Nodes)| + 1 && fresh(Nodes[idx]) && Nodes == old(Nodes)[..idx] + [Nodes[idx]] + old(Nodes)[idx..]
      ensures Nodes[idx].llink == pPre
      ensures idx < |old(Nodes)| ==> old(Nodes)[idx].llink == Nodes[idx]
      ensures rear == Nodes[idx] <==> Nodes[idx].rlink == null
    {
      ghost var oldNodes, oldContents := Nodes, Contents;
      var newNode := new Node(dataIn);
      newNode.rlink := pPre.rlink;
      newNode.llink := pPre;
      if pPre.rlink != null {
        pPre.rlink.llink := newNode;
      }
      pPre.rlink := newNode;
      if newNode.rlink == null {
        rear := newNode;
      }
      Nodes := oldNodes[..idx] + [newNode] + oldNodes[idx..];
      Contents := oldContents[..idx] + [dataIn] + oldContents[idx..];
      SpliceKeepsLinked(idx, newNode);
    }

    /**
     * `_delete`: unlinks `pLoc`, the node after `pPre` (the head when `pPre`
     * is null), from both chains and hands back its record.  Removing the
     * only node empties `head` and `rear`; removing the last node of a longer
     * list makes `pPre` the new `rear`.  `count` is left to the caller.
     */
    method Delete(pPre: Node?, pLoc: Node, ghost idx: nat) returns (dataOut: WordRec)
      requires Valid()
      requires idx < |Nodes| && pLoc == Nodes[idx] && pPre == (if idx == 0 then null else Nodes[idx - 1])
      modifies this, Nodes
      ensures dataOut == old(Contents)[idx]
      ensures Linked() && count == old(count)
      ensures Nodes == old(Nodes)[..idx] + old(Nodes)[idx + 1..]
      ensures Contents == old(Contents)[..idx] + old(Contents)[idx + 1..]
      ensures |old(Nodes)| == 1 ==> head == null && rear == null
      ensures 0 < idx == |old(Nodes)| - 1 ==> rear == pPre && pPre.rlink == null
    {
      dataOut := pLoc.data;
      if pPre == null {
        UnlinkFirst();
      } else {
        UnlinkAfter(pPre, pLoc, idx);
      }
    }

    /** The `pPre == NULL` branch of `_delete`: `head` moves to the second node. */
    method UnlinkFirst()
      requires Valid() && 0 < |Nodes|
      modifies this, Nodes
      ensures Linked() && count == old(count)
      ensures Nodes == old(Nodes)[1..] && Contents == old(Contents)[1..]
      ensures |old(Nodes)| == 1 ==> head == null && rear == null
    {
      ghost var oldNodes, oldContents := Nodes, Contents;
      ghost var next := if 1 < |Nodes| then Nodes[1] else null;
      assert head.rlink == next;
      head := head.rlink;
      if head != null {
        head.llink := null;
      } else {
        rear := null;
      }
      Nodes := oldNodes[1..];
      Contents := oldContents[1..];
      assert Nodes == oldNodes[..0] + oldNodes[0 + 1..];
      assert Contents == oldContents[..0] + oldContents[0 + 1..];
      UnlinkKeepsLinked(0);
    }

    /** The `pPre != NULL` branch of `_delete`: `pPre` is bridged to the node after `pLoc`. */
    method UnlinkAfter(pPre: Node, pLoc: Node, ghost idx: nat)
      requires Valid()
      requires 0 < idx < |Nodes| && pLoc == Nodes[idx] && pPre == Nodes[idx - 1]
      modifies this, Nodes
      ensures Linked() && count == old(count)
      ensures Nodes == old(Nodes)[..idx] + old(Nodes)[idx + 1..]
      ensures Contents == old(Contents)[..idx] + old(Contents)[idx + 1..]
      ensures idx == |old(Nodes)| - 1 ==> rear == pPre && pPre.rlink == null
    {
      ghost var oldNodes, oldContents := Nodes, Contents;
      ghost var next := if idx + 1 < |Nodes| then Nodes[idx + 1] else null;
      assert pLoc.rlink == next;
      DistinctAt(Nodes, idx - 1, idx);
      if pLoc.rlink == null {
        pPre.rlink := null;
        rear := pPre;
      } else {
        pPre.rlink := pLoc.rlink;
        pLoc.rlink.llink := pPre;
      }
      Nodes := oldNodes[..idx] + oldNodes[idx + 1..];
      Contents := oldContents[..idx] + oldContents[idx + 1..];
      UnlinkKeepsLinked(idx);
    }

    /**
     * The pointer work of `_insert` re-establishes `Linked()`: node `n` now
     * sits at index `idx`, its neighbours point at it, and no other link of
     * an old node moved.
     */
    twostate lemma SpliceKeepsLinked(idx: nat, new n: Node)
      requires old(Linked()) && idx <= |old(Nodes)| && !old(allocated(n))
      requires Nodes == old(Nodes)[..idx] + [n] + old(Nodes)[idx..]
      requires Contents == old(Contents)[..idx] + [n.data] + old(Contents)[idx..]
      requires idx > 0 ==> Strcmp(old(Contents)[idx - 1].word, n.data.word) < 0
      requires idx < |old(Contents)| ==> Strcmp(n.data.word, old(Contents)[idx].word) < 0
      requires n.llink == (if idx == 0 then null else old(Nodes)[idx - 1])
      requires n.rlink == (if idx < |old(Nodes)| then old(Nodes)[idx] else null)
      requires idx > 0 ==> old(Nodes)[idx - 1].rlink == n
      requires idx < |old(Nodes)| ==> old(Nodes)[idx].llink == n
      requires head == Nodes[0] && rear == Nodes[|Nodes| - 1]
      requires forall m: Node :: old(allocated(m)) ==> m.data == old(m.data)
      requires forall m: Node :: old(allocated(m)) && (idx == 0 || m != old(Nodes)[idx - 1]) ==> m.rlink == old(m.rlink)
      requires forall m: Node :: old(allocated(m)) && (idx == |old(Nodes)| || m != old(Nodes)[idx]) ==> m.llink == old(m.llink)
      ensures Linked()
    {
      ghost var o := old(Nodes);
      SpliceIndices(o, idx, n);
      SpliceIndices(old(Contents), idx, n.data);
      WordInsertKeepsAscending(old(Contents), idx, n.data);
      forall i | 0 <= i < |Nodes| ensures Nodes[i].data == Contents[i] {
        if i < idx {
          assert old(Nodes[i].data) == old(Contents[i]);
        } else if i > idx {
          assert old(Nodes[i - 1].data) == old(Contents[i - 1]);
        }
      }
      forall i | 0 <= i < |Nodes| - 1 ensures Nodes[i].rlink == Nodes[i + 1] {
        if i < idx - 1 {
          DistinctAt(o, i, idx - 1);
          assert old(Nodes[i].rlink) == o[i + 1];
        } else if i > idx {
          if idx > 0 { DistinctAt(o, i - 1, idx - 1); }
          assert old(Nodes[i - 1].rlink) == o[i];
        }
      }
      forall i | 0 < i < |Nodes| ensures Nodes[i].llink == Nodes[i - 1] {
        if i < idx {
          if idx < |o| { DistinctAt(o, i, idx); }
          assert old(Nodes[i].llink) == o[i - 1];
        } else if i > idx + 1 {
          DistinctAt(o, i - 1, idx);
          assert old(Nodes[i - 1].llink) == o[i - 2];
        }
      }
      DistinctSplice(o, idx, n);
    }

    /** Updating `count` alone keeps `Linked()`, which does not read it. */
    twostate lemma CountKeepsLinked()
      requires old(Linked())
      requires head == old(head) && rear == old(rear) && Nodes == old(Nodes) && Contents == old(Contents)
      requires unchanged(Nodes)
      ensures Linked()
    {
    }

    /**
     * Bumping the frequency of the record at `idx` in place keeps `Linked()`:
     * its word, and so the order, is unchanged, and no link moved.
     */
    twostate lemma BumpKeepsLinked(idx: nat)
      requires old(Linked()) && idx < |old(Nodes)|
      requires Nodes == old(Nodes) && head == old(head) && rear == old(rear)
      requires Nodes[idx].data.word == old(Nodes[idx].data.word)
      requires Contents == old(Contents)[idx := Nodes[idx].data]
      requires forall m: Node :: old(allocated(m)) && m != Nodes[idx] ==> m.data == old(m.data)
      requires forall m: Node :: old(allocated(m)) ==> m.rlink == old(m.rlink) && m.llink == old(m.llink)
      ensures Linked()
    {
      SameWordKeepsAscending(old(Contents), idx, Nodes[idx].data);
      forall i | 0 <= i < |Nodes| ensures Nodes[i].data == Contents[i] {
        if i != idx {
          DistinctAt(Nodes, i, idx);
          assert old(Nodes[i].data) == old(Contents[i]);
        }
      }
      forall i | 0 <= i < |Nodes| - 1 ensures Nodes[i].rlink == Nodes[i + 1] {
        assert old(Nodes[i].rlink) == Nodes[i + 1];
      }
      forall i | 0 < i < |Nodes| ensures Nodes[i].llink == Nodes[i - 1] {
        assert old(Nodes[i].llink) == Nodes[i - 1];
      }
    }

    /**
     * The pointer work of `_delete` re-establishes `Linked()`: the node at
     * index `idx` is gone, its neighbours point at each other, and no other
     * link of a remaining node moved.
     */
    twostate lemma UnlinkKeepsLinked(idx: nat)
      requires old(Linked()) && idx < |old(Nodes)|
      requires Nodes == old(Nodes)[..idx] + old(Nodes)[idx + 1..]
      requires Contents == old(Contents)[..idx] + old(Contents)[idx + 1..]
      requires idx > 0 ==> old(Nodes)[idx - 1].rlink == (if idx + 1 < |old(Nodes)| then old(Nodes)[idx + 1] else null)
      requires idx + 1 < |old(Nodes)| ==> old(Nodes)[idx + 1].llink == (if idx == 0 then null else old(Nodes)[idx - 1])
      requires head == (if Nodes == [] then null else Nodes[0]) && rear == (if Nodes == [] then null else Nodes[|Nodes| - 1])
      requires forall m: Node :: old(allocated(m)) ==> m.data == old(m.data)
      requires forall m: Node :: old(allocated(m)) && (idx == 0 || m != old(Nodes)[idx - 1]) ==> m.rlink == old(m.rlink)
      requires forall m: Node :: old(allocated(m)) && (idx + 1 == |old(Nodes)| || m != old(Nodes)[idx + 1]) ==> m.llink == old(m.llink)
      ensures Linked()
    {
      ghost var o := old(Nodes);
      RemoveIndices(o, idx);
      RemoveIndices(old(Contents), idx);
      RemoveKeepsAscending(CompareByWord, old(Contents), idx);
      forall i | 0 <= i < |Nodes| ensures Nodes[i].data == Contents[i] {
        if i < idx {
          assert old(Nodes[i].data) == old(Contents[i]);
        } else {
          assert old(Nodes[i + 1].data) == old(Contents[i + 1]);
        }
      }
      forall i | 0 <= i < |Nodes| - 1 ensures Nodes[i].rlink == Nodes[i + 1] {
        if i < idx - 1 {
          DistinctAt(o, i, idx - 1);
          assert old(Nodes[i].rlink) == o[i + 1];
        } else if i >= idx {
          if idx > 0 { DistinctAt(o, i + 1, idx - 1); }
          assert old(Nodes[i + 1].rlink) == o[i + 2];
        }
      }
      forall i | 0 < i < |Nodes| ensures Nodes[i].llink == Nodes[i - 1] {
        if i < idx {
          if idx + 1 < |o| { DistinctAt(o, i, idx + 1); }
          assert old(Nodes[i].llink) == o[i - 1];
        } else if i > idx {
          if idx + 1 < |o| { DistinctAt(o, i + 1, idx + 1); }
          assert old(Nodes[i + 1].llink) == o[i];
        }
      }
      DistinctCut(o, idx);
    }
  }
}
