/**
 * The word dictionary: a singly linked list of word records kept in strictly
 * ascending `strcmp` order of their words through `link`, and a second chain
 * through `link2` that `connect_by_frequency` threads through the same nodes
 * in `compare_by_freq` order (most frequent first, ties by word).
 *
 * The list header holds `count`, `head` (the word chain) and `head2` (the
 * frequency chain).  Ghost `Nodes` lists the nodes along `link` and ghost
 * `Contents` their records; `Linked()` ties `head` and every `link` to them
 * and keeps the words strictly ascending, and `Valid()` adds that `count` is
 * the number of nodes.  Ghost `ByFreq` lists the nodes along `link2` and
 * `FreqContents` their records; `FreqLinked()` ties `head2` and every `link2`
 * to them.  Reading words does not maintain the frequency chain (a new node
 * starts with a null `link2`, and a bumped frequency leaves its node where it
 * was); `connect_by_frequency` rebuilds it from scratch.
 */
module WordDictionary {
  import opened Order
  import opened Words
  import opened Wrappers

  /**
   * The records in the order `connect_by_frequency` chains them: taking the
   * records in word order, each goes in front of the first record already
   * chained that does not compare below it by `compare_by_freq`.
   */
  function ByFrequency(s: seq<WordRec>): (r: seq<WordRec>)
    ensures |r| == |s|
  {
    if s == [] then [] else InsertSorted(CompareByFreq, ByFrequency(s[..|s| - 1]), s[|s| - 1])
  }

  /** The frequency order holds every record exactly once. */
  lemma {:induction false} ByFrequencyPermutes(s: seq<WordRec>)
    ensures multiset(ByFrequency(s)) == multiset(s)
  {
    if s != [] {
      var p, x := s[..|s| - 1], s[|s| - 1];
      ByFrequencyPermutes(p);
      InsertSortedPermutes(CompareByFreq, ByFrequency(p), x);
      assert s == p + [x];
    }
  }

  /**
   * The records of a dictionary (distinct words) come out strictly ascending
   * by `compare_by_freq`: frequencies never go up along the chain, and
   * records of equal frequency ascend by word.
   */
  lemma {:induction false} ByFrequencyAscending(s: seq<WordRec>)
    requires StrictlyAscending(CompareByWord, s)
    ensures StrictlyAscending(CompareByFreq, ByFrequency(s))
  {
    if s != [] {
      var p, x := s[..|s| - 1], s[|s| - 1];
      forall i, j | 0 <= i < j < |p| ensures CompareByWord(p[i], p[j]) < 0 {
        assert p[i] == s[i] && p[j] == s[j];
      }
      ByFrequencyAscending(p);
      ByFrequencyPermutes(p);
      FindSpec(CompareByFreq, ByFrequency(p), x);
      forall k | 0 <= k < |p| ensures p[k] != x {
        assert CompareByWord(s[k], s[|s| - 1]) < 0;
      }
      assert x !in multiset(ByFrequency(p));
      CompareByFreqIsComparator();
      InsertSortedKeepsAscending(CompareByFreq, ByFrequency(p), x);
    }
  }

  /**
   * One step of `connect_by_frequency`: when the scan of the records chained
   * so far stops at `j` for the next record `s[i]`, splicing it in at `j`
   * gives the frequency order of one more record.
   */
  lemma ByFrequencyStep(s: seq<WordRec>, i: nat, j: nat)
    requires i < |s| && j <= i
    requires forall k :: 0 <= k < j ==> CompareByFreq(s[i], ByFrequency(s[..i])[k]) > 0
    requires j < i ==> CompareByFreq(s[i], ByFrequency(s[..i])[j]) <= 0
    ensures ByFrequency(s[..i + 1]) == ByFrequency(s[..i])[..j] + [s[i]] + ByFrequency(s[..i])[j..]
  {
    var f := ByFrequency(s[..i]);
    assert s[..i + 1][..i] == s[..i];
    CompareByFreqIsComparator();
    PositionIs(CompareByFreq, f, s[i], j);
    InsertSortedAtPosition(CompareByFreq, f, s[i]);
  }

  /**
   * The ghost bookkeeping of one step of `connect_by_frequency`: once the
   * node `ns[i]` with record `s[i]` is spliced into the chain `b` of the
   * nodes before it at the place `j` where the scan stopped, the chain holds
   * the first `i + 1` nodes and their records in frequency order.
   */
  lemma ConnectStep(ns: seq<Node>, s: seq<WordRec>, b: seq<Node>, i: nat, j: nat)
    requires i < |ns| == |s| && |b| == i && j <= i && multiset(b) == multiset(ns[..i])
    requires forall k :: 0 <= k < j ==> CompareByFreq(s[i], ByFrequency(s[..i])[k]) > 0
    requires j < i ==> CompareByFreq(s[i], ByFrequency(s[..i])[j]) <= 0
    ensures multiset(b[..j] + [ns[i]] + b[j..]) == multiset(ns[..i + 1])
    ensures ByFrequency(s[..i + 1]) == ByFrequency(s[..i])[..j] + [s[i]] + ByFrequency(s[..i])[j..]
  {
    ByFrequencyStep(s, i, j);
    SpliceMultiset(b, j, ns[i]);
    assert ns[..i + 1] == ns[..i] + [ns[i]];
  }

  /** A node of the dictionary: its record, the word-order link and the frequency-order link. */
  class Node {
    var data: WordRec
    var link: Node?
    var link2: Node?

    constructor (data: WordRec)
      ensures this.data == data && link == null && link2 == null
    {
      this.data := data;
      link := null;
      link2 := null;
    }
  }

  /**
   * `createList`: an empty dictionary with both chains empty, or none when
   * the header cannot be allocated.
   */
  method CreateList(allocFails: bool) returns (list: List?)
    ensures list == null <==> allocFails
    ensures list != null ==> fresh(list) && list.Valid() && list.FreqLinked()
    ensures list != null ==> list.Contents == [] && list.FreqContents == []
    ensures list != null ==> list.count == 0 && list.head == null && list.head2 == null
  {
    if allocFails {
      return null;
    }
    list := new List();
  }

  /** The dictionary header (`LIST`). */
  class List {
    var count: int
    var head: Node?
    var head2: Node?
    ghost var Nodes: seq<Node>
    ghost var Contents: seq<WordRec>
    ghost var ByFreq: seq<Node>
    ghost var FreqContents: seq<WordRec>

    /** The word chain and its records agree with `Nodes` and `Contents`, in word order. */
    ghost predicate Linked()
      reads this`head, this`Nodes, this`Contents, Nodes`link, Nodes`data
    {
      && |Contents| == |Nodes|
      && Distinct(Nodes)
      && (forall i :: 0 <= i < |Nodes| ==> Nodes[i].data == Contents[i])
      && head == (if Nodes == [] then null else Nodes[0])
      && (forall i {:trigger Nodes[i].link} :: 0 <= i < |Nodes| - 1 ==> Nodes[i].link == Nodes[i + 1])
      && (Nodes != [] ==> Nodes[|Nodes| - 1].link == null)
      && StrictlyAscending(CompareByWord, Contents)
    }

    /** The dictionary invariant: the word chain is linked and `count` is its length. */
    ghost predicate Valid()
      reads this`count, this`head, this`Nodes, this`Contents, Nodes`link, Nodes`data
    {
      Linked() && count == |Nodes|
    }

    /** The frequency chain and its records agree with `ByFreq` and `FreqContents`. */
    ghost predicate FreqLinked()
      reads this`head2, this`ByFreq, this`FreqContents, ByFreq`link2, ByFreq`data
    {
      && |FreqContents| == |ByFreq|
      && Distinct(ByFreq)
      && (forall i :: 0 <= i < |ByFreq| ==> ByFreq[i].data == FreqContents[i])
      && head2 == (if ByFreq == [] then null else ByFreq[0])
      && (forall i {:trigger ByFreq[i].link2} :: 0 <= i < |ByFreq| - 1 ==> ByFreq[i].link2 == ByFreq[i + 1])
      && (ByFreq != [] ==> ByFreq[|ByFreq| - 1].link2 == null)
    }

    /** The header `createList` fills in. */
    constructor ()
      ensures Valid() && FreqLinked()
      ensures Nodes == [] && Contents == [] && ByFreq == [] && FreqContents == []
      ensures count == 0 && head == null && head2 == null
    {
      count := 0;
      head := null;
      head2 := null;
      Nodes := [];
      Contents := [];
      ByFreq := [];
      FreqContents := [];
    }

    /**
     * `_search`: walks the word chain while the node's word is below the
     * key's.  On return `pLoc` is the first node whose word is not below the
     * key (or null), `pPre` the node before it (or null), and `found` says
     * whether `pLoc` holds the key's word, which happens exactly when the
     * word is stored at all.
     */
    method Search(key: WordRec) returns (found: bool, pPre: Node?, pLoc: Node?, ghost idx: nat)
      requires Valid()
      ensures idx <= |Nodes|
      ensures pPre == (if idx == 0 then null else Nodes[idx - 1])
      ensures pLoc == (if idx < |Nodes| then Nodes[idx] else null)
      ensures forall k :: 0 <= k < idx ==> Strcmp(Contents[k].word, key.word) < 0
      ensures idx < |Contents| ==> Strcmp(Contents[idx].word, key.word) >= 0
      ensures found <==> pLoc != null && Contents[idx].word == key.word
      ensures found <==> exists k :: 0 <= k < |Contents| && Contents[k].word == key.word
    {
      var cur := head;
      var prev: Node? := null;
      idx := 0;
      while cur != null && CompareByWord(cur.data, key) < 0
        invariant idx <= |Nodes|
        invariant prev == (if idx == 0 then null else Nodes[idx - 1])
        invariant cur == (if idx < |Nodes| then Nodes[idx] else null)
        invariant forall k :: 0 <= k < idx ==> CompareByWord(Contents[k], key) < 0
        decreases |Nodes| - idx
      {
        prev := cur;
        cur := cur.link;
        idx := idx + 1;
      }
      pPre, pLoc := prev, cur;
      found := cur != null && CompareByWord(cur.data, key) == 0;
      WordScanFindsAllMatches(Contents, idx, key);
    }

    /**
     * `addNode`: reads one word record.  When the word is stored already its
     * record gets one more occurrence and the result is 2; otherwise
     * `dataIn` is linked in at its place in word order, `count` goes up and
     * the result is 1, unless the node cannot be allocated (0, nothing
     * changes).  Either way the records become `AddWord(old(Contents), dataIn)`.
     */
    method AddNode(dataIn: WordRec, allocFails: bool) returns (r: int)
      requires Valid()
      modifies this`head, this`count, this`Nodes, this`Contents, Nodes
      ensures Valid()
      ensures Find(CompareByWord, old(Contents), dataIn).Some? ==>
        r == 2 && Contents == AddWord(old(Contents), dataIn)
      ensures Find(CompareByWord, old(Contents), dataIn).None? && !allocFails ==>
        r == 1 && Contents == AddWord(old(Contents), dataIn)
      ensures Find(CompareByWord, old(Contents), dataIn).None? && allocFails ==>
        r == 0 && Contents == old(Contents)
    {
      var found, pPre, pLoc;
      ghost var idx;
      found, pPre, pLoc, idx := Search(dataIn);
      ghost var s := Contents;
      if found {
        BumpFreq(pLoc, idx, dataIn);
        return 2;
      }
      if idx < |Contents| {
        StrcmpAntisymmetric(Contents[idx].word, dataIn.word);
      }
      r := Insert(pPre, dataIn, allocFails, idx);
      AddWordInserts(s, dataIn, idx);
    }

    /**
     * `pLoc->dataPtr->freq++` in `addNode`: the record of the node at `idx`
     * counts one more occurrence of its word; no link changes.
     */
    method BumpFreq(pLoc: Node, ghost idx: nat, ghost x: WordRec)
      requires Valid() && idx < |Nodes| && pLoc == Nodes[idx]
      requires forall k :: 0 <= k < idx ==> Strcmp(Contents[k].word, x.word) < 0
      requires Contents[idx].word == x.word
      modifies this`Contents, pLoc`data
      ensures Valid()
      ensures Find(CompareByWord, old(Contents), x).Some? && Contents == AddWord(old(Contents), x)
    {
      AddWordBumps(Contents, x, idx);
      pLoc.data := WordRec(pLoc.data.word, pLoc.data.freq + 1);
      Contents := Contents[idx := pLoc.data];
      BumpKeepsLinked(idx);
    }

    /**
     * `_insert`: links a new node holding `dataIn` in after `pPre` (at the
     * head when `pPre` is null) and counts it, or reports an allocation
     * failure and changes nothing.  The new node starts outside the
     * frequency chain, with a null `link2`.
     */
    method Insert(pPre: Node?, dataIn: WordRec, allocFails: bool, ghost idx: nat) returns (r: int)
      requires Valid()
      requires idx <= |Nodes| && pPre == (if idx == 0 then null else Nodes[idx - 1])
      requires idx > 0 ==> Strcmp(Contents[idx - 1].word, dataIn.word) < 0
      requires idx < |Contents| ==> Strcmp(dataIn.word, Contents[idx].word) < 0
      modifies this`head, this`count, this`Nodes, this`Contents, Nodes
      ensures Valid() && r == (if allocFails then 0 else 1)
      ensures r == 0 ==> unchanged(this) && unchanged(Nodes)
      ensures r == 1 ==> count == old(count) + 1
      ensures r == 1 ==> Contents == old(Contents)[..idx] + [dataIn] + old(Contents)[idx..]
      ensures r == 1 ==> |Nodes| == |old(Nodes)| + 1 && fresh(Nodes[idx]) && Nodes[idx].link2 == null
      ensures r == 1 ==> Nodes == old(Nodes)[..idx] + [Nodes[idx]] + old(Nodes)[idx..]
    {
      if allocFails {
        return 0;
      }
      if pPre == null {
        LinkFirst(dataIn);
      } else {
        LinkAfter(pPre, dataIn, idx);
      }
      CountUp();
      return 1;
    }

    /** The `pPre == NULL` branch of `_insert`: the new node becomes `head`. */
    method LinkFirst(dataIn: WordRec)
      requires Valid()
      requires 0 < |Contents| ==> Strcmp(dataIn.word, Contents[0].word) < 0
      modifies this`head, this`Nodes, this`Contents
      ensures Linked() && count == old(count)
      ensures Contents == [dataIn] + old(Contents)
      ensures |Nodes| == |old(Nodes)| + 1 && fresh(Nodes[0]) && Nodes[0].link2 == null
      ensures Nodes == [Nodes[0]] + old(Nodes)
    {
      ghost var oldNodes, oldContents := Nodes, Contents;
      var newNode := new Node(dataIn);
      newNode.link := head;
      head := newNode;
      Nodes := [newNode] + oldNodes;
      Contents := [dataIn] + oldContents;
      assert Nodes == oldNodes[..0] + [newNode] + oldNodes[0..];
      assert Contents == oldContents[..0] + [dataIn] + oldContents[0..];
      SpliceKeepsLinked(0, newNode);
    }

    /** The `pPre != NULL` branch of `_insert`: the new node follows `pPre`. */
    method LinkAfter(pPre: Node, dataIn: WordRec, ghost idx: nat)
      requires Valid()
      requires 0 < idx <= |Nodes| && pPre == Nodes[idx - 1]
      requires Strcmp(Contents[idx - 1].word, dataIn.word) < 0
      requires idx < |Contents| ==> Strcmp(dataIn.word, Contents[idx].word) < 0
      modifies this`Nodes, this`Contents, pPre`link
      ensures Linked() && count == old(count)
      ensures Contents == old(Contents)[..idx] + [dataIn] + old(Contents)[idx..]
      ensures |Nodes| == |old(Nodes)| + 1 && fresh(Nodes[idx]) && Nodes[idx].link2 == null
      ensures Nodes == old(Nodes)[..idx] + [Nodes[idx]] + old(Nodes)[idx..]
    {
      ghost var oldNodes, oldContents := Nodes, Contents;
      var newNode := new Node(dataIn);
      newNode.link := pPre.link;
      pPre.link := newNode;
      Nodes := oldNodes[..idx] + [newNode] + oldNodes[idx..];
      Contents := oldContents[..idx] + [dataIn] + oldContents[idx..];
      SpliceKeepsLinked(idx, newNode);
    }

    /** `pList->count++` in `_insert`, once the node has been linked in. */
    method CountUp()
      requires Linked() && count + 1 == |Nodes|
      modifies this`count
      ensures Valid()
    {
      label Before:
      count := count + 1;
      CountKeepsLinked@Before();
    }

    /**
     * `destroyList`: releases every record along the word chain, in word
     * order; the model leaves the header empty.
     */
    method Destroy() returns (released: seq<WordRec>)
      requires Valid()
      modifies this
      ensures released == old(Contents)
      ensures Valid() && FreqLinked() && Nodes == [] && ByFreq == []
    {
      var cur := head;
      released := [];
      ghost var i := 0;
      while cur != null
        invariant 0 <= i <= |Nodes|
        invariant cur == (if i < |Nodes| then Nodes[i] else null)
        invariant released == Contents[..i]
        decreases |Nodes| - i
      {
        var temp := cur.link;
        released := released + [cur.data];
        cur := temp;
        i := i + 1;
      }
      count := 0;
      head := null;
      head2 := null;
      Nodes, Contents := [], [];
      ByFreq, FreqContents := [], [];
    }

    /**
     * `connect_by_frequency`: rebuilds the frequency chain.  It takes the
     * nodes in word order and links each in front of the first node of the
     * chain built so far that does not compare below it by
     * `compare_by_freq`.  Afterwards the chain from `head2` holds every node
     * of the word chain exactly once, with records in `ByFrequency` order,
     * strictly ascending by `compare_by_freq`; the word chain, `count` and
     * every record are as before.
     */
    method ConnectByFrequency()
      requires Valid()
      modifies this`head2, this`ByFreq, this`FreqContents, Nodes`link2
      ensures Valid() && FreqLinked()
      ensures multiset(ByFreq) == multiset(Nodes)
      ensures FreqContents == ByFrequency(Contents)
      ensures StrictlyAscending(CompareByFreq, FreqContents)
    {
      var cur := head;
      head2 := null;
      ByFreq, FreqContents := [], [];
      ghost var i := 0;
      while cur != null
        invariant Valid() && FreqLinked()
        invariant 0 <= i <= |Nodes|
        invariant cur == (if i < |Nodes| then Nodes[i] else null)
        invariant |ByFreq| == i && multiset(ByFreq) == multiset(Nodes[..i])
        invariant FreqContents == ByFrequency(Contents[..i])
        decreases |Nodes| - i
      {
        cur := ConnectNode(cur, i);
        i := i + 1;
      }
      assert Nodes[..i] == Nodes && Contents[..i] == Contents;
      ByFrequencyAscending(Contents);
    }

    /**
     * One pass of the outer loop of `connect_by_frequency`: the word-chain
     * node at index `i` is linked into the frequency chain, which then
     * holds the records of the first `i + 1` word-chain nodes in
     * `ByFrequency` order; `next` is the word-chain node after it.
     */
    method ConnectNode(cur: Node, ghost i: nat) returns (next: Node?)
      requires Valid() && FreqLinked()
      requires i < |Nodes| && cur == Nodes[i]
      requires |ByFreq| == i && multiset(ByFreq) == multiset(Nodes[..i])
      requires FreqContents == ByFrequency(Contents[..i])
      modifies this`head2, this`ByFreq, this`FreqContents, Nodes`link2
      ensures Valid() && FreqLinked()
      ensures next == (if i + 1 < |Nodes| then Nodes[i + 1] else null)
      ensures |ByFreq| == i + 1 && multiset(ByFreq) == multiset(Nodes[..i + 1])
      ensures FreqContents == ByFrequency(Contents[..i + 1])
    {
      assert cur.data == Contents[i];
      next := cur.link;
      assert next == (if i + 1 < |Nodes| then Nodes[i + 1] else null);
      var pPre, pLoc, j := FreqScan(cur.data);
      DistinctNotEarlier(Nodes, i, ByFreq);
      ghost var oldByFreq := ByFreq;
      if pPre != null {
        assert pPre in multiset(Nodes[..i]);
      }
      LinkByFreq(pPre, cur, j);
      ConnectStep(Nodes, Contents, oldByFreq, i, j);
    }

    /**
     * The inner loop of `connect_by_frequency`: walks the frequency chain
     * while `x` compares above the node's record by `compare_by_freq`; on
     * return `pLoc` is the first node whose record `x` does not compare
     * above (or null) and `pPre` the node before it (or null).
     */
    method FreqScan(x: WordRec) returns (pPre: Node?, pLoc: Node?, ghost j: nat)
      requires FreqLinked()
      ensures j <= |ByFreq|
      ensures pPre == (if j == 0 then null else ByFreq[j - 1])
      ensures pLoc == (if j < |ByFreq| then ByFreq[j] else null)
      ensures forall k :: 0 <= k < j ==> CompareByFreq(x, FreqContents[k]) > 0
      ensures j < |ByFreq| ==> CompareByFreq(x, FreqContents[j]) <= 0
    {
      pPre := null;
      pLoc := head2;
      j := 0;
      while pLoc != null && CompareByFreq(x, pLoc.data) > 0
        invariant j <= |ByFreq|
        invariant pPre == (if j == 0 then null else ByFreq[j - 1])
        invariant pLoc == (if j < |ByFreq| then ByFreq[j] else null)
        invariant forall k :: 0 <= k < j ==> CompareByFreq(x, FreqContents[k]) > 0
        decreases |ByFreq| - j
      {
        pPre := pLoc;
        pLoc := pLoc.link2;
        j := j + 1;
      }
    }

    /**
     * `_search_by_freq`: walks the frequency chain while the node's record
     * compares below the key by `compare_by_freq`; on return `pLoc` is the
     * first node that does not (or null), `pPre` the node before it (or
     * null), and `found` says whether `pLoc` holds the key itself; on a
     * strictly ascending chain that is exactly when the key is in the chain.
     */
    method SearchByFreq(key: WordRec) returns (found: bool, pPre: Node?, pLoc: Node?, ghost idx: nat)
      requires FreqLinked()
      ensures idx <= |ByFreq|
      ensures pPre == (if idx == 0 then null else ByFreq[idx - 1])
      ensures pLoc == (if idx < |ByFreq| then ByFreq[idx] else null)
      ensures forall k :: 0 <= k < idx ==> CompareByFreq(FreqContents[k], key) < 0
      ensures idx < |FreqContents| ==> CompareByFreq(FreqContents[idx], key) >= 0
      ensures found <==> pLoc != null && FreqContents[idx] == key
      ensures StrictlyAscending(CompareByFreq, FreqContents) ==> (found <==> key in FreqContents)
    {
      var cur := head2;
      var prev: Node? := null;
      idx := 0;
      while cur != null && CompareByFreq(cur.data, key) < 0
        invariant idx <= |ByFreq|
        invariant prev == (if idx == 0 then null else ByFreq[idx - 1])
        invariant cur == (if idx < |ByFreq| then ByFreq[idx] else null)
        invariant forall k :: 0 <= k < idx ==> CompareByFreq(FreqContents[k], key) < 0
        decreases |ByFreq| - idx
      {
        prev := cur;
        cur := cur.link2;
        idx := idx + 1;
      }
      pPre, pLoc := prev, cur;
      found := cur != null && CompareByFreq(cur.data, key) == 0;
      if StrictlyAscending(CompareByFreq, FreqContents) {
        CompareByFreqIsComparator();
        ScanFindsAllMatches(CompareByFreq, FreqContents, idx, key);
      }
    }

    /**
     * `_link_by_freq`, whose code `connect_by_frequency` repeats inline:
     * links `pLoc` into the frequency chain right after `pPre`, or at its
     * front when `pPre` is null.  Only `head2` and `link2` fields change.
     */
    method LinkByFreq(pPre: Node?, pLoc: Node, ghost j: nat)
      requires Valid() && FreqLinked() && j <= |ByFreq| && pLoc !in ByFreq
      requires pPre == (if j == 0 then null else ByFreq[j - 1])
      requires pLoc in Nodes && (pPre != null ==> pPre in Nodes)
      modifies this`head2, this`ByFreq, this`FreqContents, Nodes`link2
      ensures Valid() && FreqLinked()
      ensures ByFreq == old(ByFreq)[..j] + [pLoc] + old(ByFreq)[j..]
      ensures FreqContents == old(FreqContents)[..j] + [pLoc.data] + old(FreqContents)[j..]
    {
      if pPre == null {
        LinkFreqFirst(pLoc);
        assert ByFreq == old(ByFreq)[..0] + [pLoc] + old(ByFreq)[0..];
        assert FreqContents == old(FreqContents)[..0] + [pLoc.data] + old(FreqContents)[0..];
      } else {
        LinkFreqAfter(pPre, pLoc, j);
      }
    }

    /**
     * The `pPre == NULL` branch of `_link_by_freq` (inlined in
     * `connect_by_frequency`): `pLoc` goes to the front of the frequency chain.
     */
    method LinkFreqFirst(pLoc: Node)
      requires Valid() && FreqLinked() && pLoc !in ByFreq
      modifies this`head2, this`ByFreq, this`FreqContents, pLoc`link2
      ensures Valid() && FreqLinked()
      ensures ByFreq == [pLoc] + old(ByFreq) && FreqContents == [pLoc.data] + old(FreqContents)
    {
      ghost var oldByFreq, oldFreqContents := ByFreq, FreqContents;
      pLoc.link2 := head2;
      head2 := pLoc;
      ByFreq := [pLoc] + oldByFreq;
      FreqContents := [pLoc.data] + oldFreqContents;
      assert ByFreq == oldByFreq[..0] + [pLoc] + oldByFreq[0..];
      DistinctSplice(oldByFreq, 0, pLoc);
      forall i | 0 < i < |ByFreq| - 1 ensures ByFreq[i].link2 == ByFreq[i + 1] {
        assert ByFreq[i] == oldByFreq[i - 1] != pLoc;
      }
      if oldByFreq != [] {
        assert ByFreq[|ByFreq| - 1] == oldByFreq[|oldByFreq| - 1] != pLoc;
      }
    }

    /**
     * The `pPre != NULL` branch of `_link_by_freq` (inlined in
     * `connect_by_frequency`): `pLoc` goes in right after `pPre`.
     */
    method LinkFreqAfter(pPre: Node, pLoc: Node, ghost j: nat)
      requires Valid() && FreqLinked() && pLoc !in ByFreq
      requires 0 < j <= |ByFreq| && pPre == ByFreq[j - 1]
      modifies this`ByFreq, this`FreqContents, pLoc`link2, pPre`link2
      ensures Valid() && FreqLinked()
      ensures ByFreq == old(ByFreq)[..j] + [pLoc] + old(ByFreq)[j..]
      ensures FreqContents == old(FreqContents)[..j] + [pLoc.data] + old(FreqContents)[j..]
    {
      ghost var oldByFreq, oldFreqContents := ByFreq, FreqContents;
      pLoc.link2 := pPre.link2;
      pPre.link2 := pLoc;
      ByFreq := oldByFreq[..j] + [pLoc] + oldByFreq[j..];
      FreqContents := oldFreqContents[..j] + [pLoc.data] + oldFreqContents[j..];
      ChainSpliceKeepsLinked(j, pLoc);
    }

    /**
     * The pointer work of `_insert` re-establishes `Linked()`: node `n` now
     * sits at index `idx`, its predecessor points at it, and no other link
     * of an old node moved.
     */
    twostate lemma SpliceKeepsLinked(idx: nat, new n: Node)
      requires old(Linked()) && idx <= |old(Nodes)| && !old(allocated(n))
      requires Nodes == old(Nodes)[..idx] + [n] + old(Nodes)[idx..]
      requires Contents == old(Contents)[..idx] + [n.data] + old(Contents)[idx..]
      requires idx > 0 ==> Strcmp(old(Contents)[idx - 1].word, n.data.word) < 0
      requires idx < |old(Contents)| ==> Strcmp(n.data.word, old(Contents)[idx].word) < 0
      requires n.link == (if idx < |old(Nodes)| then old(Nodes)[idx] else null)
      requires idx > 0 ==> old(Nodes)[idx - 1].link == n
      requires head == Nodes[0]
      requires forall m: Node :: old(allocated(m)) ==> m.data == old(m.data)
      requires forall m: Node :: old(allocated(m)) && (idx == 0 || m != old(Nodes)[idx - 1]) ==> m.link == old(m.link)
      ensures Linked()
    {
      ghost var o := old(Nodes);
      SpliceIndices(o, idx, n);
      SpliceIndices(old(Contents), idx, n.data);
      WordInsertKeepsAscending(old(Contents), idx, n.data);
      forall i | 0 <= i < |Nodes| ensures Nodes[i].data == Contents[i] {
        if i < idx {
          assert old(Nodes[i].data) == old(Contents[i]);
        } else if i > idx {
          assert old(Nodes[i - 1].data) == old(Contents[i - 1]);
        }
      }
      forall i | 0 <= i < |Nodes| - 1 ensures Nodes[i].link == Nodes[i + 1] {
        if i < idx - 1 {
          DistinctAt(o, i, idx - 1);
          assert old(Nodes[i].link) == o[i + 1];
        } else if i > idx {
          if idx > 0 { DistinctAt(o, i - 1, idx - 1); }
          assert old(Nodes[i - 1].link) == o[i];
        }
      }
      if idx < |o| {
        if idx > 0 { DistinctAt(o, |o| - 1, idx - 1); }
        assert old(o[|o| - 1].link) == null;
      }
      DistinctSplice(o, idx, n);
    }

    /** Updating `count` alone keeps `Linked()`, which does not read it. */
    twostate lemma CountKeepsLinked()
      requires old(Linked())
      requires head == old(head) && Nodes == old(Nodes) && Contents == old(Contents)
      requires unchanged(Nodes)
      ensures Linked()
    {
    }

    /**
     * Bumping the frequency of the record at `idx` in place keeps `Linked()`:
     * its word, and so the order, is unchanged, and no link moved.
     */
    twostate lemma BumpKeepsLinked(idx: nat)
      requires old(Linked()) && idx < |old(Nodes)|
      requires Nodes == old(Nodes) && head == old(head)
      requires Nodes[idx].data.word == old(Nodes[idx].data.word)
      requires Contents == old(Contents)[idx := Nodes[idx].data]
      requires forall m: Node :: old(allocated(m)) && m != Nodes[idx] ==> m.data == old(m.data)
      requires forall m: Node :: old(allocated(m)) ==> m.link == old(m.link)
      ensures Linked()
    {
      SameWordKeepsAscending(old(Contents), idx, Nodes[idx].data);
      forall i | 0 <= i < |Nodes| ensures Nodes[i].data == Contents[i] {
        if i != idx {
          DistinctAt(Nodes, i, idx);
          assert old(Nodes[i].data) == old(Contents[i]);
        }
      }
      forall i | 0 <= i < |Nodes| - 1 ensures Nodes[i].link == Nodes[i + 1] {
        assert old(Nodes[i].link) == Nodes[i + 1];
      }
    }

    /**
     * Linking node `n` into the frequency chain at index `j` re-establishes
     * `FreqLinked()`: its predecessor (or `head2`) points at it, it points
     * at the old node at `j`, and no other frequency link moved.
     */
    twostate lemma ChainSpliceKeepsLinked(j: nat, new n: Node)
      requires old(FreqLinked()) && j <= |old(ByFreq)| && n !in old(ByFreq)
      requires ByFreq == old(ByFreq)[..j] + [n] + old(ByFreq)[j..]
      requires FreqContents == old(FreqContents)[..j] + [n.data] + old(FreqContents)[j..]
      requires n.link2 == (if j < |old(ByFreq)| then old(ByFreq)[j] else null)
      requires j > 0 ==> old(ByFreq)[j - 1].link2 == n
      requires head2 == ByFreq[0]
      requires forall m: Node :: old(allocated(m)) ==> m.data == old(m.data)
      requires forall m: Node :: old(allocated(m)) && m != n && (j == 0 || m != old(ByFreq)[j - 1]) ==> m.link2 == old(m.link2)
      ensures FreqLinked()
    {
      ghost var o := old(ByFreq);
      SpliceIndices(o, j, n);
      SpliceIndices(old(FreqContents), j, n.data);
      forall i | 0 <= i < |ByFreq| ensures ByFreq[i].data == FreqContents[i] {
        if i < j {
          assert old(ByFreq[i].data) == old(FreqContents[i]);
        } else if i > j {
          assert old(ByFreq[i - 1].data) == old(FreqContents[i - 1]);
        }
      }
      forall i | 0 <= i < |ByFreq| - 1 ensures ByFreq[i].link2 == ByFreq[i + 1] {
        if i < j - 1 {
          DistinctAt(o, i, j - 1);
          assert old(ByFreq[i].link2) == o[i + 1];
        } else if i > j {
          if j > 0 { DistinctAt(o, i - 1, j - 1); }
          assert old(ByFreq[i - 1].link2) == o[i];
        }
      }
      if j < |o| {
        if j > 0 { DistinctAt(o, |o| - 1, j - 1); }
        assert old(o[|o| - 1].link2) == null;
      }
      DistinctSplice(o, j, n);
    }
  }
}
