/**
 * The word record shared by the word list and the word dictionary, and the
 * comparators the two programs order it by.
 *
 * A record pairs an immutable word with its frequency.  Words are compared
 * as `strcmp` does: character by character, the first difference deciding,
 * and a proper prefix sorting first (a C string ends at its terminating NUL,
 * which is smaller than every character of a word).  `strcmp` only promises
 * the sign of its result; the model returns -1, 0 or 1.
 */
module Words {
  import opened Order
  import opened Wrappers

  /** One dictionary entry (`tWord`): the word and how often it was read. */
  datatype WordRec = WordRec(word: string, freq: int)

  /** Lexicographic three-way comparison of two strings, as `strcmp`. */
  function Strcmp(a: string, b: string): (r: int)
    ensures -1 <= r <= 1
    ensures r == 0 <==> a == b
    decreases |a|
  {
    if a == [] && b == [] then 0
    else if a == [] then -1
    else if b == [] then 1
    else if a[0] < b[0] then -1
    else if a[0] > b[0] then 1
    else Strcmp(a[1..], b[1..])
  }

  /** Swapping the arguments of `Strcmp` negates its result. */
  lemma {:induction false} StrcmpAntisymmetric(a: string, b: string)
    ensures Strcmp(a, b) == -Strcmp(b, a)
    decreases |a|
  {
    if a != [] && b != [] && a[0] == b[0] {
      StrcmpAntisymmetric(a[1..], b[1..]);
    }
  }

  /** `Strcmp` is transitive. */
  lemma {:induction false} StrcmpTransitive(a: string, b: string, c: string)
    requires Strcmp(a, b) < 0 && Strcmp(b, c) < 0
    ensures Strcmp(a, c) < 0
    decreases |a|
  {
    if a != [] && b != [] && c != [] && a[0] == b[0] && b[0] == c[0] {
      StrcmpTransitive(a[1..], b[1..], c[1..]);
    }
  }

  /** `Strcmp` is a three-way ordering of strings. */
  lemma StrcmpIsComparator()
    ensures IsComparator(Strcmp)
  {
    forall a, b ensures Strcmp(a, b) < 0 <==> Strcmp(b, a) > 0 {
      StrcmpAntisymmetric(a, b);
    }
    forall a, b, c ensures Chains(Strcmp, a, b, c) {
      if Strcmp(a, b) < 0 && Strcmp(b, c) < 0 {
        StrcmpTransitive(a, b, c);
      }
    }
  }

  /** `compare_by_word`: the order of two records is the `strcmp` order of their words. */
  function CompareByWord(p1: WordRec, p2: WordRec): (r: int)
    ensures r < 0 <==> Strcmp(p1.word, p2.word) < 0
    ensures r == 0 <==> p1.word == p2.word
  {
    Strcmp(p1.word, p2.word)
  }

  /** `compare_by_word` is a three-way ordering of records. */
  lemma CompareByWordIsComparator()
    ensures IsComparator(CompareByWord)
  {
    StrcmpIsComparator();
    forall a, b, c ensures Chains(CompareByWord, a, b, c) {
      assert Chains(Strcmp, a.word, b.word, c.word);
    }
  }

  /**
   * A forward scan of a word-ordered sequence that stops at the first record
   * whose word is not below the key's has seen every record with that word.
   */
  lemma WordScanFindsAllMatches(s: seq<WordRec>, i: nat, key: WordRec)
    requires StrictlyAscending(CompareByWord, s) && i <= |s|
    requires forall k :: 0 <= k < i ==> CompareByWord(s[k], key) < 0
    requires i < |s| ==> CompareByWord(s[i], key) >= 0
    ensures (exists k :: 0 <= k < |s| && s[k].word == key.word) <==> i < |s| && s[i].word == key.word
  {
    CompareByWordIsComparator();
    ScanFindsAllMatches(CompareByWord, s, i, key);
  }

  /**
   * Where a forward scan of a word-ordered sequence stops, lookup and removal
   * are decided: the record there is the one found and the one cut out when
   * it holds the key's word, and otherwise the word is absent.
   */
  lemma ScanDecides(s: seq<WordRec>, i: nat, key: WordRec)
    requires StrictlyAscending(CompareByWord, s) && i <= |s|
    requires forall k :: 0 <= k < i ==> Strcmp(s[k].word, key.word) < 0
    requires i < |s| ==> Strcmp(s[i].word, key.word) >= 0
    ensures i < |s| && s[i].word == key.word ==>
      Find(CompareByWord, s, key) == Some(s[i]) && Remove(CompareByWord, s, key) == s[..i] + s[i + 1..]
    ensures !(i < |s| && s[i].word == key.word) ==>
      Find(CompareByWord, s, key) == None && Remove(CompareByWord, s, key) == s
  {
    WordScanFindsAllMatches(s, i, key);
    if i < |s| && s[i].word == key.word {
      FindFirst(CompareByWord, s, key, i);
      RemoveFirstMatch(CompareByWord, s, key, i);
    } else {
      FindSpec(CompareByWord, s, key);
      RemoveNoMatch(CompareByWord, s, key);
    }
  }

  /** Splicing a record in between two neighbours with smaller and larger words keeps word order. */
  lemma WordInsertKeepsAscending(s: seq<WordRec>, i: nat, x: WordRec)
    requires StrictlyAscending(CompareByWord, s) && i <= |s|
    requires i > 0 ==> Strcmp(s[i - 1].word, x.word) < 0
    requires i < |s| ==> Strcmp(x.word, s[i].word) < 0
    ensures StrictlyAscending(CompareByWord, s[..i] + [x] + s[i..])
  {
    CompareByWordIsComparator();
    InsertKeepsAscending(CompareByWord, s, i, x);
  }

  /**
   * `compare_by_freq`: the record with the higher frequency sorts first, and
   * records of equal frequency sort by word.  The frequencies are the
   * positive counts of a dictionary, so the C difference `p2->freq - p1->freq`
   * cannot overflow.
   */
  function CompareByFreq(p1: WordRec, p2: WordRec): (r: int)
    ensures p1.freq > p2.freq ==> r < 0
    ensures p1.freq < p2.freq ==> r > 0
    ensures p1.freq == p2.freq ==> r == Strcmp(p1.word, p2.word)
    ensures r == 0 <==> p1 == p2
  {
    var ret := p2.freq - p1.freq;
    if ret != 0 then ret else Strcmp(p1.word, p2.word)
  }

  /** `compare_by_freq` is a three-way ordering of records. */
  lemma CompareByFreqIsComparator()
    ensures IsComparator(CompareByFreq)
  {
    forall a, b ensures CompareByFreq(a, b) < 0 <==> CompareByFreq(b, a) > 0 {
      StrcmpAntisymmetric(a.word, b.word);
    }
    forall a, b, c ensures Chains(CompareByFreq, a, b, c) {
      if a.freq == b.freq == c.freq && Strcmp(a.word, b.word) < 0 && Strcmp(b.word, c.word) < 0 {
        StrcmpTransitive(a.word, b.word, c.word);
      }
    }
  }

  /**
   * `createWord`: a fresh record for `word` with frequency 1, or nothing when
   * the allocation fails.
   */
  function CreateWord(word: string, allocFails: bool): (r: Option<WordRec>)
    ensures r.None? <==> allocFails
    ensures r.Some? ==> r.value.word == word && r.value.freq == 1
  {
    if allocFails then None else Some(WordRec(word, 1))
  }

  /** How often `w` has been read: the stored frequency of `w`, or 0 when it is not stored. */
  function FreqOf(s: seq<WordRec>, w: string): (n: int)
    ensures (exists k :: 0 <= k < |s| && s[k].word == w) || n == 0
  {
    FindSpec(CompareByWord, s, WordRec(w, 0));
    match Find(CompareByWord, s, WordRec(w, 0))
    case None => 0
    case Some(r) => r.freq
  }

  /**
   * The records after `addNode` has read `x`: a stored record with the same
   * word gets one more occurrence (`freq++`), otherwise `x` goes in at its
   * place in word order.
   */
  function AddWord(s: seq<WordRec>, x: WordRec): (r: seq<WordRec>)
    ensures |r| == |s| || |r| == |s| + 1
  {
    var i := Position(CompareByWord, s, x);
    if i < |s| && s[i].word == x.word then
      s[i := WordRec(s[i].word, s[i].freq + 1)]
    else
      InsertSorted(CompareByWord, s, x)
  }

  /**
   * When the scan for `x` stops at `i` on a record with x's word, `x`'s word
   * is stored and `AddWord` bumps that record.
   */
  lemma AddWordBumps(s: seq<WordRec>, x: WordRec, i: nat)
    requires i < |s| && s[i].word == x.word
    requires forall k :: 0 <= k < i ==> Strcmp(s[k].word, x.word) < 0
    ensures Find(CompareByWord, s, x) == Some(s[i])
    ensures AddWord(s, x) == s[i := WordRec(s[i].word, s[i].freq + 1)]
  {
    PositionIs(CompareByWord, s, x, i);
    FindFirst(CompareByWord, s, x, i);
  }

  /**
   * When the scan for `x` stops at `i` anywhere else, `x`'s word is not
   * stored and `AddWord` splices `x` in at `i`.
   */
  lemma AddWordInserts(s: seq<WordRec>, x: WordRec, i: nat)
    requires StrictlyAscending(CompareByWord, s) && i <= |s|
    requires forall k :: 0 <= k < i ==> Strcmp(s[k].word, x.word) < 0
    requires i < |s| ==> Strcmp(s[i].word, x.word) > 0
    ensures Find(CompareByWord, s, x).None?
    ensures AddWord(s, x) == s[..i] + [x] + s[i..]
  {
    PositionIs(CompareByWord, s, x, i);
    WordScanFindsAllMatches(s, i, x);
    FindSpec(CompareByWord, s, x);
    assert AddWord(s, x) == InsertSorted(CompareByWord, s, x);
    InsertSortedAtPosition(CompareByWord, s, x);
  }

  /**
   * Where a forward scan for `x` stops, `AddWord` is decided: it bumps the
   * record there when that record holds x's word, and splices `x` in there
   * otherwise.
   */
  lemma AddWordAfterScan(s: seq<WordRec>, x: WordRec, i: nat)
    requires StrictlyAscending(CompareByWord, s) && i <= |s|
    requires forall k :: 0 <= k < i ==> Strcmp(s[k].word, x.word) < 0
    requires i < |s| ==> Strcmp(s[i].word, x.word) >= 0
    ensures i < |s| && s[i].word == x.word ==>
      Find(CompareByWord, s, x) == Some(s[i]) && AddWord(s, x) == s[i := WordRec(s[i].word, s[i].freq + 1)]
    ensures !(i < |s| && s[i].word == x.word) ==>
      Find(CompareByWord, s, x) == None && AddWord(s, x) == s[..i] + [x] + s[i..]
  {
    if i < |s| && s[i].word == x.word {
      AddWordBumps(s, x, i);
    } else {
      AddWordInserts(s, x, i);
    }
  }

  /** Replacing a record by one with the same word keeps word order. */
  lemma SameWordKeepsAscending(s: seq<WordRec>, i: nat, y: WordRec)
    requires StrictlyAscending(CompareByWord, s) && i < |s| && y.word == s[i].word
    ensures StrictlyAscending(CompareByWord, s[i := y])
  {
    ReplaceKeepsAscending(CompareByWord, s, i, y);
  }

  /**
   * Lookups after a stored record is replaced by one with the same word: the
   * new record answers for that word, every other lookup is as before.
   */
  lemma FindAfterReplace(s: seq<WordRec>, i: nat, y: WordRec, key: WordRec)
    requires StrictlyAscending(CompareByWord, s) && i < |s| && y.word == s[i].word
    ensures Find(CompareByWord, s[i := y], key) == if key.word == y.word then Some(y) else Find(CompareByWord, s, key)
  {
    var t := s[i := y];
    var p := Position(CompareByWord, s, key);
    CompareByWordIsComparator();
    SameWordKeepsAscending(s, i, y);
    PositionBelow(CompareByWord, s, key);
    forall k | 0 <= k < p ensures CompareByWord(t[k], key) < 0 {
      assert t[k].word == s[k].word;
    }
    if p < |t| {
      assert t[p].word == s[p].word;
    }
    PositionIs(CompareByWord, t, key, p);
    FindAtPosition(CompareByWord, s, key);
    FindAtPosition(CompareByWord, t, key);
    if key.word == y.word {
      FindSpec(CompareByWord, s, key);
      AscendingMatchUnique(CompareByWord, s, i, p, key);
    }
  }

  /** `addNode` keeps the records in strictly ascending word order. */
  lemma AddWordKeepsAscending(s: seq<WordRec>, x: WordRec)
    requires StrictlyAscending(CompareByWord, s)
    ensures StrictlyAscending(CompareByWord, AddWord(s, x))
  {
    var i := Position(CompareByWord, s, x);
    if i < |s| && s[i].word == x.word {
      SameWordKeepsAscending(s, i, WordRec(s[i].word, s[i].freq + 1));
    } else {
      CompareByWordIsComparator();
      FindAtPosition(CompareByWord, s, x);
      InsertSortedKeepsAscending(CompareByWord, s, x);
    }
  }

  /**
   * Reading a word with `addNode` counts it: its frequency goes up by one and
   * every other word's frequency stays.  `x` is a fresh record from
   * `createWord`, so its frequency is 1.
   */
  lemma AddWordCounts(s: seq<WordRec>, x: WordRec, w: string)
    requires StrictlyAscending(CompareByWord, s) && x.freq == 1
    ensures FreqOf(AddWord(s, x), w) == FreqOf(s, w) + (if w == x.word then 1 else 0)
  {
    var i := Position(CompareByWord, s, x);
    if i < |s| && s[i].word == x.word {
      var r := s[i := WordRec(s[i].word, s[i].freq + 1)];
      assert AddWord(s, x) == r;
      BumpCounts(s, i, w);
    } else {
      var r := InsertSorted(CompareByWord, s, x);
      assert AddWord(s, x) == r;
      CompareByWordIsComparator();
      FindAtPosition(CompareByWord, s, x);
      InsertCounts(s, x, w);
    }
  }

  /** Bumping the stored record at `i` counts one more occurrence of its word only. */
  lemma BumpCounts(s: seq<WordRec>, i: nat, w: string)
    requires StrictlyAscending(CompareByWord, s) && i < |s|
    ensures FreqOf(s[i := WordRec(s[i].word, s[i].freq + 1)], w) == FreqOf(s, w) + (if w == s[i].word then 1 else 0)
  {
    var key := WordRec(w, 0);
    var y := WordRec(s[i].word, s[i].freq + 1);
    FindAfterReplace(s, i, y, key);
    if w == s[i].word {
      CompareByWordIsComparator();
      FindAtPosition(CompareByWord, s, key);
      FindSpec(CompareByWord, s, key);
      AscendingMatchUnique(CompareByWord, s, i, Position(CompareByWord, s, key), key);
    }
  }

  /** Inserting a fresh record for an absent word counts that word once and changes no other count. */
  lemma InsertCounts(s: seq<WordRec>, x: WordRec, w: string)
    requires StrictlyAscending(CompareByWord, s) && x.freq == 1
    requires Find(CompareByWord, s, x).None?
    ensures FreqOf(InsertSorted(CompareByWord, s, x), w) == FreqOf(s, w) + (if w == x.word then 1 else 0)
  {
    var key := WordRec(w, 0);
    CompareByWordIsComparator();
    FindAfterInsert(CompareByWord, s, x, key);
    if w == x.word {
      FindSpec(CompareByWord, s, x);
      FindSpec(CompareByWord, s, key);
      assert forall k :: 0 <= k < |s| ==> CompareByWord(s[k], key) == CompareByWord(s[k], x);
    }
  }
}
