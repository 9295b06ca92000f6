/**
 * Three-way comparators and strictly ascending sequences.
 *
 * Every container of this project is ordered by a comparator in the C sense:
 * a function returning a negative, zero or positive int.  `IsComparator`
 * states the contract such a comparator must keep (a total preorder), and the
 * lemmas below are the sequence facts the containers share: splicing an
 * element into its place or cutting one out keeps a sequence strictly
 * ascending, and an ordered scan that stops early has seen every match.
 */
module Order {
  import opened Wrappers

  /**
   * `cmp` is a three-way ordering: reflexive, sign-antisymmetric and
   * transitive.  Transitivity is stated through `Chains`, so that it is used
   * only for the triples a proof names.
   */
  ghost predicate IsComparator<T(!new)>(cmp: (T, T) -> int) {
    && (forall a :: cmp(a, a) == 0)
    && (forall a, b :: cmp(a, b) < 0 <==> cmp(b, a) > 0)
    && (forall a, b, c {:trigger Chains(cmp, a, b, c)} :: Chains(cmp, a, b, c))
  }

  /** Transitivity of `cmp` for one triple: `a <= b <= c` gives `a <= c`. */
  ghost predicate Chains<T>(cmp: (T, T) -> int, a: T, b: T, c: T) {
    cmp(a, b) <= 0 && cmp(b, c) <= 0 ==> cmp(a, c) <= 0
  }

  /** Every element compares strictly less than every later one. */
  ghost predicate StrictlyAscending<T>(cmp: (T, T) -> int, s: seq<T>) {
    forall i, j {:trigger cmp(s[i], s[j])} :: 0 <= i < j < |s| ==> cmp(s[i], s[j]) < 0
  }

  /** Every element compares less than or equal to every later one. */
  ghost predicate Ascending<T>(cmp: (T, T) -> int, s: seq<T>) {
    forall i, j :: 0 <= i < j < |s| ==> cmp(s[i], s[j]) <= 0
  }

  /** The elements of `s` in the opposite order. */
  function Reverse<T>(s: seq<T>): (r: seq<T>)
    ensures |r| == |s|
    ensures forall i :: 0 <= i < |s| ==> r[i] == s[|s| - 1 - i]
  {
    if s == [] then [] else Reverse(s[1..]) + [s[0]]
  }

  /** Reversing twice gives back the sequence. */
  lemma ReverseReverse<T>(s: seq<T>)
    ensures Reverse(Reverse(s)) == s
  {
    assert forall i :: 0 <= i < |s| ==> Reverse(Reverse(s))[i] == s[i];
  }

  /** Elements `i` and `j` of `s` are both there and differ. */
  ghost predicate Apart<T>(s: seq<T>, i: int, j: int) {
    0 <= i < |s| && 0 <= j < |s| && s[i] != s[j]
  }

  /**
   * No element of `s` occurs twice.  The pairs are reached through `Apart`,
   * so that the fact is used only for the pairs a proof names.
   */
  ghost predicate Distinct<T>(s: seq<T>) {
    forall i, j {:trigger Apart(s, i, j)} :: 0 <= i < j < |s| ==> Apart(s, i, j)
  }

  /** Two different indices of a distinct sequence hold different elements. */
  lemma DistinctAt<T>(s: seq<T>, i: nat, j: nat)
    requires Distinct(s) && i < |s| && j < |s| && i != j
    ensures s[i] != s[j]
  {
    if i < j {
      assert Apart(s, i, j);
    } else {
      assert Apart(s, j, i);
    }
  }

  /** Splicing a new element into a distinct sequence keeps it distinct. */
  lemma DistinctSplice<T>(s: seq<T>, i: nat, x: T)
    requires Distinct(s) && i <= |s| && x !in s
    ensures Distinct(s[..i] + [x] + s[i..])
  {
    var t := s[..i] + [x] + s[i..];
    SpliceIndices(s, i, x);
    forall a, b | 0 <= a < b < |t| ensures Apart(t, a, b) {
      if a != i && b != i {
        assert Apart(s, if a < i then a else a - 1, if b < i then b else b - 1);
      }
    }
  }

  /** Cutting an element out of a distinct sequence keeps it distinct. */
  lemma DistinctCut<T>(s: seq<T>, i: nat)
    requires Distinct(s) && i < |s|
    ensures Distinct(s[..i] + s[i + 1..])
  {
    var t := s[..i] + s[i + 1..];
    RemoveIndices(s, i);
    forall a, b | 0 <= a < b < |t| ensures Apart(t, a, b) {
      assert Apart(s, if a < i then a else a + 1, if b < i then b else b + 1);
    }
  }

  /**
   * In a distinct sequence, element `i` is not among any rearrangement of the
   * elements before it.
   */
  lemma DistinctNotEarlier<T>(s: seq<T>, i: nat, b: seq<T>)
    requires Distinct(s) && i < |s| && multiset(b) == multiset(s[..i])
    ensures s[i] !in b
  {
    forall k | 0 <= k < i ensures s[..i][k] != s[i] {
      DistinctAt(s, k, i);
    }
    assert s[i] !in s[..i];
    assert s[i] !in multiset(s[..i]);
  }

  /** Splicing `x` into `s` adds exactly `x` to its multiset. */
  lemma SpliceMultiset<T>(s: seq<T>, i: nat, x: T)
    requires i <= |s|
    ensures multiset(s[..i] + [x] + s[i..]) == multiset(s) + multiset{x}
  {
    assert s == s[..i] + s[i..];
  }

  /** Where each element of `s` lands when `x` is spliced in at index `i`. */
  lemma SpliceIndices<T>(s: seq<T>, i: nat, x: T)
    requires i <= |s|
    ensures |s[..i] + [x] + s[i..]| == |s| + 1
    ensures forall k {:trigger (s[..i] + [x] + s[i..])[k]} :: 0 <= k < |s| + 1 ==>
      (s[..i] + [x] + s[i..])[k] == if k < i then s[k] else if k == i then x else s[k - 1]
  {
  }

  /** Where each remaining element of `s` lands when index `i` is cut out. */
  lemma RemoveIndices<T>(s: seq<T>, i: nat)
    requires i < |s|
    ensures |s[..i] + s[i + 1..]| == |s| - 1
    ensures forall k {:trigger (s[..i] + s[i + 1..])[k]} :: 0 <= k < |s| - 1 ==>
      (s[..i] + s[i + 1..])[k] == if k < i then s[k] else s[k + 1]
  {
  }

  /** Non-strict order chains. */
  lemma Trans<T(!new)>(cmp: (T, T) -> int, a: T, b: T, c: T)
    requires IsComparator(cmp)
    requires cmp(a, b) <= 0 && cmp(b, c) <= 0
    ensures cmp(a, c) <= 0
  {
    assert Chains(cmp, a, b, c);
  }

  /** Strict order chains through a non-strict step, in either position. */
  lemma StrictTrans<T(!new)>(cmp: (T, T) -> int, a: T, b: T, c: T)
    requires IsComparator(cmp)
    requires cmp(a, b) <= 0 && cmp(b, c) <= 0
    requires cmp(a, b) < 0 || cmp(b, c) < 0
    ensures cmp(a, c) < 0
  {
    assert Chains(cmp, a, b, c) && Chains(cmp, b, c, a) && Chains(cmp, c, a, b);
  }

  /** A zero comparison is symmetric. */
  lemma ZeroSymmetric<T(!new)>(cmp: (T, T) -> int, a: T, b: T)
    requires IsComparator(cmp)
    ensures cmp(a, b) == 0 <==> cmp(b, a) == 0
  {
  }

  /**
   * Splicing `x` in at index `i` keeps a sequence strictly ascending when `x`
   * lies strictly between its new neighbours.
   */
  lemma InsertKeepsAscending<T(!new)>(cmp: (T, T) -> int, s: seq<T>, i: nat, x: T)
    requires IsComparator(cmp) && StrictlyAscending(cmp, s)
    requires i <= |s|
    requires i > 0 ==> cmp(s[i - 1], x) < 0
    requires i < |s| ==> cmp(x, s[i]) < 0
    ensures StrictlyAscending(cmp, s[..i] + [x] + s[i..])
  {
    var t := s[..i] + [x] + s[i..];
    forall a, b | 0 <= a < b < |t| ensures cmp(t[a], t[b]) < 0 {
      if b < i {
        assert t[a] == s[a] && t[b] == s[b];
      } else if b == i {
        assert t[a] == s[a];
        if a < i - 1 { StrictTrans(cmp, s[a], s[i - 1], x); }
      } else if a == i {
        assert t[b] == s[b - 1];
        if b - 1 > i { StrictTrans(cmp, x, s[i], s[b - 1]); }
      } else if a < i {
        assert t[a] == s[a] && t[b] == s[b - 1];
      } else {
        assert t[a] == s[a - 1] && t[b] == s[b - 1];
      }
    }
  }

  /** Cutting out the element at index `i` keeps a sequence strictly ascending. */
  lemma RemoveKeepsAscending<T>(cmp: (T, T) -> int, s: seq<T>, i: nat)
    requires StrictlyAscending(cmp, s) && i < |s|
    ensures StrictlyAscending(cmp, s[..i] + s[i + 1..])
  {
    var t := s[..i] + s[i + 1..];
    forall a, b | 0 <= a < b < |t| ensures cmp(t[a], t[b]) < 0 {
      if b < i {
        assert t[a] == s[a] && t[b] == s[b];
      } else if a < i {
        assert t[a] == s[a] && t[b] == s[b + 1];
      } else {
        assert t[a] == s[a + 1] && t[b] == s[b + 1];
      }
    }
  }

  /**
   * Replacing the element at index `i` by one that compares exactly like it
   * keeps a sequence strictly ascending.
   */
  lemma ReplaceKeepsAscending<T>(cmp: (T, T) -> int, s: seq<T>, i: nat, y: T)
    requires StrictlyAscending(cmp, s) && i < |s|
    requires forall k :: 0 <= k < |s| ==> cmp(y, s[k]) == cmp(s[i], s[k]) && cmp(s[k], y) == cmp(s[k], s[i])
    ensures StrictlyAscending(cmp, s[i := y])
  {
    var t := s[i := y];
    forall a, b | 0 <= a < b < |t| ensures cmp(t[a], t[b]) < 0 {
      if a == i {
        assert cmp(y, s[b]) == cmp(s[i], s[b]);
      } else if b == i {
        assert cmp(s[a], y) == cmp(s[a], s[i]);
      }
    }
  }

  /**
   * An ordered scan over an ascending sequence (elements compared against the
   * key, in the `cmp(element, key)` direction) that stops at index `i`, the
   * first element not below the key, has seen every match: the key occurs in
   * `s` exactly when `s[i]` compares equal to it.
   */
  lemma ScanFindsAllMatches<T(!new)>(cmp: (T, T) -> int, s: seq<T>, i: nat, key: T)
    requires IsComparator(cmp) && StrictlyAscending(cmp, s)
    requires i <= |s|
    requires forall k :: 0 <= k < i ==> cmp(s[k], key) < 0
    requires i < |s| ==> cmp(s[i], key) >= 0
    ensures (exists k :: 0 <= k < |s| && cmp(s[k], key) == 0) <==> i < |s| && cmp(s[i], key) == 0
  {
    forall k | i < k < |s| && cmp(s[k], key) == 0 ensures cmp(s[i], key) == 0 {
      if cmp(s[i], key) != 0 {
        StrictTrans(cmp, s[i], s[k], key);
      }
    }
  }

  /** The same fact for a scan comparing in the `cmp(key, element)` direction. */
  lemma ScanFindsAllMatchesKeyFirst<T(!new)>(cmp: (T, T) -> int, s: seq<T>, i: nat, key: T)
    requires IsComparator(cmp) && StrictlyAscending(cmp, s)
    requires i <= |s|
    requires forall k :: 0 <= k < i ==> cmp(key, s[k]) > 0
    requires i < |s| ==> cmp(key, s[i]) <= 0
    ensures (exists k :: 0 <= k < |s| && cmp(key, s[k]) == 0) <==> i < |s| && cmp(key, s[i]) == 0
  {
    forall k | i < k < |s| && cmp(key, s[k]) == 0 ensures cmp(key, s[i]) == 0 {
      if cmp(key, s[i]) != 0 {
        StrictTrans(cmp, key, s[i], s[k]);
      }
    }
  }

  /** A strictly ascending sequence holds at most one element comparing equal to a key. */
  lemma AscendingMatchUnique<T(!new)>(cmp: (T, T) -> int, s: seq<T>, i: nat, j: nat, key: T)
    requires IsComparator(cmp) && StrictlyAscending(cmp, s)
    requires i < |s| && j < |s|
    requires cmp(s[i], key) == 0 && cmp(s[j], key) == 0
    ensures i == j
  {
    if i < j {
      Trans(cmp, s[j], key, s[i]);
    } else if j < i {
      Trans(cmp, s[i], key, s[j]);
    }
  }

  /** Comparing equal is transitive. */
  lemma EqTrans<T(!new)>(cmp: (T, T) -> int, a: T, b: T, c: T)
    requires IsComparator(cmp)
    requires cmp(a, b) == 0 && cmp(b, c) == 0
    ensures cmp(a, c) == 0
  {
    Trans(cmp, a, b, c);
    Trans(cmp, c, b, a);
  }

  /** Cutting out the element just spliced in gives back the original sequence. */
  lemma SpliceThenCut<T>(s: seq<T>, i: nat, x: T)
    requires i <= |s|
    ensures var t := s[..i] + [x] + s[i..]; t[..i] + t[i + 1..] == s
  {
    var t := s[..i] + [x] + s[i..];
    assert t[..i] == s[..i] && t[i + 1..] == s[i..];
  }

  /** Splicing back the element just cut out gives back the original sequence. */
  lemma CutThenSplice<T>(s: seq<T>, i: nat)
    requires i < |s|
    ensures var r := s[..i] + s[i + 1..]; r[..i] + [s[i]] + r[i..] == s
  {
    var r := s[..i] + s[i + 1..];
    assert r[..i] == s[..i] && r[i..] == s[i + 1..];
  }

  /**
   * Where an ascending scan for `key` stops: the index of the first element
   * that does not compare below `key` (`|s|` when every element does).
   */
  function Position<T>(cmp: (T, T) -> int, s: seq<T>, key: T): (i: nat)
    ensures i <= |s|
    ensures i < |s| ==> cmp(s[i], key) >= 0
    decreases |s|
  {
    if s == [] || cmp(s[0], key) >= 0 then 0 else 1 + Position(cmp, s[1..], key)
  }

  /** Every element before `Position` compares below `key`. */
  lemma {:induction false} PositionBelow<T>(cmp: (T, T) -> int, s: seq<T>, key: T)
    ensures forall k :: 0 <= k < Position(cmp, s, key) ==> cmp(s[k], key) < 0
    decreases |s|
  {
    if s != [] && cmp(s[0], key) < 0 {
      PositionBelow(cmp, s[1..], key);
      assert forall k :: 1 <= k < |s| ==> s[k] == s[1..][k - 1];
    }
  }

  /** The first element comparing equal to `key`, if there is one. */
  function Find<T>(cmp: (T, T) -> int, s: seq<T>, key: T): (r: Option<T>)
    ensures r.Some? ==> cmp(r.value, key) == 0
    decreases |s|
  {
    if s == [] then None
    else if cmp(s[0], key) == 0 then Some(s[0])
    else Find(cmp, s[1..], key)
  }

  /** `Find` finds something exactly when some element compares equal to `key`, and that element is in `s`. */
  lemma {:induction false} FindSpec<T>(cmp: (T, T) -> int, s: seq<T>, key: T)
    ensures Find(cmp, s, key).Some? <==> exists k :: 0 <= k < |s| && cmp(s[k], key) == 0
    ensures Find(cmp, s, key).Some? ==> Find(cmp, s, key).value in s
    decreases |s|
  {
    if s != [] && cmp(s[0], key) != 0 {
      FindSpec(cmp, s[1..], key);
      assert forall k :: 1 <= k < |s| ==> s[k] == s[1..][k - 1];
    }
  }

  /** `x` placed in front of the first element that does not compare below it. */
  function InsertSorted<T>(cmp: (T, T) -> int, s: seq<T>, x: T): (r: seq<T>)
    ensures |r| == |s| + 1
    decreases |s|
  {
    if s == [] || cmp(s[0], x) >= 0 then [x] + s
    else [s[0]] + InsertSorted(cmp, s[1..], x)
  }

  /** `s` without its first element comparing equal to `key`. */
  function Remove<T>(cmp: (T, T) -> int, s: seq<T>, key: T): (r: seq<T>)
    ensures |r| <= |s| <= |r| + 1
    decreases |s|
  {
    if s == [] then []
    else if cmp(s[0], key) == 0 then s[1..]
    else [s[0]] + Remove(cmp, s[1..], key)
  }

  /** `Find` returns the first match: the element at `i` when nothing before it matches. */
  lemma {:induction false} FindFirst<T>(cmp: (T, T) -> int, s: seq<T>, key: T, i: nat)
    requires i < |s| && cmp(s[i], key) == 0
    requires forall k :: 0 <= k < i ==> cmp(s[k], key) != 0
    ensures Find(cmp, s, key) == Some(s[i])
    decreases i
  {
    if i > 0 {
      FindFirst(cmp, s[1..], key, i - 1);
    }
  }

  /**
   * On a strictly ascending sequence the scan and the lookup agree: `key` is
   * found exactly when the element where the scan stops compares equal to it.
   */
  lemma FindAtPosition<T(!new)>(cmp: (T, T) -> int, s: seq<T>, key: T)
    requires IsComparator(cmp) && StrictlyAscending(cmp, s)
    ensures var i := Position(cmp, s, key);
      Find(cmp, s, key) == if i < |s| && cmp(s[i], key) == 0 then Some(s[i]) else None
  {
    var i := Position(cmp, s, key);
    PositionBelow(cmp, s, key);
    ScanFindsAllMatches(cmp, s, i, key);
    if i < |s| && cmp(s[i], key) == 0 {
      FindFirst(cmp, s, key, i);
    } else {
      FindSpec(cmp, s, key);
    }
  }

  /** Splicing into the tail and putting the head back is splicing one place further on. */
  lemma ConsSplice<T>(s: seq<T>, j: nat, x: T)
    requires j < |s|
    ensures [s[0]] + (s[1..][..j] + [x] + s[1..][j..]) == s[..j + 1] + [x] + s[j + 1..]
  {
    assert [s[0]] + s[1..][..j] == s[..j + 1];
    assert s[1..][j..] == s[j + 1..];
  }

  /** `InsertSorted` splices `x` in exactly where the scan for `x` stops. */
  lemma {:induction false} InsertSortedAtPosition<T>(cmp: (T, T) -> int, s: seq<T>, x: T)
    ensures var i := Position(cmp, s, x);
      InsertSorted(cmp, s, x) == s[..i] + [x] + s[i..]
    decreases |s|
  {
    if s != [] && cmp(s[0], x) < 0 {
      var t := s[1..];
      InsertSortedAtPosition(cmp, t, x);
      var j := Position(cmp, t, x);
      assert Position(cmp, s, x) == j + 1;
      ConsSplice(s, j, x);
    }
  }

  /** `InsertSorted` adds exactly `x`: the result is a permutation of `s` plus `x`. */
  lemma {:induction false} InsertSortedPermutes<T>(cmp: (T, T) -> int, s: seq<T>, x: T)
    ensures multiset(InsertSorted(cmp, s, x)) == multiset(s) + multiset{x}
    decreases |s|
  {
    if s != [] && cmp(s[0], x) < 0 {
      InsertSortedPermutes(cmp, s[1..], x);
      assert s == [s[0]] + s[1..];
    }
  }

  /** `Remove` takes away exactly the element `Find` returns, and nothing when it returns none. */
  lemma {:induction false} RemovePermutes<T>(cmp: (T, T) -> int, s: seq<T>, key: T)
    ensures Find(cmp, s, key).Some? ==>
      multiset(Remove(cmp, s, key)) == multiset(s) - multiset{Find(cmp, s, key).value}
    ensures Find(cmp, s, key).None? ==> Remove(cmp, s, key) == s
    decreases |s|
  {
    if s != [] && cmp(s[0], key) != 0 {
      var r := Remove(cmp, s[1..], key);
      RemovePermutes(cmp, s[1..], key);
      FindSpec(cmp, s[1..], key);
      assert s == [s[0]] + s[1..];
      assert Remove(cmp, s, key) == [s[0]] + r;
      assert Find(cmp, s, key) == Find(cmp, s[1..], key);
      assert multiset(Remove(cmp, s, key)) == multiset{s[0]} + multiset(r);
    } else if s != [] {
      assert s == [s[0]] + s[1..];
    }
  }

  /** Adding a key that is not yet present keeps a sequence strictly ascending. */
  lemma InsertSortedKeepsAscending<T(!new)>(cmp: (T, T) -> int, s: seq<T>, x: T)
    requires IsComparator(cmp) && StrictlyAscending(cmp, s)
    requires Find(cmp, s, x).None?
    ensures StrictlyAscending(cmp, InsertSorted(cmp, s, x))
  {
    var i := Position(cmp, s, x);
    InsertSortedAtPosition(cmp, s, x);
    PositionBelow(cmp, s, x);
    FindSpec(cmp, s, x);
    if i < |s| {
      assert cmp(s[i], x) != 0;
    }
    InsertKeepsAscending(cmp, s, i, x);
  }

  /**
   * When the scan for `key` agrees with the lookup (as `FindAtPosition` shows
   * for strictly ascending sequences), `Remove` cuts out the element where the
   * scan stops if it matches, and changes nothing otherwise.
   */
  lemma RemoveAtPosition<T>(cmp: (T, T) -> int, s: seq<T>, key: T)
    requires var i := Position(cmp, s, key);
      Find(cmp, s, key) == if i < |s| && cmp(s[i], key) == 0 then Some(s[i]) else None
    ensures var i := Position(cmp, s, key);
      Remove(cmp, s, key) == if i < |s| && cmp(s[i], key) == 0 then s[..i] + s[i + 1..] else s
  {
    var i := Position(cmp, s, key);
    if i < |s| && cmp(s[i], key) == 0 {
      PositionBelow(cmp, s, key);
      RemoveFirstMatch(cmp, s, key, i);
    } else {
      FindSpec(cmp, s, key);
      RemoveNoMatch(cmp, s, key);
    }
  }

  /** `Remove` cuts out the first element comparing equal to `key`. */
  lemma {:induction false} RemoveFirstMatch<T>(cmp: (T, T) -> int, s: seq<T>, key: T, i: nat)
    requires i < |s| && cmp(s[i], key) == 0
    requires forall k :: 0 <= k < i ==> cmp(s[k], key) != 0
    ensures Remove(cmp, s, key) == s[..i] + s[i + 1..]
    decreases i
  {
    if i > 0 {
      RemoveFirstMatch(cmp, s[1..], key, i - 1);
      assert s[1..][..i - 1] == s[1..i] && s[1..][i..] == s[i + 1..];
      assert [s[0]] + s[1..i] == s[..i];
    }
  }

  /** `Remove` changes nothing when no element compares equal to `key`. */
  lemma {:induction false} RemoveNoMatch<T>(cmp: (T, T) -> int, s: seq<T>, key: T)
    requires forall k :: 0 <= k < |s| ==> cmp(s[k], key) != 0
    ensures Remove(cmp, s, key) == s
    decreases |s|
  {
    if s != [] {
      RemoveNoMatch(cmp, s[1..], key);
      assert [s[0]] + s[1..] == s;
    }
  }

  /** Removing a key keeps a sequence strictly ascending. */
  lemma RemoveSortedKeepsAscending<T(!new)>(cmp: (T, T) -> int, s: seq<T>, key: T)
    requires IsComparator(cmp) && StrictlyAscending(cmp, s)
    ensures StrictlyAscending(cmp, Remove(cmp, s, key))
  {
    var i := Position(cmp, s, key);
    FindAtPosition(cmp, s, key);
    RemoveAtPosition(cmp, s, key);
    if i < |s| && cmp(s[i], key) == 0 {
      RemoveKeepsAscending(cmp, s, i);
    }
  }

  /** Splicing in an element that does not match `key` leaves the lookup of `key` alone. */
  lemma {:induction false} FindSkipsNonMatch<T>(cmp: (T, T) -> int, s: seq<T>, i: nat, x: T, key: T)
    requires i <= |s| && cmp(x, key) != 0
    ensures Find(cmp, s[..i] + [x] + s[i..], key) == Find(cmp, s, key)
    decreases i
  {
    var t := s[..i] + [x] + s[i..];
    if i > 0 {
      FindSkipsNonMatch(cmp, s[1..], i - 1, x, key);
      assert t[1..] == s[1..][..i - 1] + [x] + s[1..][i - 1..];
    } else {
      assert t[1..] == s;
    }
  }

  /**
   * Lookups after adding an absent key: the new element answers for every key
   * comparing equal to it, every other lookup is as before.
   */
  lemma FindAfterInsert<T(!new)>(cmp: (T, T) -> int, s: seq<T>, x: T, key: T)
    requires IsComparator(cmp) && StrictlyAscending(cmp, s)
    requires Find(cmp, s, x).None?
    ensures Find(cmp, InsertSorted(cmp, s, x), key) == if cmp(x, key) == 0 then Some(x) else Find(cmp, s, key)
  {
    var i := Position(cmp, s, x);
    InsertSortedAtPosition(cmp, s, x);
    PositionBelow(cmp, s, x);
    var t := s[..i] + [x] + s[i..];
    if cmp(x, key) == 0 {
      forall k | 0 <= k < i ensures cmp(t[k], key) != 0 {
        assert t[k] == s[k];
        StrictTrans(cmp, s[k], x, key);
      }
      FindFirst(cmp, t, key, i);
    } else {
      FindSkipsNonMatch(cmp, s, i, x, key);
    }
  }

  /**
   * Lookups after removing a key: nothing comparing equal to it is left, every
   * other lookup is as before.
   */
  lemma FindAfterRemove<T(!new)>(cmp: (T, T) -> int, s: seq<T>, key: T, k: T)
    requires IsComparator(cmp) && StrictlyAscending(cmp, s)
    ensures Find(cmp, Remove(cmp, s, key), k) == if cmp(k, key) == 0 then None else Find(cmp, s, k)
  {
    var i := Position(cmp, s, key);
    FindAtPosition(cmp, s, key);
    RemoveAtPosition(cmp, s, key);
    var r := Remove(cmp, s, key);
    if i < |s| && cmp(s[i], key) == 0 {
      CutThenSplice(s, i);
      if cmp(k, key) == 0 {
        FindSpec(cmp, r, k);
        if Find(cmp, r, k).Some? {
          var j :| 0 <= j < |r| && cmp(r[j], k) == 0;
          var j' := if j < i then j else j + 1;
          assert r[j] == s[j'];
          EqTrans(cmp, s[j'], k, key);
          AscendingMatchUnique(cmp, s, i, j', key);
        }
      } else {
        if cmp(s[i], k) == 0 {
          EqTrans(cmp, k, s[i], key);
        }
        FindSkipsNonMatch(cmp, r, i, s[i], k);
      }
    } else if cmp(k, key) == 0 {
      PositionBelow(cmp, s, key);
      ScanFindsAllMatches(cmp, s, i, key);
      FindSpec(cmp, s, k);
      if Find(cmp, s, k).Some? {
        var j :| 0 <= j < |s| && cmp(s[j], k) == 0;
        EqTrans(cmp, s[j], k, key);
      }
    }
  }

  /** Adding an absent key and then removing it gives back the original sequence. */
  lemma RemoveInsertSorted<T(!new)>(cmp: (T, T) -> int, s: seq<T>, x: T)
    requires IsComparator(cmp) && StrictlyAscending(cmp, s)
    requires Find(cmp, s, x).None?
    ensures Remove(cmp, InsertSorted(cmp, s, x), x) == s
  {
    var i := Position(cmp, s, x);
    InsertSortedAtPosition(cmp, s, x);
    InsertSortedKeepsAscending(cmp, s, x);
    PositionBelow(cmp, s, x);
    var t := s[..i] + [x] + s[i..];
    assert forall k :: 0 <= k < i ==> t[k] == s[k];
    PositionIs(cmp, t, x, i);
    FindAtPosition(cmp, t, x);
    RemoveAtPosition(cmp, t, x);
    SpliceThenCut(s, i, x);
  }

  /** `Position` is the one index with every element before it below the key and itself not below. */
  lemma {:induction false} PositionIs<T>(cmp: (T, T) -> int, s: seq<T>, key: T, i: nat)
    requires i <= |s|
    requires forall k :: 0 <= k < i ==> cmp(s[k], key) < 0
    requires i < |s| ==> cmp(s[i], key) >= 0
    ensures Position(cmp, s, key) == i
    decreases i
  {
    if i > 0 {
      assert cmp(s[0], key) < 0;
      PositionIs(cmp, s[1..], key, i - 1);
    }
  }

  /** Removing a present key and adding its element back gives back the original sequence. */
  lemma InsertSortedRemove<T(!new)>(cmp: (T, T) -> int, s: seq<T>, key: T)
    requires IsComparator(cmp) && StrictlyAscending(cmp, s)
    requires Find(cmp, s, key).Some?
    ensures InsertSorted(cmp, Remove(cmp, s, key), Find(cmp, s, key).value) == s
  {
    var i := Position(cmp, s, key);
    FindAtPosition(cmp, s, key);
    RemoveAtPosition(cmp, s, key);
    var r := s[..i] + s[i + 1..];
    var e := s[i];
    forall k | 0 <= k < i ensures cmp(r[k], e) < 0 {
      assert r[k] == s[k];
    }
    if i < |r| {
      assert r[i] == s[i + 1];
      assert cmp(e, r[i]) < 0;
    }
    PositionIs(cmp, r, e, i);
    InsertSortedAtPosition(cmp, r, e);
    CutThenSplice(s, i);
  }

  /** A lookup in `a + b` answers from `a` when `a` holds a match, and from `b` otherwise. */
  lemma {:induction false} FindConcat<T>(cmp: (T, T) -> int, a: seq<T>, b: seq<T>, key: T)
    ensures Find(cmp, a + b, key) == if Find(cmp, a, key).Some? then Find(cmp, a, key) else Find(cmp, b, key)
    decreases |a|
  {
    if a == [] {
      assert a + b == b;
    } else {
      assert (a + b)[0] == a[0];
      assert (a + b)[1..] == a[1..] + b;
      if cmp(a[0], key) != 0 {
        FindConcat(cmp, a[1..], b, key);
      }
    }
  }

  /** Removing from `a + b` removes from `a` when `a` holds a match, and from `b` otherwise. */
  lemma {:induction false} RemoveConcat<T>(cmp: (T, T) -> int, a: seq<T>, b: seq<T>, key: T)
    ensures Remove(cmp, a + b, key) ==
      if Find(cmp, a, key).Some? then Remove(cmp, a, key) + b else a + Remove(cmp, b, key)
    decreases |a|
  {
    if a == [] {
      assert a + b == b;
    } else {
      var c := a + b;
      assert c[0] == a[0] && c[1..] == a[1..] + b;
      if cmp(a[0], key) != 0 {
        RemoveConcat(cmp, a[1..], b, key);
        assert Remove(cmp, c, key) == [a[0]] + Remove(cmp, a[1..] + b, key);
        if Find(cmp, a[1..], key).Some? {
          Associative([a[0]], Remove(cmp, a[1..], key), b);
        } else {
          Associative([a[0]], a[1..], Remove(cmp, b, key));
          assert [a[0]] + a[1..] == a;
        }
      }
    }
  }

  /** Concatenation is associative. */
  lemma Associative<T>(x: seq<T>, y: seq<T>, z: seq<T>)
    ensures x + (y + z) == (x + y) + z
  {
  }

  /** When `b` starts at or above `x`, adding `x` to `a + b` places it within `a` or at its end. */
  lemma {:induction false} InsertSortedBefore<T>(cmp: (T, T) -> int, a: seq<T>, b: seq<T>, x: T)
    requires b != [] ==> cmp(b[0], x) >= 0
    ensures InsertSorted(cmp, a + b, x) == InsertSorted(cmp, a, x) + b
    decreases |a|
  {
    if a == [] {
      assert a + b == b;
    } else {
      var c := a + b;
      assert c[0] == a[0] && c[1..] == a[1..] + b;
      if cmp(a[0], x) < 0 {
        InsertSortedBefore(cmp, a[1..], b, x);
        assert InsertSorted(cmp, c, x) == [a[0]] + InsertSorted(cmp, a[1..] + b, x);
        Associative([a[0]], InsertSorted(cmp, a[1..], x), b);
      } else {
        Associative([x], a, b);
      }
    }
  }

  /** When all of `a` lies below `x`, adding `x` to `a + b` places it within `b`. */
  lemma {:induction false} InsertSortedAfter<T>(cmp: (T, T) -> int, a: seq<T>, b: seq<T>, x: T)
    requires forall k :: 0 <= k < |a| ==> cmp(a[k], x) < 0
    ensures InsertSorted(cmp, a + b, x) == a + InsertSorted(cmp, b, x)
    decreases |a|
  {
    if a == [] {
      assert a + b == b;
    } else {
      var c := a + b;
      assert c[0] == a[0] && c[1..] == a[1..] + b;
      assert forall k :: 0 <= k < |a[1..]| ==> a[1..][k] == a[k + 1];
      InsertSortedAfter(cmp, a[1..], b, x);
      assert InsertSorted(cmp, c, x) == [a[0]] + InsertSorted(cmp, a[1..] + b, x);
      Associative([a[0]], a[1..], InsertSorted(cmp, b, x));
      assert [a[0]] + a[1..] == a;
    }
  }

  /** `Remove` shortens the sequence by one exactly when `Find` finds something. */
  lemma {:induction false} RemoveLength<T>(cmp: (T, T) -> int, s: seq<T>, key: T)
    ensures |Remove(cmp, s, key)| == if Find(cmp, s, key).Some? then |s| - 1 else |s|
    decreases |s|
  {
    if s != [] && cmp(s[0], key) != 0 {
      RemoveLength(cmp, s[1..], key);
    }
  }
}
