/**
 * The mount table of src/fs.rs: `SupportedFS` (one mounted filesystem,
 * known by its mount point), `VFS` (the table) and `VFS::check_valid`.
 *
 * Everything here is pure: `check_valid` takes `&self` and only reads the
 * table, so it is a function of the table's value, and the table a caller
 * passes in is the table it gets back.
 */
module Vfs {

  // ---------------------------------------------------------------------
  // Mount descriptors and their derived order
  // ---------------------------------------------------------------------

  /** `SupportedFS`; Dafny's datatype equality is the derived `PartialEq`/`Eq`. */
  datatype SupportedFS = SupportedFS(mountPoint: string)

  const ROOT: string := "/"

  /** The root descriptor: the one mounted at "/". */
  const ROOT_FS: SupportedFS := SupportedFS(ROOT)

  /**
   * `Ord for String`: lexicographic, a proper prefix first. Rust compares the
   * UTF-8 bytes, which orders strings the same way as their code points.
   */
  predicate StrLe(a: string, b: string)
    decreases |a|
  {
    |a| == 0 || (|b| > 0 && (a[0] < b[0] || (a[0] == b[0] && StrLe(a[1..], b[1..]))))
  }

  /** The derived `Ord for SupportedFS`: the order of the one field. */
  predicate Le(a: SupportedFS, b: SupportedFS) {
    StrLe(a.mountPoint, b.mountPoint)
  }

  /** `a` is a prefix of `b`. */
  predicate IsPrefix(a: string, b: string) {
    |a| <= |b| && a == b[..|a|]
  }

  /** `a` and `b` agree before position `k`, where `a` has the smaller character. */
  predicate SmallerAt(a: string, b: string, k: int) {
    0 <= k < |a| && k < |b| && a[..k] == b[..k] && a[k] < b[k]
  }

  /**
   * Lexicographic order stated directly: `a` is a prefix of `b`, or at the
   * first position where they differ `a` has the smaller character.
   */
  ghost predicate LexLe(a: string, b: string) {
    IsPrefix(a, b) || exists k :: SmallerAt(a, b, k)
  }

  lemma PrefixCons(a: string, b: string)
    requires |a| > 0 && |b| > 0 && a[0] == b[0]
    ensures IsPrefix(a, b) <==> IsPrefix(a[1..], b[1..])
  {
    if IsPrefix(a[1..], b[1..]) {
      assert a == [a[0]] + a[1..] && b[..|a|] == [b[0]] + b[1..][..|a| - 1];
    }
  }

  lemma SmallerAtCons(a: string, b: string, k: nat)
    requires |a| > 0 && |b| > 0 && a[0] == b[0]
    ensures SmallerAt(a, b, k + 1) <==> SmallerAt(a[1..], b[1..], k)
  {
    if k + 1 < |a| && k + 1 < |b| {
      assert a[..k + 1] == [a[0]] + a[1..][..k] && b[..k + 1] == [b[0]] + b[1..][..k];
    }
  }

  /** Dropping an equal first character does not change the lexicographic order. */
  lemma LexLeCons(a: string, b: string)
    requires |a| > 0 && |b| > 0 && a[0] == b[0]
    ensures LexLe(a, b) <==> LexLe(a[1..], b[1..])
  {
    PrefixCons(a, b);
    if exists k :: SmallerAt(a, b, k) {
      var k :| SmallerAt(a, b, k);
      SmallerAtCons(a, b, k - 1);
    }
    if exists k :: SmallerAt(a[1..], b[1..], k) {
      var k :| SmallerAt(a[1..], b[1..], k);
      SmallerAtCons(a, b, k);
    }
  }

  /** `StrLe` is the lexicographic order. */
  lemma {:induction false} StrLeIsLexicographic(a: string, b: string)
    ensures StrLe(a, b) <==> LexLe(a, b)
  {
    if |a| == 0 {
      assert a == b[..0];
    } else if |b| > 0 {
      if a[0] < b[0] {
        assert SmallerAt(a, b, 0);
      } else if a[0] == b[0] {
        StrLeIsLexicographic(a[1..], b[1..]);
        LexLeCons(a, b);
      } else {
        forall k | 0 < k < |a| && k < |b|
          ensures a[..k] != b[..k]
        {
          assert a[..k][0] == a[0] && b[..k][0] == b[0];
        }
        assert !IsPrefix(a, b) by {
          if |a| <= |b| {
            assert b[..|a|][0] == b[0];
          }
        }
      }
    }
  }

  /** The derived order compares mount points lexicographically. */
  lemma LeIsLexicographic(a: SupportedFS, b: SupportedFS)
    ensures Le(a, b) <==> LexLe(a.mountPoint, b.mountPoint)
  {
    StrLeIsLexicographic(a.mountPoint, b.mountPoint);
  }

  /** Two descriptors are equal exactly when their mount points are. */
  lemma EqIsMountPointEq(a: SupportedFS, b: SupportedFS)
    ensures a == b <==> a.mountPoint == b.mountPoint
  {
  }

  lemma {:induction false} StrLeRefl(a: string)
    ensures StrLe(a, a)
  {
    if |a| > 0 {
      StrLeRefl(a[1..]);
    }
  }

  lemma {:induction false} StrLeAntisym(a: string, b: string)
    requires StrLe(a, b) && StrLe(b, a)
    ensures a == b
  {
    if |a| > 0 && |b| > 0 {
      StrLeAntisym(a[1..], b[1..]);
      assert a == [a[0]] + a[1..] && b == [b[0]] + b[1..];
    }
  }

  lemma {:induction false} StrLeTrans(a: string, b: string, c: string)
    requires StrLe(a, b) && StrLe(b, c)
    ensures StrLe(a, c)
  {
    if |a| > 0 && a[0] == b[0] && b[0] == c[0] {
      StrLeTrans(a[1..], b[1..], c[1..]);
    }
  }

  lemma {:induction false} StrLeTotal(a: string, b: string)
    ensures StrLe(a, b) || StrLe(b, a)
  {
    if |a| > 0 && |b| > 0 && a[0] == b[0] {
      StrLeTotal(a[1..], b[1..]);
    }
  }

  /** The derived order is a total order on descriptors. */
  lemma LeIsTotalOrder(a: SupportedFS, b: SupportedFS, c: SupportedFS)
    ensures Le(a, a)
    ensures Le(a, b) && Le(b, a) ==> a == b
    ensures Le(a, b) && Le(b, c) ==> Le(a, c)
    ensures Le(a, b) || Le(b, a)
  {
    StrLeRefl(a.mountPoint);
    if Le(a, b) && Le(b, a) {
      StrLeAntisym(a.mountPoint, b.mountPoint);
    }
    if Le(a, b) && Le(b, c) {
      StrLeTrans(a.mountPoint, b.mountPoint, c.mountPoint);
    }
    StrLeTotal(a.mountPoint, b.mountPoint);
  }

  // ---------------------------------------------------------------------
  // `sorted()` and `dedup()` from itertools, specified by what they produce
  // ---------------------------------------------------------------------

  predicate IsSorted(s: seq<SupportedFS>) {
    forall i, j :: 0 <= i < j < |s| ==> Le(s[i], s[j])
  }

  predicate NoAdjacentEqual(s: seq<SupportedFS>) {
    forall i :: 0 < i < |s| ==> s[i - 1] != s[i]
  }

  /** No mount point occurs twice. */
  predicate NoDuplicates(s: seq<SupportedFS>) {
    forall i, j :: 0 <= i < j < |s| ==> s[i] != s[j]
  }

  /** Every element of a sorted sequence is at least its first. */
  lemma SortedHeadIsLeast(x: SupportedFS, s: seq<SupportedFS>)
    requires IsSorted(s) && |s| > 0 && Le(x, s[0])
    ensures forall i :: 0 <= i < |s| ==> Le(x, s[i])
  {
    forall i | 0 <= i < |s|
      ensures Le(x, s[i])
    {
      LeIsTotalOrder(x, s[0], s[i]);
    }
  }

  /** Insertion of one descriptor into a sorted sequence. */
  function Insert(x: SupportedFS, s: seq<SupportedFS>): (r: seq<SupportedFS>)
    requires IsSorted(s)
    ensures IsSorted(r) && multiset(r) == multiset(s) + multiset{x}
  {
    if s == [] then [x]
    else if Le(x, s[0]) then
      SortedHeadIsLeast(x, s);
      ConsSorted(x, s);
      [x] + s
    else
      SortedTail(s);
      var rest := Insert(x, s[1..]);
      LeIsTotalOrder(x, s[0], x);
      assert s == [s[0]] + s[1..];
      SortedHeadBelowInsert(x, s, rest);
      ConsSorted(s[0], rest);
      [s[0]] + rest
  }

  /** A sorted sequence stays sorted under a new head that is below all of it. */
  lemma ConsSorted(x: SupportedFS, s: seq<SupportedFS>)
    requires IsSorted(s) && forall i :: 0 <= i < |s| ==> Le(x, s[i])
    ensures IsSorted([x] + s)
  {
    var r := [x] + s;
    forall i, j | 0 <= i < j < |r|
      ensures Le(r[i], r[j])
    {
      if i > 0 {
        assert r[i] == s[i - 1] && r[j] == s[j - 1];
      }
    }
  }


  lemma SortedHeadBelowInsert(x: SupportedFS, s: seq<SupportedFS>, rest: seq<SupportedFS>)
    requires IsSorted(s) && |s| > 0 && Le(s[0], x)
    requires multiset(rest) == multiset(s[1..]) + multiset{x}
    ensures forall i :: 0 <= i < |rest| ==> Le(s[0], rest[i])
  {
    forall i | 0 <= i < |rest|
      ensures Le(s[0], rest[i])
    {
      assert rest[i] in multiset(rest);
      if rest[i] != x {
        assert rest[i] in multiset(s[1..]);
        var k :| 0 <= k < |s[1..]| && s[1..][k] == rest[i];
        assert s[k + 1] == rest[i];
      }
    }
  }

  /** `iter().sorted()`: a sorted permutation of its input. */
  function Sorted(s: seq<SupportedFS>): (r: seq<SupportedFS>)
    ensures IsSorted(r) && multiset(r) == multiset(s)
  {
    if s == [] then []
    else
      assert s == [s[0]] + s[1..];
      Insert(s[0], Sorted(s[1..]))
  }

  /** `dedup()`: drops each element equal to the one before it. */
  function Dedup(s: seq<SupportedFS>): (r: seq<SupportedFS>)
    ensures |r| <= |s|
    ensures |r| == 0 <==> |s| == 0
    ensures |s| > 0 ==> r[0] == s[0]
    ensures NoAdjacentEqual(r)
  {
    if |s| <= 1 then s
    else if s[0] == s[1] then Dedup(s[1..])
    else [s[0]] + Dedup(s[1..])
  }

  /** Dedup keeps every mount point that occurs and adds none. */
  lemma {:induction false} DedupKeepsElements(s: seq<SupportedFS>, x: SupportedFS)
    ensures x in Dedup(s) <==> x in s
  {
    if |s| > 1 {
      DedupKeepsElements(s[1..], x);
      assert s == [s[0]] + s[1..];
    }
  }

  /** `n` copies of `x`. */
  function Repeat(x: SupportedFS, n: nat): (r: seq<SupportedFS>)
    ensures |r| == n && forall i :: 0 <= i < n ==> r[i] == x
  {
    if n == 0 then [] else [x] + Repeat(x, n - 1)
  }

  /** Each element of `r` repeated as often as `counts` says. */
  function Stretch(r: seq<SupportedFS>, counts: seq<nat>): seq<SupportedFS>
    requires |counts| == |r|
  {
    if |r| == 0 then [] else Repeat(r[0], counts[0]) + Stretch(r[1..], counts[1..])
  }

  /** The length of each run of equal neighbours in `s`, one per element of `Dedup(s)`. */
  function RunLengths(s: seq<SupportedFS>): (c: seq<nat>)
    ensures |c| == |Dedup(s)|
  {
    if |s| == 0 then []
    else if |s| == 1 then [1]
    else
      var c' := RunLengths(s[1..]);
      if s[0] == s[1] then [c'[0] + 1] + c'[1..] else [1] + c'
  }

  predicate AllPositive(c: seq<nat>) {
    forall i :: 0 <= i < |c| ==> c[i] >= 1
  }

  /**
   * Dedup keeps exactly one element of each run of equal neighbours: its
   * input is its output with every element repeated one or more times. With
   * `NoAdjacentEqual` this pins the output down.
   */
  lemma {:induction false} DedupRuns(s: seq<SupportedFS>)
    ensures AllPositive(RunLengths(s))
    ensures Stretch(Dedup(s), RunLengths(s)) == s
  {
    if |s| == 1 {
      StretchCons(s[0], [], 1, []);
    } else if |s| > 1 {
      DedupRuns(s[1..]);
      var r', c' := Dedup(s[1..]), RunLengths(s[1..]);
      assert s == [s[0]] + s[1..];
      if s[0] == s[1] {
        RunStretchGrows(r', c', s[0]);
      } else {
        assert Dedup(s) == [s[0]] + r' && RunLengths(s) == [1] + c';
        StretchCons(s[0], r', 1, c');
      }
    }
  }

  lemma StretchCons(x: SupportedFS, r: seq<SupportedFS>, n: nat, c: seq<nat>)
    requires |c| == |r|
    ensures Stretch([x] + r, [n] + c) == Repeat(x, n) + Stretch(r, c)
  {
    assert ([x] + r)[1..] == r && ([n] + c)[1..] == c;
  }

  /** Counting the first element once more puts one more copy in front. */
  lemma RunStretchGrows(r: seq<SupportedFS>, c: seq<nat>, x: SupportedFS)
    requires |c| == |r| > 0 && r[0] == x && AllPositive(c)
    ensures AllPositive([c[0] + 1] + c[1..])
    ensures Stretch(r, [c[0] + 1] + c[1..]) == [x] + Stretch(r, c)
  {
    var c1 := [c[0] + 1] + c[1..];
    assert c1[1..] == c[1..];
    assert Repeat(x, c[0] + 1) == [x] + Repeat(x, c[0]);
  }

  /** Each `r[i]` is `s[p[i]]`, and the positions `p` increase. */
  predicate PicksInOrder(r: seq<SupportedFS>, s: seq<SupportedFS>, p: seq<nat>) {
    && |p| == |r|
    && (forall i :: 0 <= i < |p| ==> p[i] < |s| && r[i] == s[p[i]])
    && (forall i, j :: 0 <= i < j < |p| ==> p[i] < p[j])
  }

  function Shift(p: seq<nat>): (q: seq<nat>)
    ensures |q| == |p| && forall i :: 0 <= i < |p| ==> q[i] == p[i] + 1
  {
    seq(|p|, i requires 0 <= i < |p| => p[i] + 1)
  }

  /** The position in `s` of each element `Dedup(s)` keeps: the last of its run. */
  function DedupPositions(s: seq<SupportedFS>): (p: seq<nat>)
    ensures |p| == |Dedup(s)|
  {
    if |s| == 0 then []
    else if |s| == 1 then [0]
    else if s[0] == s[1] then Shift(DedupPositions(s[1..]))
    else [0] + Shift(DedupPositions(s[1..]))
  }

  lemma ShiftPicks(r: seq<SupportedFS>, s: seq<SupportedFS>, p: seq<nat>)
    requires |s| > 0 && PicksInOrder(r, s[1..], p)
    ensures PicksInOrder(r, s, Shift(p))
  {
    forall i | 0 <= i < |p|
      ensures r[i] == s[p[i] + 1]
    {
      assert s[1..][p[i]] == s[p[i] + 1];
    }
  }

  lemma ConsPicks(r: seq<SupportedFS>, s: seq<SupportedFS>, q: seq<nat>)
    requires |s| > 0 && PicksInOrder(r, s, q) && forall i :: 0 <= i < |q| ==> q[i] >= 1
    ensures PicksInOrder([s[0]] + r, s, [0] + q)
  {
  }

  /** Dedup picks its elements from its input in order. */
  lemma {:induction false} DedupSubsequence(s: seq<SupportedFS>)
    ensures PicksInOrder(Dedup(s), s, DedupPositions(s))
  {
    if |s| > 1 {
      var r', p' := Dedup(s[1..]), DedupPositions(s[1..]);
      DedupSubsequence(s[1..]);
      ShiftPicks(r', s, p');
      if s[0] != s[1] {
        ConsPicks(r', s, Shift(p'));
      }
    }
  }

  /** On a sorted input dedup leaves a sorted sequence in which every element is unique. */
  lemma DedupSorted(s: seq<SupportedFS>)
    requires IsSorted(s)
    ensures IsSorted(Dedup(s)) && NoDuplicates(Dedup(s))
  {
    var r, p := Dedup(s), DedupPositions(s);
    DedupSubsequence(s);
    forall i, j | 0 <= i < j < |r|
      ensures Le(r[i], r[j])
    {
      assert Le(s[p[i]], s[p[j]]);
    }
    SortedNoAdjacentEqual(r);
  }

  /** Dedup removes nothing exactly when no two neighbours are equal. */
  lemma {:induction false} DedupLength(s: seq<SupportedFS>)
    ensures |Dedup(s)| == |s| <==> NoAdjacentEqual(s)
  {
    if |s| > 1 {
      DedupLength(s[1..]);
      if s[0] != s[1] && NoAdjacentEqual(s[1..]) {
        forall i | 0 < i < |s|
          ensures s[i - 1] != s[i]
        {
          if i > 1 {
            assert s[1..][i - 2] == s[i - 1] && s[1..][i - 1] == s[i];
          }
        }
      }
      if NoAdjacentEqual(s) {
        forall i | 0 < i < |s[1..]|
          ensures s[1..][i - 1] != s[1..][i]
        {
          assert s[i] != s[i + 1];
        }
      }
    }
  }

  /** In a sorted sequence, equal elements are neighbours. */
  lemma SortedNoAdjacentEqual(s: seq<SupportedFS>)
    requires IsSorted(s)
    ensures NoAdjacentEqual(s) <==> NoDuplicates(s)
  {
    if NoAdjacentEqual(s) {
      forall i, j | 0 <= i < j < |s|
        ensures s[i] != s[j]
      {
        if i + 1 < j {
          assert s[i] != s[i + 1];
          LeIsTotalOrder(s[i], s[i + 1], s[j]);
        }
      }
    }
  }

  lemma NoDuplicatesCons(s: seq<SupportedFS>)
    requires |s| > 0
    ensures NoDuplicates(s) <==> s[0] !in s[1..] && NoDuplicates(s[1..])
  {
    var t := s[1..];
    if NoDuplicates(s) {
      forall i, j | 0 <= i < j < |t|
        ensures t[i] != t[j]
      {
        assert s[i + 1] != s[j + 1];
      }
      forall k | 0 <= k < |t|
        ensures t[k] != s[0]
      {
        assert s[k + 1] != s[0];
      }
    }
    if s[0] !in t && NoDuplicates(t) {
      forall i, j | 0 <= i < j < |s|
        ensures s[i] != s[j]
      {
        assert s[j] == t[j - 1];
        if i > 0 {
          assert s[i] == t[i - 1];
        }
      }
    }
  }

  lemma AtMostOnceCons(s: seq<SupportedFS>)
    requires |s| > 0
    ensures (forall x :: multiset(s)[x] <= 1) <==>
            (multiset(s[1..])[s[0]] == 0 && forall x :: multiset(s[1..])[x] <= 1)
  {
    var t := s[1..];
    assert s == [s[0]] + t;
    assert multiset(s) == multiset{s[0]} + multiset(t);
    if forall x :: multiset(s)[x] <= 1 {
      assert multiset(s)[s[0]] <= 1;
      forall x
        ensures multiset(t)[x] <= 1
      {
        assert multiset(s)[x] <= 1;
      }
    }
    if multiset(t)[s[0]] == 0 && forall x :: multiset(t)[x] <= 1 {
      forall x
        ensures multiset(s)[x] <= 1
      {
        assert multiset(t)[x] <= 1;
      }
    }
  }

  /** No duplicates means every descriptor occurs at most once in the multiset. */
  lemma {:induction false} NoDuplicatesMultiset(s: seq<SupportedFS>)
    ensures NoDuplicates(s) <==> forall x :: multiset(s)[x] <= 1
  {
    if |s| > 0 {
      NoDuplicatesMultiset(s[1..]);
      NoDuplicatesCons(s);
      AtMostOnceCons(s);
    }
  }

  /** Sorting neither creates nor removes duplicates. */
  lemma SortedNoDuplicates(s: seq<SupportedFS>)
    ensures NoDuplicates(Sorted(s)) <==> NoDuplicates(s)
  {
    NoDuplicatesMultiset(s);
    NoDuplicatesMultiset(Sorted(s));
  }

  /**
   * Dedup of the sorted table is strictly shorter than the table exactly
   * when some mount point occurs twice: the fact the duplicate check rests on.
   */
  lemma DedupSortedDetectsDuplicates(s: seq<SupportedFS>)
    ensures |Dedup(Sorted(s))| < |s| <==> exists i, j :: 0 <= i < j < |s| && s[i] == s[j]
  {
    var t := Sorted(s);
    assert |t| == |multiset(t)| == |multiset(s)| == |s|;
    DedupLength(t);
    SortedNoAdjacentEqual(t);
    SortedNoDuplicates(s);
  }

  lemma SortedTail(a: seq<SupportedFS>)
    requires IsSorted(a) && |a| > 0
    ensures IsSorted(a[1..])
  {
    forall i, j | 0 <= i < j < |a[1..]|
      ensures Le(a[1..][i], a[1..][j])
    {
      assert Le(a[i + 1], a[j + 1]);
    }
  }

  /** The head of a sorted sequence is below every element of its multiset. */
  lemma SortedHeadIsMinimum(a: seq<SupportedFS>, x: SupportedFS)
    requires IsSorted(a) && x in multiset(a)
    ensures Le(a[0], x)
  {
    var j :| 0 <= j < |a| && a[j] == x;
    if j > 0 {
      assert Le(a[0], a[j]);
    } else {
      LeIsTotalOrder(a[0], a[0], a[0]);
    }
  }

  /** Two sorted sequences with the same elements start with the same element. */
  lemma SortedSameHead(a: seq<SupportedFS>, b: seq<SupportedFS>)
    requires IsSorted(a) && IsSorted(b) && multiset(a) == multiset(b) && |a| > 0
    ensures |b| > 0 && a[0] == b[0]
  {
    assert |b| == |multiset(b)| == |multiset(a)| == |a|;
    assert a[0] in multiset(a) && b[0] in multiset(b);
    SortedHeadIsMinimum(a, b[0]);
    SortedHeadIsMinimum(b, a[0]);
    LeIsTotalOrder(a[0], b[0], a[0]);
  }

  /** Removing the head removes one copy of it from the multiset. */
  lemma MultisetTail(a: seq<SupportedFS>)
    requires |a| > 0
    ensures multiset(a[1..]) == multiset(a) - multiset{a[0]}
  {
    assert a == [a[0]] + a[1..];
  }

  /** A sorted sequence is determined by its multiset. */
  lemma {:induction false} SortedUnique(a: seq<SupportedFS>, b: seq<SupportedFS>)
    requires IsSorted(a) && IsSorted(b) && multiset(a) == multiset(b)
    ensures a == b
  {
    if |a| > 0 {
      SortedSameHead(a, b);
      MultisetTail(a);
      MultisetTail(b);
      SortedTail(a);
      SortedTail(b);
      SortedUnique(a[1..], b[1..]);
      assert a == [a[0]] + a[1..] && b == [b[0]] + b[1..];
    } else {
      assert |b| == |multiset(b)| == |multiset(a)| == 0;
    }
  }

  /** Sorting forgets the order of its input. */
  lemma SortedPermutation(s: seq<SupportedFS>, t: seq<SupportedFS>)
    requires multiset(s) == multiset(t)
    ensures Sorted(s) == Sorted(t)
  {
    SortedUnique(Sorted(s), Sorted(t));
  }

  // ---------------------------------------------------------------------
  // The mount table
  // ---------------------------------------------------------------------

  /** `VFS`: the mount table, in the order the caller supplied. */
  datatype VFS = VFS(fs: seq<SupportedFS>)

  /** `VFS::new`: wraps the given descriptors unchanged and in order. */
  function New(fs: seq<SupportedFS>): (v: VFS)
    ensures v.fs == fs
  {
    VFS(fs)
  }

  /** `filter(|p| p.mount_point == "/")`: the root entries, in table order. */
  function Roots(fs: seq<SupportedFS>): (r: seq<SupportedFS>)
    ensures |r| <= |fs|
    ensures forall i :: 0 <= i < |r| ==> r[i] == ROOT_FS
  {
    if fs == [] then []
    else (if fs[0].mountPoint == ROOT then [fs[0]] else []) + Roots(fs[1..])
  }

  /** The filter keeps every root entry: its length counts the "/" entries. */
  lemma {:induction false} RootsCount(fs: seq<SupportedFS>)
    ensures |Roots(fs)| == multiset(fs)[ROOT_FS]
  {
    if fs != [] {
      assert fs == [fs[0]] + fs[1..];
      RootsCount(fs[1..]);
    }
  }

  /** `VFS::check_valid`, as written. */
  function CheckValid(v: VFS): (ok: bool)
    ensures multiset(v.fs)[ROOT_FS] != 1 ==> !ok
  {
    RootsCount(v.fs);
    if |Roots(v.fs)| != 1 then false
    else
      var res := Dedup(Sorted(v.fs));
      if |res| != 0 then false else true
  }

  /**
   * As written, no table is ever valid: a table that passes the root check
   * is non-empty, so its sorted, deduplicated copy is non-empty and the
   * `res.len() != 0` test rejects it.
   */
  lemma CheckValidNeverTrue(v: VFS)
    ensures !CheckValid(v)
  {
    var s := Sorted(v.fs);
    assert |s| == |multiset(s)| == |multiset(v.fs)| == |v.fs|;
  }

  /** The verdict as written does not depend on the order of the table. */
  lemma CheckValidPermutation(v: VFS, w: VFS)
    requires multiset(v.fs) == multiset(w.fs)
    ensures CheckValid(v) == CheckValid(w)
  {
    CheckValidNeverTrue(v);
    CheckValidNeverTrue(w);
  }

  /** The mount-table invariant: exactly one root and no mount point twice. */
  predicate WellFormed(fs: seq<SupportedFS>) {
    multiset(fs)[ROOT_FS] == 1 && NoDuplicates(fs)
  }

  /**
   * The evidently intended check (NOT the code): exactly one root, and
   * dedup of the sorted table removes nothing (`res.len() != self.fs.len()`).
   */
  function CheckValidIntended(v: VFS): (ok: bool)
    ensures ok <==> WellFormed(v.fs)
  {
    RootsCount(v.fs);
    DedupSortedDetectsDuplicates(v.fs);
    if |Roots(v.fs)| != 1 then false
    else
      var res := Dedup(Sorted(v.fs));
      if |res| != |v.fs| then false else true
  }

  /** The intended verdict does not depend on the order of the table either. */
  lemma CheckValidIntendedPermutation(v: VFS, w: VFS)
    requires multiset(v.fs) == multiset(w.fs)
    ensures CheckValidIntended(v) == CheckValidIntended(w)
  {
    NoDuplicatesMultiset(v.fs);
    NoDuplicatesMultiset(w.fs);
  }

  /** A table holding one root and nothing twice is accepted by the intended check and rejected as written. */
  lemma RootOnlyTable()
    ensures CheckValidIntended(New([ROOT_FS]))
    ensures !CheckValid(New([ROOT_FS]))
  {
    CheckValidNeverTrue(New([ROOT_FS]));
  }
}
