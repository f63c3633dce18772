/** `OrderBy(c => c.SubmissionDate)` and `OrderByDescending(c => c.SubmissionDate)`,
    the orderings of the claim listings. The database gives no guarantee
    about the relative order of claims submitted at the same instant, so the
    specification only asks for a sorted permutation. */
module Listing {
  import opened Claims
  import opened Folds

  /** `a` may be listed before `b`. */
  predicate Precedes(a: ClaimRow, b: ClaimRow, descending: bool) {
    if descending then a.submissionDate >= b.submissionDate
    else a.submissionDate <= b.submissionDate
  }

  predicate SortedByDate(s: seq<ClaimRow>, descending: bool) {
    forall i, j | 0 <= i < j < |s| :: Precedes(s[i], s[j], descending)
  }

  /** `a` may be listed before every claim of `s`. */
  predicate PrecedesAll(a: ClaimRow, s: seq<ClaimRow>, descending: bool) {
    forall y | y in s :: Precedes(a, y, descending)
  }

  lemma ConsSorted(a: ClaimRow, t: seq<ClaimRow>, descending: bool)
    requires PrecedesAll(a, t, descending) && SortedByDate(t, descending)
    ensures SortedByDate([a] + t, descending)
  {
    var r := [a] + t;
    forall i, j | 0 <= i < j < |r| ensures Precedes(r[i], r[j], descending) {
      assert r[j] == t[j - 1];
      if i > 0 {
        assert r[i] == t[i - 1];
      }
    }
  }

  /** The head of a sorted list may precede the rest, which is sorted. */
  lemma SortedSplit(s: seq<ClaimRow>, descending: bool)
    requires SortedByDate(s, descending) && s != []
    ensures PrecedesAll(s[0], s[1..], descending) && SortedByDate(s[1..], descending)
  {
    forall y | y in s[1..] ensures Precedes(s[0], y, descending) {
      var k :| 0 <= k < |s[1..]| && s[1..][k] == y;
      assert s[k + 1] == y;
    }
  }

  /** A claim that may precede the head of a sorted list may precede all of it. */
  lemma PrecedesHead(x: ClaimRow, s: seq<ClaimRow>, descending: bool)
    requires SortedByDate(s, descending) && s != [] && Precedes(x, s[0], descending)
    ensures PrecedesAll(x, s, descending)
  {
    forall y | y in s ensures Precedes(x, y, descending) {
      var k :| 0 <= k < |s| && s[k] == y;
      if k > 0 {
        assert Precedes(s[0], s[k], descending);
      }
    }
  }

  /** `PrecedesAll` depends only on the multiset of the list. */
  lemma PrecedesAllInsert(a: ClaimRow, s: seq<ClaimRow>, x: ClaimRow, t: seq<ClaimRow>, descending: bool)
    requires PrecedesAll(a, s, descending) && Precedes(a, x, descending)
    requires multiset(t) == multiset(s) + multiset{x}
    ensures PrecedesAll(a, t, descending)
  {
    forall y | y in t ensures Precedes(a, y, descending) {
      assert y in multiset(t);
      if y != x {
        assert y in multiset(s);
      }
    }
  }

  /** Puts `x` into a sorted list in front of the first claim it may precede. */
  function InsertByDate(x: ClaimRow, s: seq<ClaimRow>, descending: bool): (r: seq<ClaimRow>)
    requires SortedByDate(s, descending)
    ensures SortedByDate(r, descending)
    ensures multiset(r) == multiset(s) + multiset{x}
  {
    if s == [] then [x]
    else if Precedes(x, s[0], descending) then
      PrecedesHead(x, s, descending);
      ConsSorted(x, s, descending);
      [x] + s
    else
      SortedSplit(s, descending);
      var t := InsertByDate(x, s[1..], descending);
      PrecedesAllInsert(s[0], s[1..], x, t, descending);
      ConsSorted(s[0], t, descending);
      assert s == [s[0]] + s[1..];
      [s[0]] + t
  }

  /** The claims sorted by submission date, in the requested direction. */
  function SortByDate(s: seq<ClaimRow>, descending: bool): (r: seq<ClaimRow>)
    ensures SortedByDate(r, descending)
    ensures multiset(r) == multiset(s)
  {
    if s == [] then []
    else
      assert s == [s[0]] + s[1..];
      InsertByDate(s[0], SortByDate(s[1..], descending), descending)
  }

  /** `Where(p)` followed by an ordering by submission date: exactly the
      claims satisfying `p`, each as often as it is stored, sorted. */
  function SelectByDate(rows: seq<ClaimRow>, p: ClaimRow -> bool, descending: bool): (r: seq<ClaimRow>)
    ensures SortedByDate(r, descending)
    ensures forall c :: c in r <==> c in rows && p(c)
    ensures forall c :: multiset(r)[c] == if p(c) then multiset(rows)[c] else 0
  {
    var kept := Filter(rows, p);
    assert forall c :: c in kept <==> c in rows && p(c) by {
      forall c ensures c in kept <==> c in rows && p(c) {
        assert multiset(kept)[c] == if p(c) then multiset(rows)[c] else 0;
      }
    }
    SortByDate(kept, descending)
  }
}
