/** Stable sorting by a comparison, as Python's `sorted` and `list.sort` do it. */
module Sorting {

  ghost predicate TotalPreorder<T(!new)>(le: (T, T) -> bool) {
    && (forall x, y :: le(x, y) || le(y, x))
    && (forall x, y, z :: le(x, y) && le(y, z) ==> le(x, z))
  }

  ghost predicate TotalOrder<T(!new)>(le: (T, T) -> bool) {
    && TotalPreorder(le)
    && (forall x, y :: le(x, y) && le(y, x) ==> x == y)
  }

  predicate Sorted<T>(s: seq<T>, le: (T, T) -> bool) {
    forall i, j | 0 <= i < j < |s| :: le(s[i], s[j])
  }

  predicate NoDuplicates<T(==)>(s: seq<T>) {
    forall i, j | 0 <= i < j < |s| :: s[i] != s[j]
  }

  function Insert<T>(x: T, s: seq<T>, le: (T, T) -> bool): seq<T> {
    if s == [] then [x]
    else if le(x, s[0]) then [x] + s
    else [s[0]] + Insert(x, s[1..], le)
  }

  /** Insertion from the right, so that equal elements keep their input order. */
  function Sort<T>(s: seq<T>, le: (T, T) -> bool): seq<T> {
    if s == [] then [] else Insert(s[0], Sort(s[1..], le), le)
  }

  lemma {:induction false} InsertKeeps<T>(x: T, s: seq<T>, le: (T, T) -> bool)
    ensures multiset(Insert(x, s, le)) == multiset([x] + s)
    ensures |Insert(x, s, le)| == |s| + 1
  {
    if s != [] && !le(x, s[0]) {
      InsertKeeps(x, s[1..], le);
      assert s == [s[0]] + s[1..];
    }
  }

  lemma {:induction false} SortKeeps<T>(s: seq<T>, le: (T, T) -> bool)
    ensures multiset(Sort(s, le)) == multiset(s)
    ensures |Sort(s, le)| == |s|
  {
    if s != [] {
      SortKeeps(s[1..], le);
      InsertKeeps(s[0], Sort(s[1..], le), le);
      assert s == [s[0]] + s[1..];
      assert multiset(Sort(s, le)) == multiset([s[0]]) + multiset(Sort(s[1..], le));
    }
  }

  lemma MembersAgree<T>(a: seq<T>, b: seq<T>)
    requires multiset(a) == multiset(b)
    ensures forall x :: x in a <==> x in b
    ensures |a| == |b|
  {
    assert forall x :: x in a <==> x in multiset(a);
    assert forall x :: x in b <==> x in multiset(b);
    assert |a| == |multiset(a)| == |multiset(b)| == |b|;
  }

  lemma SortPermutes<T>(s: seq<T>, le: (T, T) -> bool)
    ensures multiset(Sort(s, le)) == multiset(s) && |Sort(s, le)| == |s|
    ensures forall x :: x in Sort(s, le) <==> x in s
  {
    SortKeeps(s, le);
    MembersAgree(Sort(s, le), s);
  }

  lemma InsertBounded<T(!new)>(low: T, x: T, s: seq<T>, le: (T, T) -> bool)
    requires le(low, x) && forall y | y in s :: le(low, y)
    ensures forall y | y in Insert(x, s, le) :: le(low, y)
  {
    InsertKeeps(x, s, le);
    MembersAgree(Insert(x, s, le), [x] + s);
    hide Insert;
    forall y | y in Insert(x, s, le) ensures le(low, y) {
      assert y in [x] + s;
    }
  }

  lemma FrontSorted<T(!new)>(low: T, s: seq<T>, le: (T, T) -> bool)
    requires Sorted(s, le) && forall y | y in s :: le(low, y)
    ensures Sorted([low] + s, le)
  {
  }

  lemma {:induction false} InsertSorted<T(!new)>(x: T, s: seq<T>, le: (T, T) -> bool)
    requires TotalPreorder(le) && Sorted(s, le)
    ensures Sorted(Insert(x, s, le), le)
  {
    if s != [] {
      if le(x, s[0]) {
      } else {
        InsertSorted(x, s[1..], le);
        InsertBounded(s[0], x, s[1..], le);
        FrontSorted(s[0], Insert(x, s[1..], le), le);
      }
    }
  }

  lemma {:induction false} SortSorts<T(!new)>(s: seq<T>, le: (T, T) -> bool)
    requires TotalPreorder(le)
    ensures Sorted(Sort(s, le), le)
    ensures multiset(Sort(s, le)) == multiset(s)
    ensures |Sort(s, le)| == |s|
  {
    SortKeeps(s, le);
    if s != [] {
      SortSorts(s[1..], le);
      InsertSorted(s[0], Sort(s[1..], le), le);
    }
  }

  /** Sorting what is already in order changes nothing, whatever ties it holds. */
  lemma {:induction false} SortIsIdentityOnSorted<T>(s: seq<T>, le: (T, T) -> bool)
    requires Sorted(s, le)
    ensures Sort(s, le) == s
  {
    if s != [] {
      SortIsIdentityOnSorted(s[1..], le);
      assert s == [s[0]] + s[1..];
      if |s| > 1 {
        assert le(s[0], s[1]);
      }
    }
  }

  /** No two different elements of `s` tie. */
  ghost predicate Separates<T>(le: (T, T) -> bool, s: seq<T>) {
    forall x, y | x in s && y in s && le(x, y) && le(y, x) :: x == y
  }

  lemma FirstsAgree<T(!new)>(a: seq<T>, b: seq<T>, le: (T, T) -> bool)
    requires TotalPreorder(le) && Separates(le, a)
    requires Sorted(a, le) && Sorted(b, le) && a != [] && b != []
    requires a[0] in b && b[0] in a
    ensures a[0] == b[0]
  {
    var i :| 0 <= i < |b| && b[i] == a[0];
    var j :| 0 <= j < |a| && a[j] == b[0];
    assert le(a[0], a[0]);
    assert le(a[0], b[0]) && le(b[0], a[0]);
  }

  lemma TailKeeps<T>(a: seq<T>, le: (T, T) -> bool)
    requires a != [] && Sorted(a, le)
    ensures Sorted(a[1..], le)
    ensures Separates(le, a) ==> Separates(le, a[1..])
    ensures multiset(a[1..]) == multiset(a) - multiset{a[0]}
  {
    assert a == [a[0]] + a[1..];
  }

  lemma SameLength<T>(a: seq<T>, b: seq<T>)
    requires multiset(a) == multiset(b)
    ensures |a| == |b|
  {
    MembersAgree(a, b);
  }

  lemma FirstIsShared<T>(a: seq<T>, b: seq<T>)
    requires multiset(a) == multiset(b) && a != []
    ensures a[0] in b
  {
    MembersAgree(a, b);
    assert a[0] in a;
  }

  /** When no two elements tie, a multiset has one sorted listing. */
  lemma {:induction false} SortedListingIsUnique<T(!new)>(a: seq<T>, b: seq<T>, le: (T, T) -> bool)
    requires TotalPreorder(le) && Separates(le, a)
    requires Sorted(a, le) && Sorted(b, le)
    requires multiset(a) == multiset(b)
    ensures a == b
  {
    hide Sorted, Separates, TotalPreorder;
    SameLength(a, b);
    if a != [] {
      FirstIsShared(a, b);
      FirstIsShared(b, a);
      FirstsAgree(a, b, le);
      TailKeeps(a, le);
      TailKeeps(b, le);
      SortedListingIsUnique(a[1..], b[1..], le);
      assert a == [a[0]] + a[1..] && b == [b[0]] + b[1..];
    }
  }

  /** Sorting forgets the order of its input, duplicates included. */
  lemma SortIgnoresOrder<T(!new)>(a: seq<T>, b: seq<T>, le: (T, T) -> bool)
    requires TotalPreorder(le) && Separates(le, a)
    requires multiset(a) == multiset(b)
    ensures Sort(a, le) == Sort(b, le)
  {
    SortSorts(a, le);
    SortSorts(b, le);
    MembersAgree(a, Sort(a, le));
    SortedListingIsUnique(Sort(a, le), Sort(b, le), le);
  }

  ghost predicate IsLeast<T>(m: T, s: set<T>, le: (T, T) -> bool) {
    m in s && forall y | y in s :: le(m, y)
  }

  lemma {:induction false} LeastExists<T(!new)>(s: set<T>, le: (T, T) -> bool)
    requires TotalOrder(le) && s != {}
    ensures exists m :: IsLeast(m, s, le)
  {
    var x :| x in s;
    var rest := s - {x};
    if rest == {} {
      assert s == {x} && le(x, x);
      assert IsLeast(x, s, le);
    } else {
      LeastExists(rest, le);
      var m :| IsLeast(m, rest, le);
      LeastOfTwo(x, m, s, le);
    }
  }

  lemma LeastOfTwo<T(!new)>(x: T, m: T, s: set<T>, le: (T, T) -> bool)
    requires TotalOrder(le) && x in s && IsLeast(m, s - {x}, le)
    ensures IsLeast(x, s, le) || IsLeast(m, s, le)
  {
    assert le(x, x);
    if le(x, m) {
      forall y | y in s ensures le(x, y) {
        if y != x {
          assert y in s - {x} && le(m, y);
        }
      }
    } else {
      assert le(m, x);
      forall y | y in s ensures le(m, y) {
        if y != x {
          assert y in s - {x};
        }
      }
    }
  }

  /** `sorted(s)` of a set. */
  function Listing<T(!new, ==)>(s: set<T>, le: (T, T) -> bool): (r: seq<T>)
    requires TotalOrder(le)
    ensures forall x :: x in r <==> x in s
    ensures |r| == |s|
    ensures NoDuplicates(r) && Sorted(r, le)
  {
    if s == {} then []
    else
      LeastExists(s, le);
      var m :| m in s && forall y | y in s :: le(m, y);
      [m] + Listing(s - {m}, le)
  }

  /** Two duplicate-free listings of one set are permutations of each other. */
  lemma {:induction false} DistinctListings<T>(a: seq<T>, b: seq<T>)
    requires NoDuplicates(a) && NoDuplicates(b)
    requires forall x :: x in a <==> x in b
    ensures multiset(a) == multiset(b)
  {
    forall x ensures multiset(a)[x] == multiset(b)[x] {
      CountOfDistinct(a, x);
      CountOfDistinct(b, x);
    }
  }

  lemma {:induction false} CountOfDistinct<T>(a: seq<T>, x: T)
    requires NoDuplicates(a)
    ensures multiset(a)[x] == if x in a then 1 else 0
  {
    if a != [] {
      assert a == [a[0]] + a[1..];
      CountOfDistinct(a[1..], x);
    }
  }

  lemma PermutationKeepsDistinct<T>(a: seq<T>, b: seq<T>)
    requires multiset(a) == multiset(b) && NoDuplicates(a)
    ensures NoDuplicates(b)
  {
    forall i, j | 0 <= i < j < |b| ensures b[i] != b[j] {
      if b[i] == b[j] {
        DuplicateIsCounted(b, i, j);
        CountOfDistinct(a, b[i]);
      }
    }
  }

  lemma DuplicateIsCounted<T>(b: seq<T>, i: nat, j: nat)
    requires i < j < |b| && b[i] == b[j]
    ensures multiset(b)[b[i]] >= 2
  {
    assert b == b[..i] + [b[i]] + b[i + 1..j] + [b[j]] + b[j + 1..];
  }

  /** The first `k + 1` elements. */
  lemma TakeNext<T>(s: seq<T>, k: nat)
    requires k < |s|
    ensures s[..k + 1] == s[..k] + [s[k]]
    ensures s[k] in s
  {
  }

  lemma TakeAll<T>(s: seq<T>)
    ensures s[..|s|] == s && s[..0] == []
  {
  }
}
