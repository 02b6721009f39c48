/** Keeping and rewriting the elements of a list, one at a time, as a loop with `continue` does. */
module Filtering {
  import opened Wrappers
  import opened Sorting

  function Optional<T>(o: Option<T>): seq<T> {
    if o.Some? then [o.value] else []
  }

  function FilterMap<A, B>(s: seq<A>, f: A -> Option<B>): seq<B> {
    if s == [] then [] else FilterMap(s[..|s| - 1], f) + Optional(f(s[|s| - 1]))
  }

  /** Before the loop. */
  lemma FilterMapEmpty<A, B>(f: A -> Option<B>)
    ensures FilterMap([], f) == []
  {
  }

  /** One turn of the loop. */
  lemma FilterMapNext<A, B>(s: seq<A>, k: nat, f: A -> Option<B>)
    requires k < |s|
    ensures FilterMap(s[..k + 1], f) == FilterMap(s[..k], f) + Optional(f(s[k]))
  {
    assert s[..k + 1][..k] == s[..k];
  }

  lemma Regroup<A>(a: seq<A>, b: seq<A>, c: seq<A>)
    ensures (a + b) + c == a + (b + c)
  {
  }

  lemma FilterMapLast<A, B>(s: seq<A>, x: A, f: A -> Option<B>)
    ensures FilterMap(s + [x], f) == FilterMap(s, f) + Optional(f(x))
  {
    assert (s + [x])[..|s|] == s;
  }

  lemma FilterMapOne<A, B>(x: A, f: A -> Option<B>)
    ensures FilterMap([x], f) == Optional(f(x))
  {
    assert [x][..0] == [] && FilterMap([], f) == [];
  }

  lemma AppendNext<A, B>(s: seq<A>, t: seq<A>, x: A, f: A -> Option<B>)
    requires FilterMap(s + t, f) == FilterMap(s, f) + FilterMap(t, f)
    ensures FilterMap(s + (t + [x]), f) == FilterMap(s, f) + FilterMap(t + [x], f)
  {
    hide FilterMap, Optional;
    FilterMapLast(s + t, x, f);
    FilterMapLast(t, x, f);
    Regroup(s, t, [x]);
    Regroup(FilterMap(s, f), FilterMap(t, f), Optional(f(x)));
  }

  lemma {:induction false} FilterMapAppend<A, B>(s: seq<A>, t: seq<A>, f: A -> Option<B>)
    ensures FilterMap(s + t, f) == FilterMap(s, f) + FilterMap(t, f)
    decreases |t|
  {
    if t == [] {
      assert s + t == s;
    } else {
      hide FilterMap;
      var (rest, last) := (t[..|t| - 1], t[|t| - 1]);
      assert t == rest + [last];
      FilterMapAppend(s, rest, f);
      AppendNext(s, rest, last, f);
    }
  }

  lemma {:induction false} FilterMapMembers<A, B>(s: seq<A>, f: A -> Option<B>, y: B)
    ensures y in FilterMap(s, f) <==> exists x :: x in s && f(x) == Some(y)
  {
    if s != [] {
      var rest := s[..|s| - 1];
      FilterMapMembers(rest, f, y);
      assert s == rest + [s[|s| - 1]];
    }
  }

  lemma {:induction false} FilterMapCongruent<A, B>(s: seq<A>, f: A -> Option<B>, g: A -> Option<B>)
    requires forall x | x in s :: f(x) == g(x)
    ensures FilterMap(s, f) == FilterMap(s, g)
  {
    if s != [] {
      var rest := s[..|s| - 1];
      assert forall x | x in rest :: x in s;
      FilterMapCongruent(rest, f, g);
    }
  }

  lemma TakenOut<A>(b: seq<A>, i: nat)
    requires i < |b|
    ensures b == b[..i] + ([b[i]] + b[i + 1..])
    ensures multiset(b) == multiset(b[..i] + b[i + 1..]) + multiset{b[i]}
  {
    assert b == b[..i] + ([b[i]] + b[i + 1..]);
  }

  lemma FilterMapTakenOut<A, B>(b: seq<A>, i: nat, f: A -> Option<B>)
    requires i < |b|
    ensures multiset(FilterMap(b, f)) == multiset(FilterMap(b[..i] + b[i + 1..], f)) + multiset(Optional(f(b[i])))
  {
    TakenOut(b, i);
    var (front, back) := (b[..i], b[i + 1..]);
    FilterMapAppend(front, back, f);
    FilterMapAppend(front, [b[i]] + back, f);
    FilterMapAppend([b[i]], back, f);
    FilterMapOne(b[i], f);
    hide FilterMap;
  }

  lemma CancelOne<A>(m: multiset<A>, n: multiset<A>, x: A)
    requires m + multiset{x} == n + multiset{x}
    ensures m == n
  {
    assert m == m + multiset{x} - multiset{x};
    assert n == n + multiset{x} - multiset{x};
  }

  /** Rearranging the input only rearranges the output. */
  lemma {:induction false} FilterMapPermutes<A, B>(a: seq<A>, b: seq<A>, f: A -> Option<B>)
    requires multiset(a) == multiset(b)
    ensures multiset(FilterMap(a, f)) == multiset(FilterMap(b, f))
    decreases |a|
  {
    if a == [] {
      assert |multiset(b)| == 0;
      assert b == [];
    } else {
      var i, x := Position(a, b);
      var (rest, others) := (a[..0] + a[0 + 1..], b[..i] + b[i + 1..]);
      hide FilterMap, Optional;
      TakenOut(a, 0);
      TakenOut(b, i);
      CancelOne(multiset(rest), multiset(others), x);
      FilterMapPermutes(rest, others, f);
      FilterMapTakenOut(a, 0, f);
      FilterMapTakenOut(b, i, f);
    }
  }

  /** Where the first element of one arrangement stands in another. */
  lemma Position<A>(a: seq<A>, b: seq<A>) returns (i: nat, x: A)
    requires multiset(a) == multiset(b) && a != []
    ensures i < |b| && b[i] == x == a[0]
  {
    MembersAgree(a, b);
    x := a[0];
    assert x in a;
    i :| 0 <= i < |b| && b[i] == x;
  }

  lemma FilterMapFirst<A, B>(x: A, s: seq<A>, f: A -> Option<B>)
    ensures FilterMap([x] + s, f) == Optional(f(x)) + FilterMap(s, f)
    ensures f(x).None? ==> FilterMap([x] + s, f) == FilterMap(s, f)
  {
    FilterMapAppend([x], s, f);
    FilterMapOne(x, f);
    assert [] + FilterMap(s, f) == FilterMap(s, f);
  }

  /** When everything is kept, rewriting is the same map on every element. */
  lemma {:induction false} FilterMapKeepsAll<A, B>(s: seq<A>, f: A -> Option<B>)
    requires forall x | x in s :: f(x).Some?
    ensures |FilterMap(s, f)| == |s|
    ensures forall k | 0 <= k < |s| :: FilterMap(s, f)[k] == f(s[k]).value
  {
    if s != [] {
      var rest := s[..|s| - 1];
      assert forall x | x in rest :: x in s;
      FilterMapKeepsAll(rest, f);
    }
  }

  // ---- how many are kept --------------------------------------------------------------------

  /** `f` keeps exactly one element of `s`, as `y`. */
  ghost predicate KeepsOnly<A, B>(s: seq<A>, f: A -> Option<B>, y: B) {
    exists i :: 0 <= i < |s| && f(s[i]) == Some(y) && forall j | 0 <= j < |s| && f(s[j]).Some? :: j == i
  }

  /** `f` keeps two elements of `s` or more. */
  ghost predicate KeepsMany<A, B>(s: seq<A>, f: A -> Option<B>) {
    exists i, j :: 0 <= i < j < |s| && f(s[i]).Some? && f(s[j]).Some?
  }

  lemma {:induction false} FilterMapCount<A, B>(s: seq<A>, f: A -> Option<B>)
    ensures FilterMap(s, f) == [] <==> forall x | x in s :: f(x).None?
    ensures |FilterMap(s, f)| > 1 <==> KeepsMany(s, f)
  {
    if s != [] {
      var (rest, last) := (s[..|s| - 1], s[|s| - 1]);
      assert s == rest + [last];
      FilterMapCount(rest, f);
      if KeepsMany(rest, f) {
        var i, j :| 0 <= i < j < |rest| && f(rest[i]).Some? && f(rest[j]).Some?;
        assert s[i] == rest[i] && s[j] == rest[j];
      } else if FilterMap(rest, f) != [] && f(last).Some? {
        var x :| x in rest && f(x).Some?;
        var i :| 0 <= i < |rest| && rest[i] == x;
        assert s[i] == x && s[|rest|] == last;
      }
      if KeepsMany(s, f) {
        var i, j :| 0 <= i < j < |s| && f(s[i]).Some? && f(s[j]).Some?;
        assert s[i] in rest;
        if j < |rest| {
          assert rest[i] == s[i] && rest[j] == s[j];
        }
      }
    }
  }

  lemma FilterMapOnly<A, B>(s: seq<A>, f: A -> Option<B>, y: B)
    ensures FilterMap(s, f) == [y] <==> KeepsOnly(s, f, y)
  {
    FilterMapCount(s, f);
    FilterMapMembers(s, f, y);
    if FilterMap(s, f) == [y] {
      assert [y][0] in [y];
      var x :| x in s && f(x) == Some(y);
      var i :| 0 <= i < |s| && s[i] == x;
      assert !KeepsMany(s, f);
      forall j | 0 <= j < |s| && f(s[j]).Some? ensures j == i {}
    }
    if KeepsOnly(s, f, y) {
      assert !KeepsMany(s, f);
      assert y in FilterMap(s, f);
    }
  }

  /** The places of the elements that are kept. */
  ghost function Places<A, B>(s: seq<A>, f: A -> Option<B>): set<int> {
    set i | 0 <= i < |s| && f(s[i]).Some?
  }

  /** As many elements come out as are kept. */
  lemma {:induction false} FilterMapPlaces<A, B>(s: seq<A>, f: A -> Option<B>)
    ensures |FilterMap(s, f)| == |Places(s, f)|
  {
    if s != [] {
      var (rest, last) := (s[..|s| - 1], s[|s| - 1]);
      FilterMapPlaces(rest, f);
      assert Places(s, f) == Places(rest, f) + if f(last).Some? then {|rest|} else {};
    }
  }

  /** `f`, then `g` on what it keeps. */
  function Then<A, B, C>(f: A -> Option<B>, g: B -> Option<C>): A -> Option<C> {
    (x: A) => if f(x).Some? then g(f(x).value) else None
  }

  /** Two filters in a row are one. */
  lemma {:induction false} FilterMapTwice<A, B, C>(s: seq<A>, f: A -> Option<B>, g: B -> Option<C>)
    ensures FilterMap(FilterMap(s, f), g) == FilterMap(s, Then(f, g))
  {
    if s != [] {
      var (rest, last) := (s[..|s| - 1], s[|s| - 1]);
      FilterMapTwice(rest, f, g);
      FilterMapAppend(FilterMap(rest, f), Optional(f(last)), g);
      if f(last).Some? {
        FilterMapOne(f(last).value, g);
      }
    }
  }

  // ---- filtering and sorting ----------------------------------------------------------

  /** `f` carries one comparison over into another on what it keeps. */
  ghost predicate Carries<A(!new), B>(f: A -> Option<B>, leA: (A, A) -> bool, leB: (B, B) -> bool) {
    forall x, y | f(x).Some? && f(y).Some? :: leA(x, y) <==> leB(f(x).value, f(y).value)
  }

  lemma InsertBelow<A(!new), B>(x: A, s: seq<A>, f: A -> Option<B>, leA: (A, A) -> bool, leB: (B, B) -> bool)
    requires Carries(f, leA, leB) && f(x).Some?
    requires forall y | y in s :: leA(x, y)
    ensures Insert(f(x).value, FilterMap(s, f), leB) == [f(x).value] + FilterMap(s, f)
  {
    var kept := FilterMap(s, f);
    if kept != [] {
      FilterMapMembers(s, f, kept[0]);
      var y :| y in s && f(y) == Some(kept[0]);
      assert leA(x, y);
    }
  }

  lemma InsertAfter<A>(x: A, y: A, s: seq<A>, le: (A, A) -> bool)
    requires !le(x, y)
    ensures Insert(x, [y] + s, le) == [y] + Insert(x, s, le)
  {
    assert ([y] + s)[1..] == s;
  }

  lemma SortFirst<A>(x: A, s: seq<A>, le: (A, A) -> bool)
    ensures Sort([x] + s, le) == Insert(x, Sort(s, le), le)
  {
    assert ([x] + s)[1..] == s;
  }

  /** What inserting `x` and filtering come to, in this order. */
  function InsertKept<A, B>(x: A, kept: seq<B>, f: A -> Option<B>, leB: (B, B) -> bool): seq<B> {
    if f(x).Some? then Insert(f(x).value, kept, leB) else kept
  }

  lemma InsertFilteredNext<A(!new), B>(
      x: A, y: A, s: seq<A>, f: A -> Option<B>, leA: (A, A) -> bool, leB: (B, B) -> bool)
    requires Carries(f, leA, leB) && !leA(x, y)
    requires FilterMap(Insert(x, s, leA), f) == InsertKept(x, FilterMap(s, f), f, leB)
    ensures FilterMap(Insert(x, [y] + s, leA), f) == InsertKept(x, FilterMap([y] + s, f), f, leB)
  {
    hide FilterMap, Insert;
    InsertAfter(x, y, s, leA);
    FilterMapFirst(y, s, f);
    FilterMapFirst(y, Insert(x, s, leA), f);
    if f(x).Some? && f(y).Some? {
      InsertAfter(f(x).value, f(y).value, FilterMap(s, f), leB);
    }
  }

  /** Inserting into a sorted list and filtering it can be done in either order. */
  lemma {:induction false} InsertFiltered<A(!new), B>(
      x: A, s: seq<A>, f: A -> Option<B>, leA: (A, A) -> bool, leB: (B, B) -> bool)
    requires TotalPreorder(leA) && Carries(f, leA, leB) && Sorted(s, leA)
    ensures FilterMap(Insert(x, s, leA), f) == InsertKept(x, FilterMap(s, f), f, leB)
  {
    if s == [] {
      FilterMapOne(x, f);
    } else if leA(x, s[0]) {
      assert forall y | y in s :: leA(x, y);
      hide FilterMap, TotalPreorder, Carries;
      FilterMapFirst(x, s, f);
      if f(x).Some? {
        InsertBelow(x, s, f, leA, leB);
      }
    } else {
      hide FilterMap, TotalPreorder, Carries;
      var rest := s[1..];
      InsertFiltered(x, rest, f, leA, leB);
      InsertFilteredNext(x, s[0], rest, f, leA, leB);
      assert s == [s[0]] + rest;
    }
  }

  lemma SortFirstKept<A, B>(x: A, s: seq<A>, f: A -> Option<B>, leB: (B, B) -> bool)
    ensures Sort(FilterMap([x] + s, f), leB) == InsertKept(x, Sort(FilterMap(s, f), leB), f, leB)
  {
    hide FilterMap, Sort, Insert;
    FilterMapFirst(x, s, f);
    if f(x).Some? {
      SortFirst(f(x).value, FilterMap(s, f), leB);
    }
  }

  /** Stable sorting commutes with keeping and rewriting elements, ties included. */
  lemma {:induction false} SortFiltered<A(!new), B(!new)>(
      s: seq<A>, f: A -> Option<B>, leA: (A, A) -> bool, leB: (B, B) -> bool)
    requires TotalPreorder(leA) && Carries(f, leA, leB)
    ensures FilterMap(Sort(s, leA), f) == Sort(FilterMap(s, f), leB)
  {
    if s != [] {
      hide FilterMap, Insert, TotalPreorder, Carries, InsertKept, Sorted;
      var rest := s[1..];
      assert s == [s[0]] + rest;
      SortFiltered(rest, f, leA, leB);
      SortSorts(rest, leA);
      InsertFiltered(s[0], Sort(rest, leA), f, leA, leB);
      SortFirstKept(s[0], rest, f, leB);
    } else {
      assert FilterMap(s, f) == [];
    }
  }
}
