/** Transitive deployment verbs: what an artifact commands directly or through what it invokes. */
module VerbResolution {
  import opened Sorting
  import Text

  /** A readable artifact: its verbs with the reason each counts, and the paths its text mentions. */
  datatype Artifact = Artifact(
    text: string, direct: map<string, string>, mentions: set<string>, directives: set<string>)

  /** The readable artifacts of a tree, by repository-relative path. */
  type Tree = map<string, Artifact>

  /** The artifacts one invokes: mentions resolved against what discovery found. */
  function Referenced(tree: Tree, known: set<string>, path: string): set<string>
    requires path in tree
  {
    tree[path].mentions * known
  }

  // ---- the specification: reachability ------------------------------------------------

  /** A call chain through readable artifacts: each mentions the next, which discovery found. */
  ghost predicate IsChain(tree: Tree, known: set<string>, p: seq<string>) {
    && p != []
    && (forall i | 0 <= i < |p| :: p[i] in tree)
    && (forall i {:trigger tree[p[i]]} | 0 <= i < |p| - 1 :: p[i + 1] in tree[p[i]].mentions && p[i + 1] in known)
  }

  ghost predicate Avoids(p: seq<string>, avoid: set<string>) {
    forall i | 0 <= i < |p| :: p[i] !in avoid
  }

  function Last(p: seq<string>): string
    requires p != []
  {
    p[|p| - 1]
  }

  /** `p` is a chain from `start`, clear of `avoid`, to an artifact that commands `verb` itself. */
  ghost predicate Leads(tree: Tree, known: set<string>, start: string, avoid: set<string>, verb: string, p: seq<string>)
  {
    IsChain(tree, known, p) && p[0] == start && Avoids(p, avoid) && verb in tree[Last(p)].direct
  }

  ghost predicate Commands(tree: Tree, known: set<string>, start: string, avoid: set<string>, verb: string) {
    exists p :: Leads(tree, known, start, avoid, verb, p)
  }

  // ---- the resolver ---------------------------------------------------------------------

  function Via(reason: string, callee: string): string {
    reason + " (via " + callee + ")"
  }

  /** `setdefault` of every verb of a callee: what is already recorded stays. */
  function Inherit(verbs: map<string, string>, inherited: map<string, string>, callee: string): map<string, string> {
    (map v | v in inherited :: Via(inherited[v], callee)) + verbs
  }

  function Callees(tree: Tree, known: set<string>, path: string, seen: set<string>): (r: seq<string>)
    requires path in tree
    ensures forall c :: c in r <==> c in tree[path].mentions && c in known && c !in seen
    ensures Sorted(r, Text.Le)
  {
    Text.InOrder(Referenced(tree, known, path) - seen)
  }

  /** The verbs of `path`; `seen` holds the artifacts on the way to it and nothing else. */
  function Resolve(tree: Tree, known: set<string>, path: string, seen: set<string>): map<string, string>
    decreases |({path} + known) - seen|, 0
  {
    if path in seen || path !in tree then map[]
    else
      Shrinks(known, path, seen);
      InheritAll(tree, known, tree[path].direct, Callees(tree, known, path, seen + {path}), seen + {path})
  }

  function InheritAll(
      tree: Tree, known: set<string>, verbs: map<string, string>, callees: seq<string>, seen: set<string>)
    : map<string, string>
    requires forall c | c in callees :: c in known
    decreases |known - seen|, 1 + |callees|
  {
    if callees == [] then verbs
    else
      assert {callees[0]} + known == known;
      InheritAll(tree, known, Inherit(verbs, Resolve(tree, known, callees[0], seen), callees[0]), callees[1..], seen)
  }

  lemma Shrinks(known: set<string>, path: string, seen: set<string>)
    requires path !in seen
    ensures |known - (seen + {path})| < |({path} + known) - seen|
  {
    var big, small := ({path} + known) - seen, known - (seen + {path});
    assert big == small + {path} && path !in small;
  }

  lemma ResolveUnfolds(tree: Tree, known: set<string>, path: string, seen: set<string>)
    ensures Resolve(tree, known, path, seen) ==
      if path in seen || path !in tree then map[]
      else InheritAll(tree, known, tree[path].direct, Callees(tree, known, path, seen + {path}), seen + {path})
  {
  }

  lemma InheritAllUnfolds(
      tree: Tree, known: set<string>, verbs: map<string, string>, callees: seq<string>, i: nat, seen: set<string>)
    requires i < |callees| && forall c | c in callees :: c in known
    ensures InheritAll(tree, known, verbs, callees[i..], seen)
      == InheritAll(
        tree, known, Inherit(verbs, Resolve(tree, known, callees[i], seen), callees[i]), callees[i + 1..], seen)
  {
    assert callees[i..][0] == callees[i] && callees[i..][1..] == callees[i + 1..];
  }

  /** The recursive resolver with its local dictionary; the set of artifacts seen is passed down, never shared. */
  method ResolveVerbs(tree: Tree, known: set<string>, path: string, seen: set<string>)
    returns (verbs: map<string, string>)
    ensures verbs == Resolve(tree, known, path, seen)
    decreases |({path} + known) - seen|
  {
    hide Resolve, InheritAll, Inherit, Callees, Sorted, Text.Le;
    ResolveUnfolds(tree, known, path, seen);
    if path in seen || path !in tree {
      return map[];
    }
    Shrinks(known, path, seen);
    verbs := tree[path].direct;
    var now := seen + {path};
    var callees := Callees(tree, known, path, now);
    assert callees[0..] == callees;
    for i := 0 to |callees|
      invariant forall c | c in callees[i..] :: c in known
      invariant Resolve(tree, known, path, seen) == InheritAll(tree, known, verbs, callees[i..], now)
    {
      InheritAllUnfolds(tree, known, verbs, callees, i, now);
      assert {callees[i]} + known == known;
      var inherited := ResolveVerbs(tree, known, callees[i], now);
      verbs := InheritFrom(verbs, inherited, callees[i]);
    }
    NothingToInherit(tree, known, verbs, now);
    assert callees[|callees|..] == [];
  }

  lemma NothingToInherit(tree: Tree, known: set<string>, verbs: map<string, string>, seen: set<string>)
    ensures InheritAll(tree, known, verbs, [], seen) == verbs
  {
  }

  method InheritFrom(verbs: map<string, string>, inherited: map<string, string>, callee: string)
    returns (r: map<string, string>)
    ensures r == Inherit(verbs, inherited, callee)
  {
    r := verbs;
    var remaining := inherited.Keys;
    while remaining != {}
      invariant remaining <= inherited.Keys
      invariant r.Keys == verbs.Keys + (inherited.Keys - remaining)
      invariant forall v | v in r :: r[v] == if v in verbs then verbs[v] else Via(inherited[v], callee)
    {
      var verb :| verb in remaining;
      if verb !in r {
        r := r[verb := Via(inherited[verb], callee)];
      }
      remaining := remaining - {verb};
    }
  }

  // ---- the resolver computes reachability ---------------------------------------------

  lemma ChainGrows(
      tree: Tree, known: set<string>, start: string, avoid: set<string>, verb: string, c: string, p: seq<string>)
    requires start in tree && start !in avoid && c in tree[start].mentions && c in known
    requires Leads(tree, known, c, avoid + {start}, verb, p)
    ensures Leads(tree, known, start, avoid, verb, [start] + p)
  {
    var q := [start] + p;
    assert Last(q) == Last(p);
    forall i | 0 <= i < |q| ensures q[i] in tree && q[i] !in avoid {
      if i > 0 {
        assert q[i] == p[i - 1];
      }
    }
    forall i {:trigger tree[q[i]]} | 0 <= i < |q| - 1 ensures q[i + 1] in tree[q[i]].mentions && q[i + 1] in known {
      if i > 0 {
        assert tree[q[i]] == tree[p[i - 1]] && q[i + 1] == p[i - 1 + 1];
      }
    }
  }

  /** What follows the last visit to `a` never comes back to it. */
  lemma {:induction false} AfterLastVisit(p: seq<string>, a: string) returns (k: nat)
    requires a in p
    ensures k < |p| && p[k] == a && forall i | k < i < |p| :: p[i] != a
  {
    if Last(p) == a {
      k := |p| - 1;
    } else {
      var q := p[..|p| - 1];
      assert p == q + [Last(p)];
      k := AfterLastVisit(q, a);
    }
  }

  /** What is left of a chain is a chain, and each step goes from an artifact to one it mentions. */
  lemma ChainEnds(tree: Tree, known: set<string>, p: seq<string>, n: nat)
    requires IsChain(tree, known, p) && n < |p|
    ensures IsChain(tree, known, p[n..]) && Last(p[n..]) == Last(p)
    ensures p[n] in tree && (n > 0 ==> p[n] in tree[p[n - 1]].mentions && p[n] in known)
  {
    var q := p[n..];
    forall i {:trigger tree[q[i]]} | 0 <= i < |q| - 1 ensures q[i + 1] in tree[q[i]].mentions && q[i + 1] in known {
      var j := n + i;
      assert q[i] == p[j] && q[i + 1] == p[j + 1];
      assert p[j + 1] in tree[p[j]].mentions && p[j + 1] in known;
    }
    if n > 0 {
      var j := n - 1;
      assert p[j + 1] in tree[p[j]].mentions && p[j + 1] in known;
    }
  }

  /** A chain from `start` either ends there or goes on, from a callee, without ever returning to it. */
  lemma ChainShrinks(tree: Tree, known: set<string>, start: string, avoid: set<string>, verb: string, p: seq<string>)
    returns (q: seq<string>)
    requires Leads(tree, known, start, avoid, verb, p)
    ensures q == [] ==> verb in tree[start].direct
    ensures q != [] ==>
      q[0] in tree[start].mentions && q[0] in known && q[0] !in avoid + {start}
      && Leads(tree, known, q[0], avoid + {start}, verb, q)
  {
    assert p[0] in p;
    var k := AfterLastVisit(p, start);
    q := p[k + 1..];
    if q == [] {
      assert k == |p| - 1;
    } else {
      ChainEnds(tree, known, p, k + 1);
      hide IsChain;
      forall i | 0 <= i < |q| ensures q[i] !in avoid + {start} {
        assert q[i] == p[k + 1 + i];
      }
      assert q[0] == p[k + 1] && p[k] == start;
    }
  }

  lemma CommandsStep(tree: Tree, known: set<string>, start: string, avoid: set<string>, verb: string)
    requires start in tree && start !in avoid
    ensures Commands(tree, known, start, avoid, verb) <==>
      verb in tree[start].direct
      || exists c | c in tree[start].mentions && c in known && c !in avoid + {start} ::
        Commands(tree, known, c, avoid + {start}, verb)
  {
    if p :| Leads(tree, known, start, avoid, verb, p) {
      var q := ChainShrinks(tree, known, start, avoid, verb, p);
      if q != [] {
        assert Commands(tree, known, q[0], avoid + {start}, verb);
      }
    }
    if verb in tree[start].direct {
      assert Leads(tree, known, start, avoid, verb, [start]);
    }
    if c :|
      c in tree[start].mentions && c in known && c !in avoid + {start}
      && Commands(tree, known, c, avoid + {start}, verb)
    {
      var p :| Leads(tree, known, c, avoid + {start}, verb, p);
      ChainGrows(tree, known, start, avoid, verb, c, p);
    }
  }

  /**
   * The verbs recorded for an artifact are exactly those commanded by some readable artifact that a
   * chain of readable artifacts reaches without touching `seen`, however the artifacts refer to each other.
   */
  lemma {:induction false} ResolveIsReachability(
      tree: Tree, known: set<string>, path: string, seen: set<string>, verb: string)
    ensures verb in Resolve(tree, known, path, seen) <==> Commands(tree, known, path, seen, verb)
    decreases |({path} + known) - seen|, 0
  {
    if path !in seen && path in tree {
      Shrinks(known, path, seen);
      CommandsStep(tree, known, path, seen, verb);
      InheritedAreReachable(tree, known, tree[path].direct, Callees(tree, known, path, seen + {path}), seen + {path},
        verb);
    }
  }

  lemma {:induction false} InheritedAreReachable(
      tree: Tree, known: set<string>, verbs: map<string, string>, callees: seq<string>, seen: set<string>,
      verb: string)
    requires forall c | c in callees :: c in known
    ensures verb in InheritAll(tree, known, verbs, callees, seen) <==>
      verb in verbs || exists c | c in callees :: Commands(tree, known, c, seen, verb)
    decreases |known - seen|, 1 + |callees|
  {
    if callees != [] {
      var c := callees[0];
      assert {c} + known == known;
      ResolveIsReachability(tree, known, c, seen, verb);
      InheritedAreReachable(tree, known, Inherit(verbs, Resolve(tree, known, c, seen), c), callees[1..], seen, verb);
      assert callees == [c] + callees[1..];
    }
  }

  // ---- reasons --------------------------------------------------------------------------

  /** The text the resolver appends along a chain, innermost call first. */
  function Trail(reason: string, p: seq<string>): string
    requires p != []
  {
    if |p| == 1 then reason else Via(Trail(reason, p[1..]), p[1])
  }

  /** The recorded reason is the direct reason at the end of a chain, followed by that chain. */
  ghost predicate Explains(
      tree: Tree, known: set<string>, start: string, avoid: set<string>, verb: string, reason: string, p: seq<string>)
  {
    Leads(tree, known, start, avoid, verb, p) && NoDuplicates(p) && reason == Trail(tree[Last(p)].direct[verb], p)
  }

  ghost predicate Explained(
      tree: Tree, known: set<string>, start: string, avoid: set<string>, verb: string, reason: string)
  {
    exists p :: Explains(tree, known, start, avoid, verb, reason, p)
  }

  /** Every recorded reason names a real, repetition-free call chain to an artifact that gives it. */
  lemma {:induction false} ReasonsAreReal(tree: Tree, known: set<string>, path: string, seen: set<string>, verb: string)
    requires verb in Resolve(tree, known, path, seen)
    ensures Explained(tree, known, path, seen, verb, Resolve(tree, known, path, seen)[verb])
    decreases |({path} + known) - seen|, 0
  {
    Shrinks(known, path, seen);
    hide Explained, Commands;
    var direct, callees := tree[path].direct, Callees(tree, known, path, seen + {path});
    InheritedReasonsAreReal(tree, known, direct, callees, seen + {path}, verb);
    var reason := Resolve(tree, known, path, seen)[verb];
    if verb in direct {
      DirectIsExplained(tree, known, path, seen, verb);
    } else {
      var c, inner :| c in callees && reason == Via(inner, c) && Explained(tree, known, c, seen + {path}, verb, inner);
      ExplanationGrows(tree, known, path, seen, verb, c, inner);
    }
  }

  lemma DirectIsExplained(tree: Tree, known: set<string>, path: string, avoid: set<string>, verb: string)
    requires path in tree && path !in avoid && verb in tree[path].direct
    ensures Explained(tree, known, path, avoid, verb, tree[path].direct[verb])
  {
    assert Explains(tree, known, path, avoid, verb, tree[path].direct[verb], [path]);
  }

  lemma ExplanationGrows(
      tree: Tree, known: set<string>, start: string, avoid: set<string>, verb: string, c: string, inner: string)
    requires start in tree && start !in avoid && c in tree[start].mentions && c in known
    requires Explained(tree, known, c, avoid + {start}, verb, inner)
    ensures Explained(tree, known, start, avoid, verb, Via(inner, c))
  {
    var p :| Explains(tree, known, c, avoid + {start}, verb, inner, p);
    ChainGrows(tree, known, start, avoid, verb, c, p);
    var q := [start] + p;
    assert q[1..] == p && Last(q) == Last(p);
    assert Explains(tree, known, start, avoid, verb, Via(inner, c), q);
  }

  lemma {:induction false} InheritedReasonsAreReal(
      tree: Tree, known: set<string>, verbs: map<string, string>, callees: seq<string>, seen: set<string>,
      verb: string)
    requires forall c | c in callees :: c in known
    requires verb in InheritAll(tree, known, verbs, callees, seen)
    ensures
      var reason := InheritAll(tree, known, verbs, callees, seen)[verb];
      if verb in verbs then reason == verbs[verb]
      else exists c, inner :: c in callees && reason == Via(inner, c) && Explained(tree, known, c, seen, verb, inner)
    decreases |known - seen|, 1 + |callees|
  {
    if callees != [] {
      var c := callees[0];
      assert {c} + known == known;
      var inherited := Resolve(tree, known, c, seen);
      if verb in inherited {
        ReasonsAreReal(tree, known, c, seen, verb);
      }
      InheritedReasonsAreReal(tree, known, Inherit(verbs, inherited, c), callees[1..], seen, verb);
      if verb !in verbs && verb !in inherited {
        var d, inner :| d in callees[1..]
          && InheritAll(tree, known, verbs, callees, seen)[verb] == Via(inner, d)
          && Explained(tree, known, d, seen, verb, inner);
        assert d in callees;
      }
    }
  }

  lemma InheritAllStep(
      tree: Tree, known: set<string>, verbs: map<string, string>, callees: seq<string>, seen: set<string>)
    requires callees != [] && forall c | c in callees :: c in known
    ensures InheritAll(tree, known, verbs, callees, seen)
      == InheritAll(
        tree, known, Inherit(verbs, Resolve(tree, known, callees[0], seen), callees[0]), callees[1..], seen)
  {
    assert {callees[0]} + known == known;
  }

  lemma InheritOne(verbs: map<string, string>, inherited: map<string, string>, callee: string, verb: string)
    requires verb !in verbs
    ensures verb in Inherit(verbs, inherited, callee) <==> verb in inherited
    ensures verb in inherited ==> Inherit(verbs, inherited, callee)[verb] == Via(inherited[verb], callee)
  {
  }

  /** The first of the callees from `k` on that supplies a verb nobody has recorded yet. */
  lemma {:induction false} FirstInherits(
      tree: Tree, known: set<string>, verbs: map<string, string>, callees: seq<string>, k: nat, seen: set<string>,
      verb: string)
    returns (i: nat)
    requires k <= |callees| && (forall c | c in callees :: c in known) && verb !in verbs
    requires verb in InheritAll(tree, known, verbs, callees[k..], seen)
    ensures k <= i < |callees| && verb in Resolve(tree, known, callees[i], seen)
    ensures forall j | k <= j < i :: verb !in Resolve(tree, known, callees[j], seen)
    ensures InheritAll(tree, known, verbs, callees[k..], seen)[verb]
      == Via(Resolve(tree, known, callees[i], seen)[verb], callees[i])
    decreases |callees| - k
  {
    NothingToInherit(tree, known, verbs, seen);
    hide Resolve, InheritAll, Inherit;
    assert callees[k..] != [];
    var inherited := Resolve(tree, known, callees[k], seen);
    var more := Inherit(verbs, inherited, callees[k]);
    InheritAllUnfolds(tree, known, verbs, callees, k, seen);
    InheritOne(verbs, inherited, callees[k], verb);
    if verb in inherited {
      i := k;
      KeptStays(tree, known, more, callees[k + 1..], seen, verb);
    } else {
      i := FirstInherits(tree, known, more, callees, k + 1, seen, verb);
    }
  }

  lemma {:induction false} KeptStays(
      tree: Tree, known: set<string>, verbs: map<string, string>, callees: seq<string>, seen: set<string>, verb: string)
    requires (forall c | c in callees :: c in known) && verb in verbs
    ensures verb in InheritAll(tree, known, verbs, callees, seen)
    ensures InheritAll(tree, known, verbs, callees, seen)[verb] == verbs[verb]
    decreases |callees|
  {
    if callees != [] {
      var c := callees[0];
      InheritAllStep(tree, known, verbs, callees, seen);
      hide Resolve, InheritAll;
      KeptStays(tree, known, Inherit(verbs, Resolve(tree, known, c, seen), c), callees[1..], seen, verb);
    }
  }

  /** `c` is called by `path`, off the artifacts seen, and leads to `verb`. */
  ghost predicate Supplies(
      tree: Tree, known: set<string>, path: string, seen: set<string>, c: string, verb: string)
    requires path in tree
  {
    && c in tree[path].mentions && c in known && c !in seen + {path}
    && Commands(tree, known, c, seen + {path}, verb)
  }

  /** An artifact's own reason is kept, else the reason its first supplying callee in text order recorded. */
  lemma KeptReason(tree: Tree, known: set<string>, path: string, seen: set<string>, verb: string)
    requires verb in Resolve(tree, known, path, seen)
    ensures path in tree && path !in seen
    ensures verb in tree[path].direct ==> Resolve(tree, known, path, seen)[verb] == tree[path].direct[verb]
    ensures verb !in tree[path].direct ==>
      exists c | Supplies(tree, known, path, seen, c, verb) ::
        && verb in Resolve(tree, known, c, seen + {path})
        && Resolve(tree, known, path, seen)[verb]
          == Resolve(tree, known, c, seen + {path})[verb] + " (via " + c + ")"
        && forall d | Supplies(tree, known, path, seen, d, verb) :: Text.Le(c, d)
  {
    ResolveUnfolds(tree, known, path, seen);
    hide Resolve, InheritAll, Commands, Inherit, Supplies;
    var now := seen + {path};
    var (direct, callees) := (tree[path].direct, Callees(tree, known, path, now));
    if verb in direct {
      KeptStays(tree, known, direct, callees, now, verb);
    } else {
      assert callees[0..] == callees;
      var i := FirstInherits(tree, known, direct, callees, 0, now, verb);
      FirstSupplies(tree, known, path, seen, callees, i, verb);
    }
  }

  lemma FirstSupplies(
      tree: Tree, known: set<string>, path: string, seen: set<string>, callees: seq<string>, i: nat, verb: string)
    requires path in tree && callees == Callees(tree, known, path, seen + {path}) && i < |callees|
    requires verb in Resolve(tree, known, callees[i], seen + {path})
    requires forall j | 0 <= j < i :: verb !in Resolve(tree, known, callees[j], seen + {path})
    ensures Supplies(tree, known, path, seen, callees[i], verb)
    ensures forall d | Supplies(tree, known, path, seen, d, verb) :: Text.Le(callees[i], d)
  {
    hide Resolve, Commands, Text.Le;
    var now := seen + {path};
    assert callees[i] in callees;
    ResolveIsReachability(tree, known, callees[i], now, verb);
    forall d | Supplies(tree, known, path, seen, d, verb) ensures Text.Le(callees[i], d) {
      ResolveIsReachability(tree, known, d, now, verb);
      assert d in callees;
      var j :| 0 <= j < |callees| && callees[j] == d;
      Text.LeTotal(d, d);
    }
  }

  // ---- Compose mutations -------------------------------------------------------------------

  const COMPOSE_MUTATION := "compose topology control"

  predicate ContainsAt(hay: string, needle: string, i: int) {
    0 <= i <= |hay| - |needle| && hay[i..i + |needle|] == needle
  }

  /** `needle in hay`. */
  predicate Within(hay: string, needle: string) {
    exists i | 0 <= i < |hay| + 1 :: ContainsAt(hay, needle, i)
  }

  lemma WithinMeans(hay: string, needle: string)
    ensures Within(hay, needle) <==> exists before, after :: hay == before + needle + after
  {
    if i :| 0 <= i < |hay| + 1 && ContainsAt(hay, needle, i) {
      assert hay == hay[..i] + needle + hay[i + |needle|..];
    }
    if before, after :| hay == before + needle + after {
      assert ContainsAt(hay, needle, |before|);
    }
  }

  /** A marker with no parenthesis and no final blank survives a trail, and a trail adds none. */
  predicate Plain(marker: string) {
    marker != "" && marker[|marker| - 1] != ' ' && '(' !in marker && ')' !in marker
  }

  lemma ViaKeepsMarker(reason: string, callee: string, marker: string)
    requires Plain(marker) && !Within("via " + callee, marker)
    ensures Within(Via(reason, callee), marker) <==> Within(reason, marker)
  {
    var s := reason + " (" + ("via " + callee) + ")";
    assert Via(reason, callee) == s;
    if i :| 0 <= i < |reason| + 1 && ContainsAt(reason, marker, i) {
      assert s[i..i + |marker|] == reason[i..i + |marker|];
      assert ContainsAt(s, marker, i);
    }
    if i :| 0 <= i < |s| + 1 && ContainsAt(s, marker, i) {
      MarkerIsInReason(reason, "via " + callee, marker, i);
    }
  }

  lemma MarkerIsInReason(reason: string, tail: string, marker: string, i: nat)
    requires Plain(marker) && !Within(tail, marker)
    requires ContainsAt(reason + " (" + tail + ")", marker, i)
    ensures Within(reason, marker)
  {
    var s := reason + " (" + tail + ")";
    if i + |marker| <= |reason| {
      assert s[i..i + |marker|] == reason[i..i + |marker|];
      assert ContainsAt(reason, marker, i);
    } else {
      MarkerIsInTail(reason, tail, marker, i);
    }
  }

  lemma MarkerIsInTail(reason: string, tail: string, marker: string, i: nat)
    requires Plain(marker) && i + |marker| > |reason|
    requires ContainsAt(reason + " (" + tail + ")", marker, i)
    ensures Within(tail, marker)
  {
    var s := reason + " (" + tail + ")";
    var n, k := |reason|, |marker|;
    assert s[n] == ' ' && s[n + 1] == '(' && s[|s| - 1] == ')';
    assert forall j | i <= j < i + k :: s[j] == marker[j - i];
    MiddleOf(reason + " (", tail, ")", i, k);
    assert ContainsAt(tail, marker, i - n - 2);
  }

  lemma MiddleOf(a: string, b: string, c: string, i: nat, k: nat)
    requires |a| <= i && i + k <= |a| + |b|
    ensures (a + b + c)[i..i + k] == b[i - |a|..i - |a| + k]
  {
  }

  /** A call adds the marker exactly when the callee's path carries it. */
  lemma ViaMarked(reason: string, callee: string, marker: string)
    requires Plain(marker)
    ensures Within(Via(reason, callee), marker) <==> Within(reason, marker) || Within("via " + callee, marker)
  {
    var tail := "via " + callee;
    if Within(tail, marker) {
      var i :| 0 <= i < |tail| + 1 && ContainsAt(tail, marker, i);
      var s := reason + " (" + tail + ")";
      assert Via(reason, callee) == s;
      var j := |reason| + 2 + i;
      MiddleOf(reason + " (", tail, ")", j, |marker|);
      assert ContainsAt(s, marker, j);
    } else {
      ViaKeepsMarker(reason, callee, marker);
    }
  }

  /** Some artifact called along the trail has the marker in its path. */
  ghost predicate PassesMarked(p: seq<string>, marker: string) {
    exists i | 0 < i < |p| :: Within("via " + p[i], marker)
  }

  lemma PassesNext(p: seq<string>, marker: string)
    requires |p| > 1
    ensures PassesMarked(p, marker) <==> PassesMarked(p[1..], marker) || Within("via " + p[1], marker)
  {
    if i :| 0 < i < |p| && Within("via " + p[i], marker) {
      assert i > 1 ==> p[1..][i - 1] == p[i];
    }
    if j :| 0 < j < |p[1..]| && Within("via " + p[1..][j], marker) {
      assert p[j + 1] == p[1..][j];
    }
  }

  /** A recorded reason carries the marker exactly when the direct reason or a path on its trail does. */
  lemma {:induction false} TrailMarked(reason: string, p: seq<string>, marker: string)
    requires Plain(marker) && p != []
    ensures Within(Trail(reason, p), marker) <==> Within(reason, marker) || PassesMarked(p, marker)
  {
    if |p| > 1 {
      hide Within, PassesMarked;
      TrailMarked(reason, p[1..], marker);
      ViaMarked(Trail(reason, p[1..]), p[1], marker);
      PassesNext(p, marker);
    }
  }

  /** A declared entrypoint, as far as the tree is asked about it. */
  datatype Entrypoint = Entrypoint(name: string, family: string, path: string, host: string, disposition: string)

  /** The verbs counted as Compose mutations of one resolved artifact. */
  function Mutations(verbs: map<string, string>): set<string> {
    set v | v in verbs && Within(verbs[v], COMPOSE_MUTATION)
  }

  /** Row `i` is the last flagged one of its name among the first `k`. */
  ghost predicate LastFlagged(entries: seq<Entrypoint>, k: nat, i: nat, tree: Tree, known: set<string>)
    requires k <= |entries|
  {
    && i < k && Flagged(entries[i], tree, known)
    && forall j | i < j < k && entries[j].name == entries[i].name :: !Flagged(entries[j], tree, known)
  }

  /** `found` holds, for each name with a flagged row, the mutations of the last such row. */
  ghost predicate FoundLast(
      found: map<string, set<string>>, entries: seq<Entrypoint>, k: nat, tree: Tree, known: set<string>)
    requires k <= |entries|
  {
    && (forall i | 0 <= i < k :: Flagged(entries[i], tree, known) ==> entries[i].name in found)
    && (forall name | name in found :: exists i: nat | i < k ::
          entries[i].name == name && LastFlagged(entries, k, i, tree, known)
          && found[name] == Mutations(Resolve(tree, known, entries[i].path, {})))
  }

  lemma FoundNext(found: map<string, set<string>>, entries: seq<Entrypoint>, k: nat, tree: Tree, known: set<string>)
    requires k < |entries| && FoundLast(found, entries, k, tree, known)
    ensures
      var (entry, mutations) := (entries[k], Mutations(Resolve(tree, known, entries[k].path, {})));
      var next := if Flagged(entry, tree, known) then found[entry.name := mutations] else found;
      FoundLast(next, entries, k + 1, tree, known)
  {
    hide Resolve, Mutations, Flagged;
    var entry := entries[k];
    var flagged := Flagged(entry, tree, known);
    var now := if flagged then found[entry.name := Mutations(Resolve(tree, known, entry.path, {}))] else found;
    forall name | name in now
      ensures exists i: nat | i < k + 1 ::
        entries[i].name == name && LastFlagged(entries, k + 1, i, tree, known)
        && now[name] == Mutations(Resolve(tree, known, entries[i].path, {}))
    {
      if flagged && name == entry.name {
        assert LastFlagged(entries, k + 1, k, tree, known);
      } else {
        var i: nat :| i < k
          && entries[i].name == name && LastFlagged(entries, k, i, tree, known)
          && found[name] == Mutations(Resolve(tree, known, entries[i].path, {}));
        assert LastFlagged(entries, k + 1, i, tree, known);
      }
    }
  }

  /**
   * The entrypoint rows whose resolved verbs include a Compose mutation; a later row of a name
   * replaces an earlier one.
   */
  method ComposeMutations(entries: seq<Entrypoint>, tree: Tree, known: set<string>)
    returns (found: map<string, set<string>>)
    ensures FoundLast(found, entries, |entries|, tree, known)
  {
    hide Resolve, Mutations, FoundLast;
    found := map[];
    assert FoundLast(map[], entries, 0, tree, known) by {
      NothingFound(entries, tree, known);
    }
    for k := 0 to |entries|
      invariant FoundLast(found, entries, k, tree, known)
    {
      FoundNext(found, entries, k, tree, known);
      var entry := entries[k];
      if entry.path != "" {
        var verbs := ResolveVerbs(tree, known, entry.path, {});
        var mutations := Mutations(verbs);
        if mutations != {} {
          found := found[entry.name := mutations];
        }
      }
    }
  }

  lemma NothingFound(entries: seq<Entrypoint>, tree: Tree, known: set<string>)
    ensures FoundLast(map[], entries, 0, tree, known)
  {
  }

  predicate Flagged(entry: Entrypoint, tree: Tree, known: set<string>) {
    entry.path != "" && Mutations(Resolve(tree, known, entry.path, {})) != {}
  }

  /** Some readable artifact that `path` reaches gives a verb the Compose-mutation reason. */
  ghost predicate ReachesMutation(tree: Tree, known: set<string>, path: string, verb: string, p: seq<string>) {
    Leads(tree, known, path, {}, verb, p) && Within(tree[Last(p)].direct[verb], COMPOSE_MUTATION)
  }

  /** Equal verbs have equal standing, as with the detector's patterns, no two of which match one text. */
  ghost predicate VerbsAgree(tree: Tree) {
    forall a, b, v | a in tree && b in tree && v in tree[a].direct && v in tree[b].direct ::
      Within(tree[a].direct[v], COMPOSE_MUTATION) == Within(tree[b].direct[v], COMPOSE_MUTATION)
  }

  /** The chain whose trail a recorded reason is, and when that reason carries the marker. */
  lemma ReasonMarked(tree: Tree, known: set<string>, path: string, verb: string) returns (p: seq<string>)
    requires verb in Resolve(tree, known, path, {})
    ensures Explains(tree, known, path, {}, verb, Resolve(tree, known, path, {})[verb], p)
    ensures Within(Resolve(tree, known, path, {})[verb], COMPOSE_MUTATION)
      <==> Within(tree[Last(p)].direct[verb], COMPOSE_MUTATION) || PassesMarked(p, COMPOSE_MUTATION)
  {
    hide Resolve, Within, Trail, PassesMarked;
    ReasonsAreReal(tree, known, path, {}, verb);
    p :| Explains(tree, known, path, {}, verb, Resolve(tree, known, path, {})[verb], p);
    TrailMarked(tree[Last(p)].direct[verb], p, COMPOSE_MUTATION);
  }

  /** The reason kept for `verb` comes from a Compose mutation at the end of `p`, or from a path on the way. */
  ghost predicate Counts(tree: Tree, known: set<string>, path: string, verb: string, p: seq<string>) {
    && verb in Resolve(tree, known, path, {})
    && Explains(tree, known, path, {}, verb, Resolve(tree, known, path, {})[verb], p)
    && (Within(tree[Last(p)].direct[verb], COMPOSE_MUTATION) || PassesMarked(p, COMPOSE_MUTATION))
  }

  /**
   * On any tree, a row is counted exactly when the one chain kept for some verb ends at a Compose
   * mutation or passes an artifact whose path spells the marker.
   */
  lemma ComposeCountMeans(entry: Entrypoint, tree: Tree, known: set<string>)
    requires entry.path != ""
    ensures Flagged(entry, tree, known) <==> exists verb, p :: Counts(tree, known, entry.path, verb, p)
  {
    hide Resolve, Within, Explains, PassesMarked, Trail;
    var verbs := Resolve(tree, known, entry.path, {});
    if v :| v in Mutations(verbs) {
      var p := ReasonMarked(tree, known, entry.path, v);
      assert Counts(tree, known, entry.path, v, p);
    }
    if v, p :| Counts(tree, known, entry.path, v, p) {
      MarkedIfCounted(tree, known, entry.path, v, p);
      assert v in Mutations(verbs);
    }
  }

  lemma MarkedIfCounted(tree: Tree, known: set<string>, path: string, verb: string, p: seq<string>)
    requires Counts(tree, known, path, verb, p)
    ensures Within(Resolve(tree, known, path, {})[verb], COMPOSE_MUTATION)
  {
    hide Resolve, Within, Trail, PassesMarked;
    TrailMarked(tree[Last(p)].direct[verb], p, COMPOSE_MUTATION);
  }

  /** A row is counted whenever all that command one of its verbs are callees whose paths spell the marker. */
  lemma MarkedCalleesAreCounted(entry: Entrypoint, tree: Tree, known: set<string>, verb: string)
    requires entry.path != "" && Commands(tree, known, entry.path, {}, verb)
    requires forall a | a in tree && verb in tree[a].direct ::
      a != entry.path && Within("via " + a, COMPOSE_MUTATION)
    ensures Flagged(entry, tree, known)
  {
    hide Resolve, Within, Trail;
    ResolveIsReachability(tree, known, entry.path, {}, verb);
    var p := ReasonMarked(tree, known, entry.path, verb);
    assert Last(p) in tree && verb in tree[Last(p)].direct;
    assert PassesMarked(p, COMPOSE_MUTATION);
    assert verb in Mutations(Resolve(tree, known, entry.path, {}));
  }

  ghost predicate Reaches(entry: Entrypoint, tree: Tree, known: set<string>) {
    exists verb, p :: ReachesMutation(tree, known, entry.path, verb, p)
  }

  /** No discovered path but, it may be, the row's own spells the marker. */
  ghost predicate OthersPlain(entry: Entrypoint, known: set<string>) {
    forall c | c in known && c != entry.path :: !Within("via " + c, COMPOSE_MUTATION)
  }

  /** The row's own path is never called on a kept chain, so only other paths could add the marker. */
  lemma KeptChainPassesNone(
      entry: Entrypoint, tree: Tree, known: set<string>, verb: string, reason: string, p: seq<string>)
    requires OthersPlain(entry, known) && Explains(tree, known, entry.path, {}, verb, reason, p)
    ensures !PassesMarked(p, COMPOSE_MUTATION)
  {
    hide Within, Trail;
    forall i | 0 < i < |p| ensures !Within("via " + p[i], COMPOSE_MUTATION) {
      assert p[i - 1 + 1] in tree[p[i - 1]].mentions;
      assert p[0] != p[i];
    }
  }

  lemma CountedRowReaches(entry: Entrypoint, tree: Tree, known: set<string>)
    requires OthersPlain(entry, known) && Flagged(entry, tree, known)
    ensures Reaches(entry, tree, known)
  {
    hide Resolve, Within, Explains, OthersPlain, PassesMarked, Trail;
    var verb :| verb in Mutations(Resolve(tree, known, entry.path, {}));
    var p := ReasonMarked(tree, known, entry.path, verb);
    KeptChainPassesNone(entry, tree, known, verb, Resolve(tree, known, entry.path, {})[verb], p);
    ExplainedLeads(tree, known, entry.path, verb, Resolve(tree, known, entry.path, {})[verb], p);
    assert ReachesMutation(tree, known, entry.path, verb, p);
  }

  lemma ExplainedLeads(tree: Tree, known: set<string>, path: string, verb: string, reason: string, p: seq<string>)
    requires Explains(tree, known, path, {}, verb, reason, p)
    ensures Leads(tree, known, path, {}, verb, p)
  {
  }

  /** When verbs agree, every row that reaches a Compose mutation is counted, whatever its paths spell. */
  lemma ReachingRowIsCounted(entry: Entrypoint, tree: Tree, known: set<string>)
    requires entry.path != "" && VerbsAgree(tree) && Reaches(entry, tree, known)
    ensures Flagged(entry, tree, known)
  {
    hide Resolve, Within, Trail, PassesMarked;
    var verb, p :| ReachesMutation(tree, known, entry.path, verb, p);
    assert Commands(tree, known, entry.path, {}, verb);
    ResolveIsReachability(tree, known, entry.path, {}, verb);
    var q := ReasonMarked(tree, known, entry.path, verb);
    assert verb in Mutations(Resolve(tree, known, entry.path, {}));
  }

  /** A script at `start` that calls a remote shell kept at `callee`. */
  function ShellTree(start: string, callee: string): Tree {
    map[
      start := Artifact("", map[], {callee}, {}),
      callee := Artifact("", map["ssh" := "remote execution"], {}, {})]
  }

  lemma ShellIsNoMutation()
    ensures !Within("remote execution", COMPOSE_MUTATION)
  {
  }

  lemma ShellIsReached(start: string, callee: string, known: set<string>)
    requires start != callee && callee in known
    ensures Leads(ShellTree(start, callee), known, start, {}, "ssh", [start, callee])
  {
    var (tree, p) := (ShellTree(start, callee), [start, callee]);
    assert p[0] in tree && p[1] in tree;
    assert p[0 + 1] in tree[p[0]].mentions;
  }

  lemma ShellVerbs(start: string, callee: string)
    requires start != callee
    ensures VerbsAgree(ShellTree(start, callee))
    ensures forall a | a in ShellTree(start, callee) && "ssh" in ShellTree(start, callee)[a].direct :: a == callee
  {
    hide Within, COMPOSE_MUTATION;
  }

  /** A tree without a Compose mutation and with agreeing verbs whose row is counted all the same. */
  lemma MarkedCalleeMisleads(entry: Entrypoint, known: set<string>, callee: string)
    requires entry.path != "" && callee in known && callee != entry.path
    requires Within("via " + callee, COMPOSE_MUTATION)
    ensures
      var tree := ShellTree(entry.path, callee);
      VerbsAgree(tree) && Flagged(entry, tree, known) && !Reaches(entry, tree, known)
  {
    var tree := ShellTree(entry.path, callee);
    ShellIsReached(entry.path, callee, known);
    ShellVerbs(entry.path, callee);
    hide ShellTree, Within, Leads, Flagged, COMPOSE_MUTATION, VerbsAgree;
    MarkedCalleesAreCounted(entry, tree, known, "ssh");
    forall verb, p ensures !ReachesMutation(tree, known, entry.path, verb, p) {
      NothingMutates(entry.path, callee, known, verb, p);
    }
  }

  lemma NothingMutates(start: string, callee: string, known: set<string>, verb: string, p: seq<string>)
    ensures !ReachesMutation(ShellTree(start, callee), known, start, verb, p)
  {
    ShellIsNoMutation();
    hide Within;
    if Leads(ShellTree(start, callee), known, start, {}, verb, p) {
      assert ShellTree(start, callee)[Last(p)].direct[verb] == "remote execution";
    }
  }

  /**
   * Whatever the tree holds, a counted row reaches a Compose mutation: this is so exactly when no
   * discovered path other than the row's own spells the marker.
   */
  lemma CountedRowsReach(entry: Entrypoint, known: set<string>)
    requires entry.path != ""
    ensures (forall tree :: Flagged(entry, tree, known) ==> Reaches(entry, tree, known)) <==> OthersPlain(entry, known)
  {
    hide Flagged, Reaches, Within;
    if OthersPlain(entry, known) {
      forall tree | Flagged(entry, tree, known) ensures Reaches(entry, tree, known) {
        CountedRowReaches(entry, tree, known);
      }
    } else {
      var callee :| callee in known && callee != entry.path && Within("via " + callee, COMPOSE_MUTATION);
      MarkedCalleeMisleads(entry, known, callee);
    }
  }

  /**
   * On every tree whose verbs agree, a row is counted exactly when it reaches a Compose mutation:
   * this is so exactly under the same condition.
   */
  lemma ComposeCountIsExact(entry: Entrypoint, known: set<string>)
    requires entry.path != ""
    ensures (forall tree | VerbsAgree(tree) :: Flagged(entry, tree, known) <==> Reaches(entry, tree, known))
      <==> OthersPlain(entry, known)
  {
    hide Flagged, Reaches, Within, VerbsAgree;
    if OthersPlain(entry, known) {
      forall tree | VerbsAgree(tree) ensures Flagged(entry, tree, known) <==> Reaches(entry, tree, known) {
        if Flagged(entry, tree, known) {
          CountedRowReaches(entry, tree, known);
        }
        if Reaches(entry, tree, known) {
          ReachingRowIsCounted(entry, tree, known);
        }
      }
    } else {
      var callee :| callee in known && callee != entry.path && Within("via " + callee, COMPOSE_MUTATION);
      MarkedCalleeMisleads(entry, known, callee);
    }
  }

  /** For instance, a shell script kept in a file named after the marker. */
  lemma MisnamedCalleeIsCounted(entry: Entrypoint)
    requires entry.path == "a"
    ensures
      var (tree, known) := (ShellTree("a", COMPOSE_MUTATION), {COMPOSE_MUTATION});
      Flagged(entry, tree, known) && !Reaches(entry, tree, known)
  {
    assert |"a"| != |COMPOSE_MUTATION|;
    assert ContainsAt("via " + COMPOSE_MUTATION, COMPOSE_MUTATION, 4);
    MarkedCalleeMisleads(entry, {COMPOSE_MUTATION}, COMPOSE_MUTATION);
  }

  // ---- reconciling declared rows with the tree -----------------------------------------------

  /** What is asked of a family when a row names no path or supervises others. */
  datatype Families = Families(treeComplete: set<string>, reactivating: set<string>)

  datatype Finding =
    | PathRequired(row: nat)
    | NoCoordinate(row: nat)
    | PathGone(row: nat)
    | ActsUnbidden(row: nat)
    | WeakerVerdict(row: nat)
    | CommandsVerbs(row: nat, verbs: set<string>)
    | NamesProduction(row: nat, targets: set<string>)

  function NamedTargets(text: string, targets: set<string>): set<string> {
    set target | target in targets && target != "" && Within(text, target)
  }

  /** The row contradicts the tree: its coordinate, or the verdict it claims. */
  ghost predicate Contradicted(
      entry: Entrypoint, tree: Tree, known: set<string>, targets: set<string>, families: Families)
  {
    if entry.path == "" then entry.family in families.treeComplete || entry.host == ""
    else if entry.path !in tree then true
    else
      var directives := tree[entry.path].directives;
      || (entry.family in families.reactivating && entry.disposition == "not_an_executor" && directives != {})
      || (entry.family in families.reactivating && entry.disposition == "reactivates_no_declared_executor"
          && directives == {})
      || (entry.disposition == "not_an_executor" && exists verb :: Commands(tree, known, entry.path, {}, verb))
      || (entry.disposition == "non_production_executor"
          && exists target | target in targets :: target != "" && Within(tree[entry.path].text, target))
  }

  /** `found` are all the verbs `path` leads to. */
  ghost predicate AreVerbs(found: set<string>, tree: Tree, known: set<string>, path: string) {
    forall verb :: verb in found <==> Commands(tree, known, path, {}, verb)
  }

  /** `found` are the targets that stand somewhere in the text. */
  ghost predicate AreTargets(found: set<string>, text: string, targets: set<string>) {
    forall target :: target in found <==>
      target in targets && target != "" && exists before, after :: text == before + target + after
  }

  /** Which findings a row draws. */
  ghost predicate Finds(
      p: Finding, entry: Entrypoint, tree: Tree, known: set<string>, targets: set<string>, families: Families)
  {
    match p
    case PathRequired(_) => entry.path == "" && entry.family in families.treeComplete
    case NoCoordinate(_) => entry.path == "" && entry.family !in families.treeComplete && entry.host == ""
    case PathGone(_) => entry.path != "" && entry.path !in tree
    case ActsUnbidden(_) =>
      && entry.path != "" && entry.path in tree && tree[entry.path].directives != {}
      && entry.family in families.reactivating && entry.disposition == "not_an_executor"
    case WeakerVerdict(_) =>
      && entry.path != "" && entry.path in tree && tree[entry.path].directives == {}
      && entry.family in families.reactivating && entry.disposition == "reactivates_no_declared_executor"
    case CommandsVerbs(_, verbs) =>
      && entry.path != "" && entry.path in tree && entry.disposition == "not_an_executor"
      && verbs != {} && AreVerbs(verbs, tree, known, entry.path)
    case NamesProduction(_, named) =>
      && entry.path != "" && entry.path in tree && entry.disposition == "non_production_executor"
      && named != {} && AreTargets(named, tree[entry.path].text, targets)
  }

  /** A row is contradicted exactly when it draws a finding. */
  lemma ContradictedMeans(
      row: nat, entry: Entrypoint, tree: Tree, known: set<string>, targets: set<string>, families: Families)
    ensures Contradicted(entry, tree, known, targets, families)
      <==> exists p: Finding :: p.row == row && Finds(p, entry, tree, known, targets, families)
  {
    hide Commands, Resolve, Within;
    if entry.path == "" {
      assert Finds(PathRequired(row), entry, tree, known, targets, families) <==> entry.family in families.treeComplete;
      assert Finds(NoCoordinate(row), entry, tree, known, targets, families)
        <==> entry.family !in families.treeComplete && entry.host == "";
    } else if entry.path !in tree {
      assert Finds(PathGone(row), entry, tree, known, targets, families);
    } else {
      ContradictedByTree(row, entry, tree, known, targets, families);
    }
  }

  lemma ContradictedByTree(
      row: nat, entry: Entrypoint, tree: Tree, known: set<string>, targets: set<string>, families: Families)
    requires entry.path != "" && entry.path in tree
    ensures Contradicted(entry, tree, known, targets, families)
      <==> exists p: Finding :: p.row == row && Finds(p, entry, tree, known, targets, families)
  {
    hide Contradicted, Finds;
    if Contradicted(entry, tree, known, targets, families) {
      var p := DrawnFinding(row, entry, tree, known, targets, families);
    }
    forall p: Finding | Finds(p, entry, tree, known, targets, families)
      ensures Contradicted(entry, tree, known, targets, families)
    {
      FindingContradicts(p, entry, tree, known, targets, families);
    }
  }

  lemma DrawnFinding(
      row: nat, entry: Entrypoint, tree: Tree, known: set<string>, targets: set<string>, families: Families)
    returns (p: Finding)
    requires entry.path != "" && entry.path in tree && Contradicted(entry, tree, known, targets, families)
    ensures p.row == row && Finds(p, entry, tree, known, targets, families)
  {
    var verbs := Resolve(tree, known, entry.path, {}).Keys;
    var named := NamedTargets(tree[entry.path].text, targets);
    FoundVerbs(verbs, tree, known, entry.path);
    FoundTargets(named, tree[entry.path].text, targets);
    hide Commands, Resolve, Within, AreVerbs, AreTargets, NamedTargets;
    var acting := entry.family in families.reactivating;
    if acting && entry.disposition == "not_an_executor" && tree[entry.path].directives != {} {
      p := ActsUnbidden(row);
    } else if acting && entry.disposition == "reactivates_no_declared_executor" && tree[entry.path].directives == {} {
      p := WeakerVerdict(row);
    } else if entry.disposition == "not_an_executor" {
      p := CommandsVerbs(row, verbs);
    } else {
      p := NamesProduction(row, named);
    }
  }

  lemma FindingContradicts(
      p: Finding, entry: Entrypoint, tree: Tree, known: set<string>, targets: set<string>, families: Families)
    requires entry.path != "" && entry.path in tree && Finds(p, entry, tree, known, targets, families)
    ensures Contradicted(entry, tree, known, targets, families)
  {
    FoundVerbs(Resolve(tree, known, entry.path, {}).Keys, tree, known, entry.path);
    FoundTargets(NamedTargets(tree[entry.path].text, targets), tree[entry.path].text, targets);
    hide Commands, Resolve, Within, AreVerbs, AreTargets, NamedTargets;
  }

  /** What a supervisor's reactivation directives say against its verdict. */
  method CheckReactivation(
      row: nat, entry: Entrypoint, tree: Tree, known: set<string>, targets: set<string>, families: Families)
    returns (problems: seq<Finding>)
    requires entry.path != "" && entry.path in tree
    ensures forall p: Finding :: p in problems <==>
      p.row == row && (p.ActsUnbidden? || p.WeakerVerdict?) && Finds(p, entry, tree, known, targets, families)
  {
    hide AreVerbs, AreTargets;
    problems := [];
    var directives := tree[entry.path].directives;
    if entry.family in families.reactivating {
      if entry.disposition == "not_an_executor" && directives != {} {
        problems := problems + [ActsUnbidden(row)];
      }
      if entry.disposition == "reactivates_no_declared_executor" && directives == {} {
        problems := problems + [WeakerVerdict(row)];
      }
    }
  }

  /** What the verbs an artifact leads to, or the targets it names, say against the row's verdict. */
  method CheckPremise(
      row: nat, entry: Entrypoint, tree: Tree, known: set<string>, targets: set<string>, families: Families)
    returns (problems: seq<Finding>)
    requires entry.path != "" && entry.path in tree
    ensures forall p: Finding :: p in problems <==>
      p.row == row && (p.CommandsVerbs? || p.NamesProduction?) && Finds(p, entry, tree, known, targets, families)
  {
    hide Resolve, Within, AreVerbs, AreTargets;
    problems := [];
    var verbs := ResolveVerbs(tree, known, entry.path, {});
    FoundVerbs(verbs.Keys, tree, known, entry.path);
    if entry.disposition == "not_an_executor" {
      if verbs.Keys != {} {
        problems := problems + [CommandsVerbs(row, verbs.Keys)];
      }
    } else if entry.disposition == "non_production_executor" {
      var named := NamedTargets(tree[entry.path].text, targets);
      FoundTargets(named, tree[entry.path].text, targets);
      if named != {} {
        problems := problems + [NamesProduction(row, named)];
      }
    }
  }

  /** The findings on one row. */
  method CheckRow(row: nat, entry: Entrypoint, tree: Tree, known: set<string>, targets: set<string>, families: Families)
    returns (problems: seq<Finding>)
    ensures problems == [] <==> !Contradicted(entry, tree, known, targets, families)
    ensures forall p: Finding :: p in problems <==> p.row == row && Finds(p, entry, tree, known, targets, families)
    ensures forall p | p in problems && p.CommandsVerbs? ::
      forall verb :: verb in p.verbs <==> Commands(tree, known, entry.path, {}, verb)
  {
    ContradictedMeans(row, entry, tree, known, targets, families);
    hide Contradicted, Commands, AreTargets;
    problems := [];
    if entry.path == "" {
      if entry.family in families.treeComplete {
        problems := [PathRequired(row)];
      } else if entry.host == "" {
        problems := [NoCoordinate(row)];
      }
    } else if entry.path !in tree {
      problems := [PathGone(row)];
    } else {
      var acting := CheckReactivation(row, entry, tree, known, targets, families);
      var premise := CheckPremise(row, entry, tree, known, targets, families);
      problems := acting + premise;
    }
    if problems != [] {
      assert problems[0] in problems;
    }
  }

  lemma FoundVerbs(verbs: set<string>, tree: Tree, known: set<string>, path: string)
    requires verbs == Resolve(tree, known, path, {}).Keys
    ensures verbs != {} <==> exists verb :: Commands(tree, known, path, {}, verb)
    ensures forall found :: AreVerbs(found, tree, known, path) <==> found == verbs
  {
    hide Commands, Resolve;
    forall verb ensures verb in verbs <==> Commands(tree, known, path, {}, verb) {
      ResolveIsReachability(tree, known, path, {}, verb);
    }
    if verbs != {} {
      var verb :| verb in verbs;
    }
  }

  lemma FoundTargets(named: set<string>, text: string, targets: set<string>)
    requires named == NamedTargets(text, targets)
    ensures named != {} <==> exists target | target in targets :: target != "" && Within(text, target)
    ensures forall found :: AreTargets(found, text, targets) <==> found == named
  {
    forall target ensures Within(text, target) <==> exists before, after :: text == before + target + after {
      WithinMeans(text, target);
    }
    hide Within;
    if named != {} {
      var target :| target in named;
    }
    if target :| target in targets && target != "" && Within(text, target) {
      assert target in named;
    }
  }

  ghost predicate ReportedRow(problems: seq<Finding>, row: nat) {
    exists p | p in problems :: p.row == row
  }

  /** The loop over the declared rows: a row draws a finding exactly when the tree contradicts it. */
  method ReconcileRows(
      entries: seq<Entrypoint>, tree: Tree, known: set<string>, targets: set<string>, families: Families)
    returns (problems: seq<Finding>)
    ensures forall row | 0 <= row < |entries| ::
      ReportedRow(problems, row) <==> Contradicted(entries[row], tree, known, targets, families)
  {
    hide Contradicted;
    problems := [];
    for row := 0 to |entries|
      invariant forall p | p in problems :: p.row < row
      invariant forall r | 0 <= r < row ::
        ReportedRow(problems, r) <==> Contradicted(entries[r], tree, known, targets, families)
    {
      var more := CheckRow(row, entries[row], tree, known, targets, families);
      assert more != [] ==> more[0] in problems + more;
      forall r | 0 <= r < row ensures ReportedRow(problems + more, r) <==> ReportedRow(problems, r) {
        if ReportedRow(problems, r) {
          var p :| p in problems && p.row == r;
          assert p in problems + more;
        }
      }
      problems := problems + more;
    }
  }

  /** A row that passes as `not_an_executor` reaches, through any chain of readable artifacts, no deployment verb. */
  lemma PassedRowReachesNothing(
      entry: Entrypoint, tree: Tree, known: set<string>, targets: set<string>, families: Families, p: seq<string>)
    requires entry.disposition == "not_an_executor" && entry.path != ""
    requires !Contradicted(entry, tree, known, targets, families)
    requires IsChain(tree, known, p) && p[0] == entry.path
    ensures tree[Last(p)].direct == map[]
  {
    if verb :| verb in tree[Last(p)].direct {
      assert Leads(tree, known, entry.path, {}, verb, p);
      assert Commands(tree, known, entry.path, {}, verb);
    }
  }
}
