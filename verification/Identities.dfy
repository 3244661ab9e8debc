/** The identity derivation graph and its closure (src/static_schema.cpp:87-130). */
module Identities {
  import opened Wrappers

  datatype Ident = Ident(mod: Option<string>, name: string)

  /** Each identity with the identities directly derived from it. */
  type Graph = map<Ident, set<Ident>>

  // ---- derivation ----

  ghost predicate IsChain(g: Graph, p: seq<Ident>) {
    p != [] && forall i :: 0 <= i < |p| - 1 ==> p[i] in g && p[i + 1] in g[p[i]]
  }

  ghost predicate IsChainBetween(g: Graph, p: seq<Ident>, a: Ident, b: Ident) {
    IsChain(g, p) && p[0] == a && p[|p| - 1] == b
  }

  /** b is a, or derived from a through any number of steps. */
  ghost predicate Derives(g: Graph, a: Ident, b: Ident) {
    exists p :: IsChainBetween(g, p, a, b)
  }

  ghost predicate DerivesVia(g: Graph, from: set<Ident>, b: Ident) {
    exists d :: d in from && Derives(g, d, b)
  }

  lemma DerivesFirstStep(g: Graph, a: Ident, b: Ident)
    requires a in g
    ensures Derives(g, a, b) <==> a == b || DerivesVia(g, g[a], b)
  {
    if a == b {
      assert IsChainBetween(g, [a], a, b);
    } else if d :| d in g[a] && Derives(g, d, b) {
      var p :| IsChainBetween(g, p, d, b);
      assert IsChainBetween(g, [a] + p, a, b);
    }
    if Derives(g, a, b) && a != b {
      var p :| IsChainBetween(g, p, a, b);
      assert IsChainBetween(g, p[1..], p[1], b);
      assert p[1] in g[a];
    }
  }

  // ---- graphs built by addIdentity ----

  /** Every derived identity can be looked up. */
  ghost predicate IsClosed(g: Graph) {
    forall x, d :: x in g && d in g[x] ==> d in g
  }

  /** No identity derives from itself through others (section 7.18.2 of RFC 7950). */
  ghost predicate IsAcyclic(g: Graph) {
    forall p :: IsChain(g, p) && |p| > 1 ==> p[0] != p[|p| - 1]
  }

  function AddIdentity(g: Graph, base: Option<Ident>, name: Ident): (r: Option<Graph>)
    ensures r.None? <==> base.Some? && base.value !in g
  {
    if base.Some? && base.value !in g then None
    else
      var linked := if base.Some? then g[base.value := g[base.value] + {name}] else g;
      Some(if name in linked then linked else linked[name := {}])
  }

  /** What one call changes: the name can be looked up, and its base, if any, points to it. */
  lemma AddIdentityContents(g: Graph, base: Option<Ident>, name: Ident)
    requires base.Some? ==> base.value in g
    ensures var g' := AddIdentity(g, base, name).value;
            && g'.Keys == g.Keys + {name}
            && forall x :: x in g' ==>
                 g'[x] == (if x in g then g[x] else {}) + if base == Some(x) then {name} else {}
  {
  }

  lemma AddIdentityKeepsClosed(g: Graph, base: Option<Ident>, name: Ident)
    requires IsClosed(g) && (base.Some? ==> base.value in g)
    ensures IsClosed(AddIdentity(g, base, name).value)
  {
    AddIdentityContents(g, base, name);
    hide AddIdentity;
  }

  lemma DerivesItself(g: Graph, a: Ident)
    ensures Derives(g, a, a)
  {
    assert IsChainBetween(g, [a], a, a);
  }

  lemma DerivesTransitively(g: Graph, a: Ident, b: Ident, c: Ident)
    requires Derives(g, a, b) && Derives(g, b, c)
    ensures Derives(g, a, c)
  {
    var p :| IsChainBetween(g, p, a, b);
    var q :| IsChainBetween(g, q, b, c);
    assert IsChainBetween(g, p + q[1..], a, c);
  }

  lemma DerivesThrough(g: Graph, a: Ident, d: Ident, b: Ident)
    requires a in g && d in g[a] && Derives(g, d, b)
    ensures Derives(g, a, b)
  {
    var p :| IsChainBetween(g, p, d, b);
    assert IsChainBetween(g, [a] + p, a, b);
  }

  lemma WayBackIsCycle(g: Graph, x: Ident, d: Ident)
    requires x in g && d in g[x] && Derives(g, d, x)
    ensures !IsAcyclic(g)
  {
    var p :| IsChainBetween(g, p, d, x);
    var cycle := [x] + p;
    assert IsChain(g, cycle) && cycle[|cycle| - 1] == x;
  }

  /** Nothing else derives from an identity that cannot be looked up. */
  lemma UnknownDerivesNothing(g: Graph, a: Ident, b: Ident)
    requires a !in g && a != b
    ensures !Derives(g, a, b)
  {
    forall p
      ensures !IsChainBetween(g, p, a, b)
    {
    }
  }

  /** A cycle is an identity derived from one that is directly derived from it. */
  lemma AcyclicIffNoWayBack(g: Graph)
    ensures IsAcyclic(g) <==> forall x, d :: x in g && d in g[x] ==> !Derives(g, d, x)
  {
    if IsAcyclic(g) {
      forall x, d | x in g && d in g[x]
        ensures !Derives(g, d, x)
      {
        if Derives(g, d, x) {
          WayBackIsCycle(g, x, d);
        }
      }
    }
    if forall x, d :: x in g && d in g[x] ==> !Derives(g, d, x) {
      forall p | IsChain(g, p) && |p| > 1
        ensures p[0] != p[|p| - 1]
      {
        assert p[0] in g && p[1] in g[p[0]];
        assert IsChainBetween(g, p[1..], p[1], p[|p| - 1]);
      }
    }
  }

  /** In the extended graph b derives from a as before, or by way of the new step. */
  lemma {:induction false} ExtendedChain(g: Graph, base: Ident, name: Ident, p: seq<Ident>)
    requires base in g && IsChain(AddIdentity(g, Some(base), name).value, p)
    ensures var a, b := p[0], p[|p| - 1];
            Derives(g, a, b) || (Derives(g, a, base) && Derives(g, name, b))
    decreases |p|
  {
    var g' := AddIdentity(g, Some(base), name).value;
    AddIdentityContents(g, Some(base), name);
    hide AddIdentity, Derives;
    var a, b := p[0], p[|p| - 1];
    DerivesItself(g, a);
    if |p| > 1 {
      assert p[0] in g' && p[1] in g'[p[0]];
      ExtendedChain(g, base, name, p[1..]);
      if a in g && p[1] in g[a] {
        if Derives(g, p[1], b) {
          DerivesThrough(g, a, p[1], b);
        } else {
          DerivesThrough(g, a, p[1], base);
        }
      }
    }
  }

  lemma ExtendedDerives(g: Graph, base: Ident, name: Ident, a: Ident, b: Ident)
    requires base in g && Derives(AddIdentity(g, Some(base), name).value, a, b)
    ensures Derives(g, a, b) || (Derives(g, a, base) && Derives(g, name, b))
  {
    var p :| IsChainBetween(AddIdentity(g, Some(base), name).value, p, a, b);
    ExtendedChain(g, base, name, p);
  }

  lemma ChainIsKept(g: Graph, base: Ident, name: Ident, a: Ident, b: Ident)
    requires base in g && Derives(g, a, b)
    ensures Derives(AddIdentity(g, Some(base), name).value, a, b)
  {
    AddIdentityContents(g, Some(base), name);
    hide AddIdentity;
    var p :| IsChainBetween(g, p, a, b);
    assert IsChainBetween(AddIdentity(g, Some(base), name).value, p, a, b);
  }

  /** Adding an identity under a base keeps the graph acyclic if and only if the base is not derived
      from the identity (nor the identity itself); a new identity and a further base are both fine. */
  lemma AddedBaseKeepsAcyclicIff(g: Graph, base: Ident, name: Ident)
    requires IsAcyclic(g) && base in g
    ensures IsAcyclic(AddIdentity(g, Some(base), name).value) <==> !Derives(g, name, base)
  {
    var g' := AddIdentity(g, Some(base), name).value;
    AddIdentityContents(g, Some(base), name);
    AcyclicIffNoWayBack(g);
    AcyclicIffNoWayBack(g');
    hide AddIdentity, Derives, IsAcyclic;
    if Derives(g, name, base) {
      ChainIsKept(g, base, name, name, base);
      assert name in g'[base];
    } else {
      forall x, d | x in g' && d in g'[x]
        ensures !Derives(g', d, x)
      {
        if Derives(g', d, x) {
          ExtendedDerives(g, base, name, d, x);
          NoWayBack(g, base, name, x, d);
        }
      }
    }
  }

  /** A step of the extended graph has no way back around it. */
  lemma NoWayBack(g: Graph, base: Ident, name: Ident, x: Ident, d: Ident)
    requires forall y, e :: y in g && e in g[y] ==> !Derives(g, e, y)
    requires !Derives(g, name, base)
    requires (x in g && d in g[x]) || (x == base && d == name)
    ensures !(Derives(g, d, x) || (Derives(g, d, base) && Derives(g, name, x)))
  {
    if Derives(g, d, base) && Derives(g, name, x) {
      if x in g && d in g[x] {
        DerivesThrough(g, x, d, base);
        DerivesTransitively(g, name, x, base);
      }
    }
  }

  /** Adding an identity without a base changes no derivation. */
  lemma AddedRootKeepsAcyclic(g: Graph, name: Ident)
    requires IsAcyclic(g)
    ensures IsAcyclic(AddIdentity(g, None, name).value)
  {
    var g' := AddIdentity(g, None, name).value;
    forall p | IsChain(g', p) && |p| > 1
      ensures p[0] != p[|p| - 1]
    {
      forall i | 0 <= i < |p| - 1
        ensures p[i] in g && p[i + 1] in g[p[i]]
      {
        assert p[i] in g' && p[i + 1] in g'[p[i]];
      }
    }
  }

  /** Derivation never runs both ways between different identities. */
  lemma DerivationIsAntisymmetric(g: Graph, a: Ident, b: Ident)
    requires IsAcyclic(g) && Derives(g, a, b) && Derives(g, b, a)
    ensures a == b
  {
    if a != b {
      var p :| IsChainBetween(g, p, a, b);
      assert IsChainBetween(g, p[1..], p[1], b) && p[0] in g && p[1] in g[p[0]];
      DerivesTransitively(g, p[1], b, a);
      AcyclicIffNoWayBack(g);
    }
  }

  /** The smallest case of a reused name that closes a cycle: a, b under a, and a again under b. */
  lemma ReusedNameMakesCycle()
    ensures var a, b := Ident(Some("m"), "a"), Ident(Some("m"), "b");
            var g1 := AddIdentity(map[], None, a).value;
            var g2 := AddIdentity(g1, Some(a), b).value;
            IsAcyclic(g2) && !IsAcyclic(AddIdentity(g2, Some(b), a).value)
  {
    var a, b := Ident(Some("m"), "a"), Ident(Some("m"), "b");
    var g1 := AddIdentity(map[], None, a).value;
    var g2 := AddIdentity(g1, Some(a), b).value;
    assert a.name[0] != b.name[0];
    AddedRootKeepsAcyclic(map[], a);
    UnknownDerivesNothing(g1, b, a);
    AddedBaseKeepsAcyclicIff(g1, a, b);
    assert IsChainBetween(g2, [a, b], a, b);
    AddedBaseKeepsAcyclicIff(g2, b, a);
  }

  // ---- the closure ----

  /** The identities that the recursion below an identity can reach. */
  ghost function Reach(g: Graph, a: Ident): set<Ident> {
    set x | x in g && Derives(g, a, x)
  }

  lemma ReachShrinks(g: Graph, a: Ident, d: Ident)
    requires IsAcyclic(g) && a in g && d in g[a]
    ensures Reach(g, d) < Reach(g, a)
  {
    AcyclicIffNoWayBack(g);
    DerivesItself(g, a);
    forall x | x in Reach(g, d)
      ensures x in Reach(g, a)
    {
      DerivesThrough(g, a, d, x);
    }
    assert a in Reach(g, a) && a !in Reach(g, d);
  }

  /** getIdentSet: adds the identity, then recurses into each directly derived one; there is no
      check for identities already visited, so it ends because derivation is acyclic. */
  method GetIdentSet(g: Graph, ident: Ident, res: set<Ident>) returns (out: set<Ident>)
    requires IsClosed(g) && IsAcyclic(g) && ident in g
    ensures forall x :: x in out <==> x in res || Derives(g, ident, x)
    decreases Reach(g, ident)
  {
    hide IsAcyclic, Derives, Reach;
    out := res + {ident};
    var left := g[ident];
    ghost var done := {};
    assert forall x :: !DerivesVia(g, done, x);
    while left != {}
      invariant done + left == g[ident]
      invariant forall x :: x in out <==> x in res || x == ident || DerivesVia(g, done, x)
      decreases left
    {
      var d :| d in left;
      ReachShrinks(g, ident, d);
      out := GetIdentSet(g, d, out);
      forall x
        ensures x in out <==> x in res || x == ident || DerivesVia(g, done + {d}, x)
      {
        DerivesViaOneMore(g, done, d, x);
      }
      left, done := left - {d}, done + {d};
    }
    forall x
      ensures x in out <==> x in res || Derives(g, ident, x)
    {
      DerivesFirstStep(g, ident, x);
    }
  }

  lemma DerivesViaOneMore(g: Graph, from: set<Ident>, d: Ident, x: Ident)
    ensures DerivesVia(g, from + {d}, x) <==> DerivesVia(g, from, x) || Derives(g, d, x)
  {
    if DerivesVia(g, from, x) {
      var e :| e in from && Derives(g, e, x);
      assert e in from + {d};
    }
    if Derives(g, d, x) {
      assert d in from + {d};
    }
  }

  /** validIdentities: the base and everything derived from it, found from an empty set. */
  method ValidIdentities(g: Graph, base: Ident) returns (identities: set<Ident>)
    requires IsClosed(g) && IsAcyclic(g) && base in g
    ensures forall x :: x in identities <==> Derives(g, base, x)
  {
    identities := GetIdentSet(g, base, {});
  }
}
