/** The in-memory datastore as a handle into a ring of sibling data nodes: removing and moving nodes
    (src/yang_access.cpp:61-191). Finding a node by path is libyang's, so the methods take what it
    finds. */
module YangAccess {
  import opened Wrappers
  import Text

  /** A data node: its identity, the module it belongs to, and its schema node. */
  datatype Node = Node(id: nat, mod: string, schema: string)

  /** The top-level siblings, first to last; no node is there twice. */
  type Ring = seq<Node>

  const LIBRARY := "ietf-yang-library"

  predicate AreDistinct(ring: Ring) {
    forall i, j :: 0 <= i < j < |ring| ==> ring[i] != ring[j]
  }

  function IndexOf(ring: Ring, node: Node): (i: nat)
    requires node in ring
    ensures i < |ring| && ring[i] == node
  {
    if ring[0] == node then 0 else 1 + IndexOf(ring[1..], node)
  }

  function Without(ring: Ring, i: nat): Ring
    requires i < |ring|
  {
    ring[..i] + ring[i + 1..]
  }

  /** The siblings after a node, which may lie below them, is unlinked. */
  function Unlinked(ring: Ring, node: Node): Ring {
    if node in ring then Without(ring, IndexOf(ring, node)) else ring
  }

  // ---- the walk around the ring ----

  /** previousSibling goes around: before the first sibling comes the last. */
  function Previous(i: nat, n: nat): nat
    requires i < n
  {
    if i == 0 then n - 1 else i - 1
  }

  /** The position k steps back from i. */
  function Back(i: nat, k: nat, n: nat): (r: nat)
    requires i < n && k <= n
    ensures r < n
  {
    if k <= i then i - k else i - k + n
  }

  /** Stepping back from a sibling meets every other one within one turn. */
  lemma BackMeetsEverySibling(n: nat, i: nat, q: nat)
    requires i < n && q < n && q != i
    ensures exists k :: 0 < k < n && Back(i, k, n) == q
  {
    var k := if q < i then i - q else i - q + n;
    assert 0 < k < n && Back(i, k, n) == q;
  }

  /** k steps back lies the nearest sibling that is not from ietf-yang-library. */
  predicate IsNearestBack(ring: Ring, i: nat, k: nat)
    requires i < |ring|
  {
    && 0 < k < |ring|
    && ring[Back(i, k, |ring|)].mod != LIBRARY
    && forall j :: 0 < j < k ==> ring[Back(i, j, |ring|)].mod == LIBRARY
  }

  /** The handle after its node was removed: empty exactly when all other siblings are from
      ietf-yang-library, else the nearest preceding one that is not. */
  ghost predicate IsReplacement(ring: Ring, removed: Node, handle: Option<Node>)
    requires removed in ring
  {
    var i := IndexOf(ring, removed);
    && (handle.None? <==> forall q :: 0 <= q < |ring| && q != i ==> ring[q].mod == LIBRARY)
    && (handle.Some? ==> exists k :: IsNearestBack(ring, i, k) && handle == Some(ring[Back(i, k, |ring|)]))
  }

  /** The handle is moved past the nodes of ietf-yang-library and never onto one, and emptied only when
      nothing else is left. */
  lemma LibraryIsSkipped(ring: Ring, removed: Node, handle: Option<Node>)
    requires removed in ring && IsReplacement(ring, removed, handle)
    ensures handle.Some? ==> handle.value in ring && handle.value.mod != "ietf-yang-library"
    ensures handle.None? ==> forall node :: node in ring && node != removed ==> node.mod == "ietf-yang-library"
  {
    if handle.None? {
      forall node | node in ring && node != removed
        ensures node.mod == "ietf-yang-library"
      {
        assert ring[IndexOf(ring, node)] == node;
      }
    }
  }

  lemma AllWereMet(ring: Ring, start: nat)
    requires start < |ring|
    requires forall j :: 0 < j < |ring| ==> ring[Back(start, j, |ring|)].mod == LIBRARY
    ensures forall q :: 0 <= q < |ring| && q != start ==> ring[q].mod == LIBRARY
  {
    forall q | 0 <= q < |ring| && q != start
      ensures ring[q].mod == LIBRARY
    {
      BackMeetsEverySibling(|ring|, start, q);
    }
  }

  lemma WithoutKeepsOthers(ring: Ring, i: nat)
    requires AreDistinct(ring) && i < |ring|
    ensures AreDistinct(Without(ring, i)) && ring[i] !in Without(ring, i)
    ensures forall q :: 0 <= q < |ring| && q != i ==> ring[q] in Without(ring, i)
  {
    var w := Without(ring, i);
    assert forall q :: 0 <= q < |w| ==> w[q] == ring[if q < i then q else q + 1];
    assert forall q :: 0 <= q < i ==> ring[q] == w[q];
    assert forall q :: i < q < |ring| ==> ring[q] == w[q - 1];
  }

  /** Exactly the one node is gone, and the others keep their order; a node from further down is none
      of the siblings. */
  lemma UnlinkedIsGone(ring: Ring, node: Node)
    requires AreDistinct(ring)
    ensures AreDistinct(Unlinked(ring, node))
    ensures forall x :: x in Unlinked(ring, node) <==> x in ring && x != node
    ensures node in ring ==>
              exists front: Ring, back: Ring :: ring == front + [node] + back && Unlinked(ring, node) == front + back
    ensures node !in ring ==> Unlinked(ring, node) == ring
  {
    if node in ring {
      var i := IndexOf(ring, node);
      WithoutKeepsOthers(ring, i);
      WithoutSplits(ring, i);
      hide AreDistinct, Without;
      forall x
        ensures x in Without(ring, i) <==> x in ring && x != node
      {
        if x in ring && x != node {
          assert ring[IndexOf(ring, x)] == x;
        }
      }
    }
  }

  lemma WithoutSplits(ring: Ring, i: nat)
    requires i < |ring|
    ensures ring == ring[..i] + [ring[i]] + ring[i + 1..] && Without(ring, i) == ring[..i] + ring[i + 1..]
    ensures forall x :: x in Without(ring, i) ==> x in ring
  {
  }

  datatype Where = Begin | End | Before(dest: Node) | After(dest: Node)

  datatype Error = NoError | DatastoreIsEmpty | NodeDoesNotExist

  class YangAccess {
    var siblings: Ring
    /** m_datastore */
    var handle: Option<Node>

    ghost predicate Valid()
      reads this
    {
      AreDistinct(siblings) && (handle.Some? ==> handle.value in siblings)
    }

    /** impl_unlink, for a sibling or a node further down. Removing the node of the handle walks back
        around the ring, at most one turn, to a replacement; removing any other node leaves the
        handle as it was. */
    method Unlink(what: Node) returns (ghost steps: nat)
      requires Valid() && handle.Some?
      modifies this
      ensures Valid() && siblings == Unlinked(old(siblings), what)
      ensures steps <= |old(siblings)|
      ensures old(handle) != Some(what) ==> handle == old(handle)
      ensures old(handle) == Some(what) ==> IsReplacement(old(siblings), what, handle)
    {
      steps := 0;
      if handle == Some(what) {
        var start := IndexOf(siblings, what);
        var at := start;
        ghost var n := |siblings|;
        while true
          invariant steps < n && at == Back(start, steps, n)
          invariant forall j :: 0 < j <= steps ==> siblings[Back(start, j, n)].mod == LIBRARY
          invariant siblings == old(siblings)
          decreases n - steps
        {
          at, steps := Previous(at, |siblings|), steps + 1;
          if siblings[at] == what {
            assert at == start && steps == n;
            AllWereMet(siblings, start);
            handle := None;
            break;
          }
          if siblings[at].mod != LIBRARY {
            assert steps < n;
            assert IsNearestBack(siblings, start, steps);
            handle := Some(siblings[at]);
            break;
          }
        }
      }
      if what in siblings {
        WithoutKeepsOthers(siblings, IndexOf(siblings, what));
      }
      siblings := Unlinked(siblings, what);
    }

    /** impl_removeNode, with what findPath finds. */
    method RemoveNode(found: Option<Node>) returns (error: Error)
      requires Valid()
      modifies this
      ensures Valid()
      ensures error == if old(handle).None? then DatastoreIsEmpty else if found.None? then NodeDoesNotExist else NoError
      ensures siblings == if error.NoError? then Unlinked(old(siblings), found.value) else old(siblings)
      ensures !error.NoError? || old(handle) != found ==> handle == old(handle)
      ensures error.NoError? && old(handle) == found ==> IsReplacement(old(siblings), found.value, handle)
    {
      if handle.None? {
        return DatastoreIsEmpty;
      }
      if found.None? {
        return NodeDoesNotExist;
      }
      ghost var steps := Unlink(found.value);
      return NoError;
    }

    /** moveItem, for an instance of a list or leaf-list among the top-level siblings. */
    method MoveItem(found: Option<Node>, to: Where) returns (error: Error)
      requires Valid()
      requires found.Some? ==> found.value in siblings
      requires to.Before? || to.After? ==> to.dest in siblings && found != Some(to.dest)
      modifies this
      ensures Valid()
      ensures error == if old(handle).None? then DatastoreIsEmpty else if found.None? then NodeDoesNotExist else NoError
      ensures !error.NoError? ==> siblings == old(siblings) && handle == old(handle)
      ensures error.NoError? ==>
                && siblings == Moved(old(siblings), IndexOf(old(siblings), found.value), to)
                && handle == if (to.Begin? || to.End?) && siblings != old(siblings) then Some(siblings[0])
                             else old(handle)
    {
      if handle.None? {
        return DatastoreIsEmpty;
      }
      if found.None? {
        return NodeDoesNotExist;
      }
      hide Moved, AreDistinct, Place, Without, FirstOf, LastOf, IndexOf;
      var source := IndexOf(siblings, found.value);
      var first, last := FirstOf(siblings, source), LastOf(siblings, source);
      MovedKeepsTheRest(siblings, source, to);
      StaysWhereItIs(siblings, source);
      if (to.Begin? && first == source) || (to.End? && last == source) {
        return NoError;
      }
      siblings := Moved(siblings, source, to);
      if to.Begin? || to.End? {
        handle := Some(siblings[0]);
      }
      return NoError;
    }
  }

  // ---- moving ----

  /** front and back of the set that findXPath gives for the schema path of a node: the first and
      the last instance of its list. A set of one instance is both. */
  function FirstOf(ring: Ring, i: nat): (first: nat)
    requires i < |ring|
    ensures first <= i && ring[first].schema == ring[i].schema
    ensures forall j :: 0 <= j < first ==> ring[j].schema != ring[i].schema
  {
    if ring[0].schema == ring[i].schema then 0 else 1 + FirstOf(ring[1..], i - 1)
  }

  function LastOf(ring: Ring, i: nat): (last: nat)
    requires i < |ring|
    ensures i <= last < |ring| && ring[last].schema == ring[i].schema
    ensures forall j :: last < j < |ring| ==> ring[j].schema != ring[i].schema
    decreases |ring|
  {
    if ring[|ring| - 1].schema == ring[i].schema then |ring| - 1 else LastOf(ring[..|ring| - 1], i)
  }

  function InsertedAt(ring: Ring, p: nat, node: Node): Ring
    requires p <= |ring|
  {
    ring[..p] + [node] + ring[p..]
  }

  /** Where a node taken out of the siblings is put in again by insertBefore and insertAfter. */
  function Place(ring: Ring, i: nat, to: Where): (p: nat)
    requires i < |ring|
    requires to.Before? || to.After? ==> to.dest in ring && to.dest != ring[i]
    ensures p < |ring|
  {
    match to
    case Begin => FirstOf(ring, i)
    case End => LastOf(ring, i)
    case Before(dest) =>
      var j := IndexOf(ring, dest);
      if j < i then j else j - 1
    case After(dest) =>
      var j := IndexOf(ring, dest);
      if j < i then j + 1 else j
  }

  function Moved(ring: Ring, i: nat, to: Where): Ring
    requires i < |ring|
    requires to.Before? || to.After? ==> to.dest in ring && to.dest != ring[i]
  {
    InsertedAt(Without(ring, i), Place(ring, i, to), ring[i])
  }

  lemma PutBack(ring: Ring, i: nat)
    requires i < |ring|
    ensures InsertedAt(Without(ring, i), i, ring[i]) == ring
  {
    var rest := Without(ring, i);
    assert rest[..i] == ring[..i] && rest[i..] == ring[i + 1..];
  }

  lemma StaysWhereItIs(ring: Ring, i: nat)
    requires i < |ring|
    ensures FirstOf(ring, i) == i ==> Moved(ring, i, Begin) == ring
    ensures LastOf(ring, i) == i ==> Moved(ring, i, End) == ring
  {
    hide FirstOf, LastOf, InsertedAt, Without;
    PutBack(ring, i);
  }

  lemma InsertedKeepsOthers(rest: Ring, p: nat, node: Node)
    requires AreDistinct(rest) && node !in rest && p <= |rest|
    ensures var m := InsertedAt(rest, p, node);
            AreDistinct(m) && m[p] == node && Without(m, p) == rest && forall q :: 0 <= q < |rest| ==> rest[q] in m
  {
    var m := InsertedAt(rest, p, node);
    assert m[..p] == rest[..p] && m[p + 1..] == rest[p..];
    assert forall q :: 0 <= q < p ==> m[q] == rest[q];
    assert forall q :: p <= q < |rest| ==> rest[q] == m[q + 1];
    assert forall q :: p < q < |m| ==> m[q] == rest[q - 1];
  }

  /** A move keeps all other siblings, in their order, and loses none. */
  lemma MovedKeepsTheRest(ring: Ring, i: nat, to: Where)
    requires AreDistinct(ring) && i < |ring|
    requires to.Before? || to.After? ==> to.dest in ring && to.dest != ring[i]
    ensures var m, p := Moved(ring, i, to), Place(ring, i, to);
            && AreDistinct(m) && |m| == |ring|
            && m[p] == ring[i] && Without(m, p) == Without(ring, i)
            && forall q :: 0 <= q < |ring| ==> ring[q] in m
  {
    hide Place, AreDistinct;
    WithoutKeepsOthers(ring, i);
    var rest := Without(ring, i);
    InsertedKeepsOthers(rest, Place(ring, i, to), ring[i]);
    forall q | 0 <= q < |ring|
      ensures ring[q] in Moved(ring, i, to)
    {
      if q != i {
        var k :| 0 <= k < |rest| && rest[k] == ring[q];
      }
    }
  }

  /** Before and After put the source right beside the destination. */
  lemma MovedIsBeside(ring: Ring, i: nat, to: Where)
    requires AreDistinct(ring) && i < |ring|
    requires (to.Before? || to.After?) && to.dest in ring && to.dest != ring[i]
    ensures var m, p := Moved(ring, i, to), Place(ring, i, to);
            if to.Before? then p + 1 < |m| && m[p + 1] == to.dest else p > 0 && m[p - 1] == to.dest
  {
    var j := IndexOf(ring, to.dest);
    var rest := Without(ring, i);
    assert rest[if j < i then j else j - 1] == to.dest;
  }

  /** The instances of one list or leaf-list, in order. */
  function Instances(ring: Ring, schema: string): Ring {
    if ring == [] then []
    else (if ring[0].schema == schema then [ring[0]] else []) + Instances(ring[1..], schema)
  }

  lemma {:induction false} InstancesConcat(a: Ring, b: Ring, schema: string)
    ensures Instances(a + b, schema) == Instances(a, schema) + Instances(b, schema)
    decreases |a|
  {
    if a == [] {
      assert a + b == b;
    } else {
      assert (a + b)[1..] == a[1..] + b;
      InstancesConcat(a[1..], b, schema);
      var first := if a[0].schema == schema then [a[0]] else [];
      Text.ConcatAssociative(first, Instances(a[1..], schema), Instances(b, schema));
    }
  }

  lemma {:induction false} NoInstances(ring: Ring, schema: string)
    requires forall j :: 0 <= j < |ring| ==> ring[j].schema != schema
    ensures Instances(ring, schema) == []
    decreases |ring|
  {
    if ring != [] {
      NoInstances(ring[1..], schema);
    }
  }

  lemma InstancesInserted(rest: Ring, p: nat, node: Node, schema: string)
    requires p <= |rest|
    ensures Instances(InsertedAt(rest, p, node), schema)
         == Instances(rest[..p], schema) + (if node.schema == schema then [node] else []) + Instances(rest[p..], schema)
    ensures Instances(rest, schema) == Instances(rest[..p], schema) + Instances(rest[p..], schema)
  {
    InstancesConcat(rest[..p] + [node], rest[p..], schema);
    InstancesConcat(rest[..p], [node], schema);
    InstancesConcat(rest[..p], rest[p..], schema);
    assert rest[..p] + rest[p..] == rest;
    assert [node][1..] == [];
  }

  /** A move leaves the instances of every other list as they were. */
  lemma MoveKeepsOtherLists(ring: Ring, i: nat, to: Where, schema: string)
    requires i < |ring| && ring[i].schema != schema
    requires to.Before? || to.After? ==> to.dest in ring && to.dest != ring[i]
    ensures Instances(Moved(ring, i, to), schema) == Instances(ring, schema)
  {
    hide Instances, Place;
    var rest := Without(ring, i);
    InstancesInserted(rest, Place(ring, i, to), ring[i], schema);
    InstancesInserted(rest, i, ring[i], schema);
    PutBack(ring, i);
    assert forall r: Ring :: r + [] == r;
  }

  /** Begin puts the source before all other instances of its list, End after them. */
  lemma MovedToTheEnd(ring: Ring, i: nat, to: Where)
    requires i < |ring| && (to.Begin? || to.End?)
    ensures var others := Instances(Without(ring, i), ring[i].schema);
            Instances(Moved(ring, i, to), ring[i].schema)
              == if to.Begin? then [ring[i]] + others else others + [ring[i]]
  {
    hide Instances;
    var schema, rest, p := ring[i].schema, Without(ring, i), Place(ring, i, to);
    InstancesInserted(rest, p, ring[i], schema);
    var front, back := Instances(rest[..p], schema), Instances(rest[p..], schema);
    if to.Begin? {
      assert rest[..p] == ring[..p];
      NoInstances(rest[..p], schema);
      assert [] + [ring[i]] + back == [ring[i]] + ([] + back);
    } else {
      assert rest[p..] == ring[p + 1..];
      NoInstances(rest[p..], schema);
      assert front + [ring[i]] + [] == (front + []) + [ring[i]];
    }
  }
}
