/**
 * A node whose own value type is void: a stable identity plus the container
 * of its connections, at most one to any other node, exposed through two
 * views over that one container, one projecting each connection to the node
 * it targets and one to the connection itself.
 *
 * The graph that owns nodes is not part of this model; `Connect` and
 * `Disconnect` are the operations it calls.
 */
module Adjacency {
  import opened Wrappers
  import opened Connections
  import opened Prisms

  // Specification of the connection container ==============================

  /** The node pointers stored in `cs`, in container order. */
  function Targets<E>(cs: seq<Connection<E>>): (ts: seq<Option<nat>>)
    ensures |ts| == |cs|
    ensures forall i | 0 <= i < |cs| :: ts[i] == cs[i].target
  {
    MapSeq(Arrow, cs)
  }

  /** At most one connection in `cs` targets any given node. */
  ghost predicate UniqueTargets<E>(cs: seq<Connection<E>>)
  {
    forall i, j | 0 <= i < j < |cs| :: cs[i].target != cs[j].target
  }

  /** Some connection in `cs` targets node `t`. */
  ghost predicate HasTarget<E>(cs: seq<Connection<E>>, t: nat)
  {
    exists i | 0 <= i < |cs| :: cs[i].target == Some(t)
  }

  /** `cs` with the connections targeting `t` taken out, the rest in order. */
  function RemoveTarget<E>(cs: seq<Connection<E>>, t: nat): seq<Connection<E>>
  {
    if cs == [] then []
    else if cs[0].target == Some(t) then RemoveTarget(cs[1..], t)
    else [cs[0]] + RemoveTarget(cs[1..], t)
  }

  /** Removing keeps exactly the connections that do not target `t`. */
  lemma {:induction false} RemoveTargetMembers<E>(cs: seq<Connection<E>>, t: nat)
    ensures forall c :: c in RemoveTarget(cs, t) <==> c in cs && c.target != Some(t)
    ensures |RemoveTarget(cs, t)| <= |cs|
  {
    if cs != [] {
      RemoveTargetMembers(cs[1..], t);
      assert forall c :: c in cs <==> c == cs[0] || c in cs[1..];
    }
  }

  /** When `cs[i]` is the connection to `t` and targets are unique, removing it splices it out. */
  lemma {:induction false} RemoveTargetAt<E>(cs: seq<Connection<E>>, t: nat, i: nat)
    requires UniqueTargets(cs)
    requires i < |cs| && cs[i].target == Some(t)
    ensures RemoveTarget(cs, t) == cs[..i] + cs[i + 1..]
  {
    if i == 0 {
      RemoveTargetAbsent(cs[1..], t);
      assert cs[..0] + cs[1..] == cs[1..];
    } else {
      RemoveTargetAt(cs[1..], t, i - 1);
      assert cs[1..][..i - 1] + cs[1..][i..] == cs[1..i] + cs[i + 1..];
      assert cs[..i] + cs[i + 1..] == [cs[0]] + (cs[1..i] + cs[i + 1..]);
    }
  }

  /** Removing a target that no connection has changes nothing. */
  lemma {:induction false} RemoveTargetAbsent<E>(cs: seq<Connection<E>>, t: nat)
    requires !HasTarget(cs, t)
    ensures RemoveTarget(cs, t) == cs
  {
    if cs != [] {
      assert !HasTarget(cs[1..], t) by {
        forall i | 0 <= i < |cs[1..]| ensures cs[1..][i].target != Some(t) {
          assert cs[1..][i] == cs[i + 1];
        }
      }
      RemoveTargetAbsent(cs[1..], t);
      assert cs[0].target != Some(t);
    }
  }

  /** Removing never introduces a second connection to a node. */
  lemma RemoveTargetKeepsUnique<E>(cs: seq<Connection<E>>, t: nat)
    requires UniqueTargets(cs)
    ensures UniqueTargets(RemoveTarget(cs, t))
    ensures !HasTarget(RemoveTarget(cs, t), t)
  {
    if HasTarget(cs, t) {
      var i :| 0 <= i < |cs| && cs[i].target == Some(t);
      RemoveTargetAt(cs, t, i);
      var r := cs[..i] + cs[i + 1..];
      forall a, b | 0 <= a < b < |r| ensures r[a].target != r[b].target {
        var a', b' := if a < i then a else a + 1, if b < i then b else b + 1;
        assert r[a] == cs[a'] && r[b] == cs[b'];
      }
      forall k | 0 <= k < |r| ensures r[k].target != Some(t) {
        assert r[k] == cs[if k < i then k else k + 1];
      }
    } else {
      RemoveTargetAbsent(cs, t);
    }
  }

  /** Appending a connection to a node not yet targeted keeps targets unique. */
  lemma AppendKeepsUnique<E>(cs: seq<Connection<E>>, c: Connection<E>)
    requires UniqueTargets(cs)
    requires c.target.Some? && !HasTarget(cs, c.target.value)
    ensures UniqueTargets(cs + [c])
    ensures HasTarget(cs + [c], c.target.value)
  {
    assert (cs + [c])[|cs|] == c;
  }

  /** With unique targets, the nodes view over `cs` never shows a node twice. */
  lemma TargetsViewDistinct<E>(cs: seq<Connection<E>>)
    requires UniqueTargets(cs)
    ensures forall i, j | 0 <= i < j < |cs| :: At(Prism(cs, Arrow), i) != At(Prism(cs, Arrow), j)
  {
  }

  /** The edges view's projection: an edge is presented as the connection itself. */
  function AsEdge<E>(c: Connection<E>): Connection<E>
  {
    c
  }

  /** Distinct live nodes report distinct ids. */
  ghost predicate DistinctIds<E>(live: set<Node<E>>)
  {
    forall a, b | a in live && b in live && a != b :: a.id != b.id
  }

  // The node ===============================================================

  class Node<E> {
    /** The node's address: fixed for its whole lifetime. */
    const id: nat
    /** Whether the edge type is void. */
    const kind: EdgeKind
    var connections: seq<Connection<E>>

    /** Every connection has a target and the payload its edge kind calls for; at most one per target. */
    ghost predicate Valid()
      reads this
      ensures Valid() ==> forall i, j | 0 <= i < |connections| && 0 <= j < |connections| ::
                            ComparablePair(kind, connections[i], connections[j])
      ensures Valid() ==> forall i, j | 0 <= i < |connections| && 0 <= j < |connections| ::
                            connections[i].target == connections[j].target ==> i == j
    {
      && (forall i | 0 <= i < |connections| ::
            connections[i].target.Some? && Comparable(kind, connections[i]))
      && UniqueTargets(connections)
    }

    /**
     * A new node with no connections, placed at an address that no live node
     * occupies, so ids stay distinct.
     */
    constructor (address: nat, kind: EdgeKind, ghost live: set<Node<E>>)
      requires DistinctIds(live)
      requires forall m | m in live :: m.id != address
      ensures Valid()
      ensures id == address && this.kind == kind && connections == []
      ensures DistinctIds(live + {this})
    {
      id := address;
      this.kind := kind;
      connections := [];
    }

    /** adjacent_nodes(): the view projecting each connection to its target. */
    function AdjacentNodes(): (v: Prism<Connection<E>, Option<nat>>)
      reads this
      ensures Size(v) == |connections|
      ensures forall i | 0 <= i < |connections| :: At(v, i) == connections[i].target
    {
      Prism(connections, Arrow)
    }

    /** edges(): the view yielding each connection itself. */
    function Edges(): (v: Prism<Connection<E>, Connection<E>>)
      reads this
      ensures Size(v) == |connections|
      ensures forall i | 0 <= i < |connections| :: At(v, i) == connections[i]
    {
      Prism(connections, AsEdge)
    }

    /** The position of the connection to node `t`, if there is one. */
    method Find(t: nat) returns (r: Option<nat>)
      ensures r.Some? ==> r.value < |connections| && connections[r.value].target == Some(t)
      ensures r.None? <==> !HasTarget(connections, t)
    {
      var i := 0;
      while i < |connections|
        invariant 0 <= i <= |connections|
        invariant forall j | 0 <= j < i :: connections[j].target != Some(t)
      {
        if connections[i].target == Some(t) {
          return Some(i);
        }
        i := i + 1;
      }
      return None;
    }

    /**
     * Adds the edge between this node and `n` carrying `arg`: one half in each
     * node, sharing one new payload. A self-loop, or a pair already adjacent
     * on either side, is refused and nothing changes.
     */
    method Connect(n: Node<E>, arg: E) returns (added: bool)
      requires Valid() && n.Valid()
      requires kind == ValuedEdge && n.kind == ValuedEdge
      modifies this, n
      ensures Valid() && n.Valid()
      ensures added <==> n.id != id && !old(HasTarget(connections, n.id)) && !old(HasTarget(n.connections, id))
      ensures !added ==> connections == old(connections) && n.connections == old(n.connections)
      ensures added ==> |connections| == |old(connections)| + 1 && |n.connections| == |old(n.connections)| + 1
      ensures added ==>
        && connections[..|connections| - 1] == old(connections)
        && n.connections[..|n.connections| - 1] == old(n.connections)
      ensures added ==>
        var here, there := connections[|connections| - 1], n.connections[|n.connections| - 1];
        && here.target == Some(n.id) && there.target == Some(id)
        && here.payload.Some? && here.payload == there.payload
        && fresh(here.payload.value) && Value(here) == arg
    {
      added := false;
      if n.id == id {
        return;
      }
      var mine := Find(n.id);
      var theirs := n.Find(id);
      if mine.Some? || theirs.Some? {
        return;
      }
      var here, there := MakeConnections(id, n.id, arg);
      AppendKeepsUnique(connections, here);
      AppendKeepsUnique(n.connections, there);
      connections := connections + [here];
      n.connections := n.connections + [there];
      added := true;
    }

    /** The same as Connect for a void edge type: the two halves carry no payload. */
    method ConnectVoid(n: Node<E>) returns (added: bool)
      requires Valid() && n.Valid()
      requires kind == VoidEdge && n.kind == VoidEdge
      modifies this, n
      ensures Valid() && n.Valid()
      ensures added <==> n.id != id && !old(HasTarget(connections, n.id)) && !old(HasTarget(n.connections, id))
      ensures !added ==> connections == old(connections) && n.connections == old(n.connections)
      ensures added ==>
        && connections == old(connections) + [Valueless(n.id)]
        && n.connections == old(n.connections) + [Valueless(id)]
    {
      added := false;
      if n.id == id {
        return;
      }
      var mine := Find(n.id);
      var theirs := n.Find(id);
      if mine.Some? || theirs.Some? {
        return;
      }
      var pair := MakeVoidConnections<E>(id, n.id);
      AppendKeepsUnique(connections, pair.0);
      AppendKeepsUnique(n.connections, pair.1);
      connections := connections + [pair.0];
      n.connections := n.connections + [pair.1];
      added := true;
    }

    /**
     * Removes this node's connection to `n`, if any, keeping the others in
     * order. `n`'s own half is left to the caller.
     */
    method Disconnect(n: Node<E>)
      requires Valid()
      modifies this
      ensures Valid()
      ensures connections == RemoveTarget(old(connections), n.id)
      ensures !HasTarget(connections, n.id)
    {
      var at := Find(n.id);
      RemoveTargetKeepsUnique(connections, n.id);
      RemoveTargetMembers(connections, n.id);
      if at.Some? {
        RemoveTargetAt(connections, n.id, at.value);
        connections := connections[..at.value] + connections[at.value + 1..];
      } else {
        RemoveTargetAbsent(connections, n.id);
      }
    }

    /**
     * Both views stand on the same container: they have the same size, and
     * the i-th adjacent node is the target of the i-th edge.
     */
    lemma ViewsAgree()
      ensures Size(AdjacentNodes()) == Size(Edges())
      ensures forall i | 0 <= i < Size(Edges()) :: At(AdjacentNodes(), i) == Arrow(At(Edges(), i))
    {
    }

    /** In a valid node no node appears twice among the adjacent nodes. */
    lemma AdjacentNodesDistinct()
      requires Valid()
      ensures forall i, j | 0 <= i < j < Size(AdjacentNodes()) :: At(AdjacentNodes(), i) != At(AdjacentNodes(), j)
    {
      TargetsViewDistinct(connections);
    }

    /** Iterating the nodes view yields the targets, and the edges view the connections, in container order. */
    lemma ViewsIterateInOrder()
      ensures Walk(Begin(AdjacentNodes()), End(AdjacentNodes())) == Targets(connections)
      ensures Walk(Begin(Edges()), End(Edges())) == connections
    {
      var nodes, edges := AdjacentNodes(), Edges();
      IterationIsProjection(nodes);
      IterationIsProjection(edges);
      assert MapSeq(edges.proj, connections) == connections;
    }
  }

  /**
   * Three fresh nodes at addresses 1, 2, 3 joined by the edges a-b (value `x`)
   * and b-c (value `y`), each added by `Connect`.
   */
  method BuildPath<E>(x: E, y: E) returns (a: Node<E>, b: Node<E>, c: Node<E>)
    ensures fresh(a) && fresh(b) && fresh(c)
    ensures a.Valid() && b.Valid() && c.Valid()
    ensures a.id == 1 && b.id == 2 && c.id == 3
    ensures |a.connections| == 1 && a.connections[0].target == Some(2)
    ensures a.connections[0].payload.Some? && Value(a.connections[0]) == x
    ensures |b.connections| == 2 && b.connections[0].target == Some(1) && b.connections[1].target == Some(3)
  {
    a := new Node<E>(1, ValuedEdge, {});
    b := new Node<E>(2, ValuedEdge, {a});
    c := new Node<E>(3, ValuedEdge, {a, b});
    var ab := a.Connect(b, x);
    assert ab;
    assert |b.connections| == 1 && b.connections[0].target == Some(1);
    assert !HasTarget(b.connections, 3);
    var bc := b.Connect(c, y);
    assert bc;
  }

  /**
   * On the path a-b-c built by `BuildPath`, b's neighbours are a then c, in
   * insertion order, and a's one edge carries `x`. Once a-b is severed on
   * both sides, a has no edges and b's only neighbour is c.
   */
  method ThreeNodeScenario<E>(x: E, y: E) returns (bNeighbours: seq<Option<nat>>, aValue: E, aEdgesAfter: nat, bNeighboursAfter: seq<Option<nat>>)
    ensures bNeighbours == [Some(1), Some(3)]
    ensures aValue == x
    ensures aEdgesAfter == 0
    ensures bNeighboursAfter == [Some(3)]
  {
    var a, b, c := BuildPath(x, y);
    b.ViewsIterateInOrder();
    bNeighbours := Walk(Begin(b.AdjacentNodes()), End(b.AdjacentNodes()));
    assert bNeighbours == [Some(1), Some(3)];
    aValue := Value(Front(a.Edges()));
    ghost var aBefore, bBefore := a.connections, b.connections;
    RemoveTargetAt(aBefore, 2, 0);
    RemoveTargetAt(bBefore, 1, 0);
    a.Disconnect(b);
    b.Disconnect(a);
    assert a.connections == [] && b.connections == [bBefore[1]];
    aEdgesAfter := Size(a.Edges());
    b.ViewsIterateInOrder();
    bNeighboursAfter := Walk(Begin(b.AdjacentNodes()), End(b.AdjacentNodes()));
  }
}
