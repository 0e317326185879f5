/**
 * The bootstrap node's membership ring: the members keyed by id, each with
 * its address, port and neighbour pointers. After every successful change
 * each member's predecessor becomes the next-lower member (wrapping to the
 * highest) and its successor the next-higher member (wrapping to node 0).
 */
module Membership {
  import opened JavaText
  import opened Common
  import opened Nodes
  import RangeTable

  /** A member as the manager holds it; the map key is its id. */
  datatype Member = Member(ip: string, port: int, predecessor: Option<Peer>, successor: Option<Peer>)

  /** The id of n's predecessor in the ring: the next-lower member, or the
      highest member when no member lies below n. */
  function PredOf(ids: set<int>, n: int): (r: int)
    requires RangeTable.IsRing(ids)
    ensures r in ids
    ensures r < n <==> n > 0
    ensures r < n ==> forall i | i in ids && i < n :: i <= r
    ensures r >= n ==> forall i | i in ids :: n <= i <= r
  {
    match RangeTable.Lower(ids, n)
    case Some(p) => p
    case None => RangeTable.Last(ids)
  }

  /** The id of n's successor in the ring: the next-higher member, or node 0
      (TreeSet.first(), the smallest valid id) when no member lies above n. */
  function SuccOf(ids: set<int>, n: int): (r: int)
    requires RangeTable.IsRing(ids)
    ensures r in ids
    ensures r > n ==> forall i | i in ids && i > n :: r <= i
    ensures r <= n ==> r == 0 && forall i | i in ids :: i <= n
  {
    match RangeTable.Higher(ids, n)
    case Some(s) => s
    case None => 0
  }

  /** The successor of a member's predecessor is the member itself. */
  lemma SuccOfPred(ids: set<int>, n: int)
    requires RangeTable.IsRing(ids) && n in ids
    ensures SuccOf(ids, PredOf(ids, n)) == n
  {
    var p := PredOf(ids, n);
    if n == 0 {
      assert RangeTable.Higher(ids, p).None?;
    } else {
      var h := RangeTable.Higher(ids, p);
      assert h.Some? && h.value <= n;
      assert h.value >= n;
    }
  }

  /** The predecessor of a member's successor is the member itself. */
  lemma PredOfSucc(ids: set<int>, n: int)
    requires RangeTable.IsRing(ids) && n in ids
    ensures PredOf(ids, SuccOf(ids, n)) == n
  {
    var h := RangeTable.Higher(ids, n);
    if h.Some? {
      var l := RangeTable.Lower(ids, h.value);
      assert l.Some? && l.value >= n;
      assert l.value <= n;
    } else {
      assert RangeTable.Last(ids) >= n;
    }
  }

  /** In a ring of one member both pointers lead back to the member. */
  lemma SingleMemberRing(ids: set<int>)
    requires ids == {0}
    ensures PredOf(ids, 0) == 0 && SuccOf(ids, 0) == 0
  {
  }

  /** The member with id n as a neighbour pointer holds it. */
  function PeerAt(nodes: map<int, Member>, n: int): Peer
    requires n in nodes
  {
    Peer(n, nodes[n].ip, nodes[n].port)
  }

  /** Member n of after points at its ring neighbours in ring, with the
      addresses ring gives them. */
  ghost predicate PointsAtNeighboursIn(ring: map<int, Member>, after: map<int, Member>, n: int)
    requires RangeTable.IsRing(ring.Keys) && n in after
  {
    && after[n].predecessor == Some(PeerAt(ring, PredOf(ring.Keys, n)))
    && after[n].successor == Some(PeerAt(ring, SuccOf(ring.Keys, n)))
  }

  /** Member n's pointers are snapshots of its ring neighbours. */
  ghost predicate PointsAtNeighbours(nodes: map<int, Member>, n: int)
    requires RangeTable.IsRing(nodes.Keys) && n in nodes
  {
    PointsAtNeighboursIn(nodes, nodes, n)
  }

  /** Every member's pointers are snapshots of its ring neighbours. */
  ghost predicate PointersCurrent(nodes: map<int, Member>)
    requires RangeTable.IsRing(nodes.Keys)
  {
    forall n {:trigger PointsAtNeighbours(nodes, n)} | n in nodes :: PointsAtNeighbours(nodes, n)
  }

  /** Following a member's predecessor pointer and then that member's
      successor pointer leads back to the member, and the other way round. */
  lemma PointersInverse(nodes: map<int, Member>, n: int)
    requires RangeTable.IsRing(nodes.Keys) && PointersCurrent(nodes) && n in nodes
    ensures var p := nodes[n].predecessor;
      p.Some? && p.value.id in nodes && nodes[p.value.id].successor.Some?
      && nodes[p.value.id].successor.value.id == n
    ensures var s := nodes[n].successor;
      s.Some? && s.value.id in nodes && nodes[s.value.id].predecessor.Some?
      && nodes[s.value.id].predecessor.value.id == n
  {
    assert PointsAtNeighbours(nodes, n);
    var p := PredOf(nodes.Keys, n);
    var s := SuccOf(nodes.Keys, n);
    assert PointsAtNeighbours(nodes, p);
    assert PointsAtNeighbours(nodes, s);
    SuccOfPred(nodes.Keys, n);
    PredOfSucc(nodes.Keys, n);
  }

  /** Every member keeps its address and port. */
  ghost predicate SameAddresses(before: map<int, Member>, after: map<int, Member>)
  {
    forall n | n in after && n in before :: after[n].ip == before[n].ip && after[n].port == before[n].port
  }

  /** The members below k point at their neighbours in ring. */
  ghost predicate DoneBelow(ring: map<int, Member>, after: map<int, Member>, k: int)
    requires RangeTable.IsRing(ring.Keys)
  {
    forall n {:trigger PointsAtNeighboursIn(ring, after, n)} | n in after && n < k ::
      PointsAtNeighboursIn(ring, after, n)
  }

  /** Rewriting member k's pointers keeps the members below k done and,
      when k's new pointers are right, makes k done as well. */
  lemma DoneBelowStep(ring: map<int, Member>, prev: map<int, Member>, after: map<int, Member>, k: int)
    requires RangeTable.IsRing(ring.Keys) && DoneBelow(ring, prev, k)
    requires prev.Keys == after.Keys
    requires forall n | n in after && n != k :: after[n] == prev[n]
    requires k in after ==> PointsAtNeighboursIn(ring, after, k)
    ensures DoneBelow(ring, after, k + 1)
  {
    forall n | n in after && n < k + 1
      ensures PointsAtNeighboursIn(ring, after, n)
    {
      if n != k {
        assert PointsAtNeighboursIn(ring, prev, n);
      }
    }
  }

  /** A pointer pair taken from a snapshot with the same members and
      addresses is current. */
  lemma PointsFromSnapshot(ring: map<int, Member>, after: map<int, Member>, n: int)
    requires RangeTable.IsRing(ring.Keys) && after.Keys == ring.Keys && n in after
    requires SameAddresses(ring, after) && PointsAtNeighboursIn(ring, after, n)
    ensures PointsAtNeighbours(after, n)
  {
    var p := PredOf(ring.Keys, n);
    var s := SuccOf(ring.Keys, n);
    assert after[p].ip == ring[p].ip && after[p].port == ring[p].port;
    assert after[s].ip == ring[s].ip && after[s].port == ring[s].port;
  }

  /** Pointers taken from a snapshot with the same members and addresses
      are current. */
  lemma DoneFromSnapshot(ring: map<int, Member>, after: map<int, Member>)
    requires RangeTable.IsRing(ring.Keys) && after.Keys == ring.Keys
    requires SameAddresses(ring, after) && DoneBelow(ring, after, MaxRange + 1)
    ensures PointersCurrent(after)
  {
    forall n | n in after
      ensures PointsAtNeighbours(after, n)
    {
      assert n <= MaxRange;
      assert PointsAtNeighboursIn(ring, after, n);
      PointsFromSnapshot(ring, after, n);
    }
  }

  /** The bootstrap node's membership ring. */
  class NodeManager {
    var nodes: map<int, Member>

    ghost predicate Valid()
      reads this
    {
      RangeTable.IsRing(nodes.Keys)
    }

    /** A fresh ring holds node 0 alone, with address "N/A" and the given
        port; its pointers stay unset until the first successful change. */
    constructor (bootstrapNodePort: int)
      ensures Valid()
      ensures nodes == map[0 := Member("N/A", bootstrapNodePort, None, None)]
    {
      nodes := map[0 := Member("N/A", bootstrapNodePort, None, None)];
    }

    /** Adds the node unless its id is outside [0, MaxRange] or a member
        with that id exists, then recomputes every member's pointers. */
    method AddNode(node: Peer) returns (r: Response)
      requires Valid()
      modifies this
      ensures Valid()
      ensures r == AddReply(old(nodes).Keys, node.id)
      ensures r.code != 0 ==> nodes == old(nodes)
      ensures r.code == 0 ==>
        && nodes.Keys == old(nodes).Keys + {node.id}
        && nodes[node.id].ip == node.ip && nodes[node.id].port == node.port
        && SameAddresses(old(nodes), nodes)
        && PointersCurrent(nodes)
    {
      var nodeId := node.id;
      if nodeId < 0 || nodeId > MaxRange {
        return Response(-1, "Invalid Node ID. Must be between 0 and " + IntToString(MaxRange));
      }
      if nodeId in nodes {
        return Response(-1, "Node " + IntToString(nodeId) + " already exists.");
      }
      nodes := nodes[nodeId := Member(node.ip, node.port, None, None)];
      UpdatePointers();
      r := Response(0, "Node " + IntToString(nodeId) + " added.");
    }

    /** Removes the member with the node's id, whatever its address and
        port, unless the id is outside [0, MaxRange], is 0, or is absent;
        then recomputes the remaining members' pointers. */
    method RemoveNode(node: Peer) returns (r: Response)
      requires Valid()
      modifies this
      ensures Valid()
      ensures r == RemoveReply(old(nodes).Keys, node.id)
      ensures r.code != 0 ==> nodes == old(nodes)
      ensures r.code == 0 ==>
        && nodes.Keys == old(nodes).Keys - {node.id}
        && SameAddresses(old(nodes), nodes)
        && PointersCurrent(nodes)
    {
      var nodeId := node.id;
      if nodeId < 0 || nodeId > MaxRange {
        return Response(-1, "Invalid node ID. Must be between 0 and " + IntToString(MaxRange));
      }
      if nodeId == 0 {
        return Response(-1, "Bootstrap node cannot be removed.");
      }
      if nodeId in nodes {
        nodes := nodes - {nodeId};
        UpdatePointers();
        return Response(0, "Node " + IntToString(nodeId) + " removed.");
      }
      r := Response(-1, "Node " + IntToString(nodeId) + " does not exist.");
    }

    /** Visits the members in ascending id order and points each at its
        ring neighbours; only the pointer fields change. */
    method UpdatePointers()
      requires Valid()
      modifies this
      ensures Valid()
      ensures nodes.Keys == old(nodes).Keys
      ensures SameAddresses(old(nodes), nodes)
      ensures PointersCurrent(nodes)
    {
      ghost var before := nodes;
      var ids := nodes.Keys;
      var k := 0;
      while k <= MaxRange
        invariant 0 <= k <= MaxRange + 1
        invariant nodes.Keys == ids
        invariant SameAddresses(before, nodes)
        invariant DoneBelow(before, nodes, k)
      {
        ghost var prev := nodes;
        if k in nodes {
          var p := PredOf(ids, k);
          var s := SuccOf(ids, k);
          var pred := Peer(p, nodes[p].ip, nodes[p].port);
          var succ := Peer(s, nodes[s].ip, nodes[s].port);
          nodes := nodes[k := nodes[k].(predecessor := Some(pred), successor := Some(succ))];
        }
        DoneBelowStep(before, prev, nodes, k);
        k := k + 1;
      }
      DoneFromSnapshot(before, nodes);
    }

    /** Points the member with the given id at a new predecessor, which
        need not be a member. */
    method SetPredecessor(id: int, pred: Peer)
      requires Valid() && id in nodes
      modifies this
      ensures Valid()
      ensures nodes == old(nodes)[id := old(nodes)[id].(predecessor := Some(pred))]
    {
      nodes := nodes[id := nodes[id].(predecessor := Some(pred))];
    }

    /** getNodeById: the member with that id, or None (Java's null). */
    function GetNodeById(nodeId: int): (r: Option<Member>)
      reads this
      ensures r.Some? <==> nodeId in nodes
      ensures r.Some? ==> r.value == nodes[nodeId]
    {
      if nodeId in nodes then Some(nodes[nodeId]) else None
    }

    /** toString of the member with that id. */
    function Render(nodeId: int): string
      reads this
      requires nodeId in nodes
    {
      Describe(PeerAt(nodes, nodeId), nodes[nodeId].predecessor, nodes[nodeId].successor)
    }
  }
}
