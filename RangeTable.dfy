/**
 * The bootstrap node's range table: a sorted set of member ids that always
 * holds 0, and the range of keys each member owns. A member with id n owns
 * the keys after the next-lower member up to n; node 0 owns key 0 and the
 * tail above the highest member, wrapping round the end of the key space.
 */
module RangeTable {
  import opened JavaText
  import opened Common

  /** What holds of the id set in every reachable state: it contains the
      bootstrap node 0 and only valid ids. */
  predicate IsRing(ids: set<int>)
  {
    0 in ids && forall i | i in ids :: ValidId(i)
  }

  /** TreeSet.lower(id): the largest member below id. */
  function Lower(ids: set<int>, id: int): (r: Option<int>)
    requires IsRing(ids)
    ensures r.Some? ==> r.value in ids && r.value < id
    ensures r.Some? ==> forall i | i in ids && i < id :: i <= r.value
    ensures r.None? <==> id <= 0
    decreases id
  {
    if id <= 0 then None
    else if id - 1 in ids then Some(id - 1)
    else Lower(ids, id - 1)
  }

  /** TreeSet.higher(id): the smallest member above id. */
  function Higher(ids: set<int>, id: int): (r: Option<int>)
    requires IsRing(ids)
    ensures r.Some? ==> r.value in ids && r.value > id
    ensures r.Some? ==> forall i | i in ids && i > id :: i >= r.value
    ensures r.None? ==> forall i | i in ids :: i <= id
    decreases MaxRange - id
  {
    if id >= MaxRange then None
    else if id + 1 in ids then Some(id + 1)
    else Higher(ids, id + 1)
  }

  /** TreeSet.last(): the highest member. */
  function Last(ids: set<int>): (r: int)
    requires IsRing(ids)
    ensures r in ids && forall i | i in ids :: i <= r
  {
    match Lower(ids, MaxRange + 1)
    case Some(m) => m
    case None => assert false; 0
  }

  /** A ring of one member holds only node 0. */
  lemma SingletonRing(ids: set<int>)
    requires IsRing(ids)
    ensures |ids| == 1 <==> ids == {0}
  {
    var rest := ids - {0};
    assert ids == rest + {0};
    assert |ids| == |rest| + 1;
  }

  /** getRangeForNode(id): None (Java's null) for ids above MaxRange and
      for non-members; (0, MaxRange) for node 0 alone; otherwise
      ((last + 1) mod 1024, 0) for node 0, where last is the highest member,
      and (p + 1, id) for a non-zero member, p its next-lower member. */
  function RangeFor(ids: set<int>, id: int): (r: Option<Range>)
    requires IsRing(ids)
    ensures r.Some? <==> id in ids
    ensures id == 0 && ids == {0} ==> r == Some(Range(0, MaxRange))
    ensures id == 0 && ids != {0} ==> r == Some(Range((Last(ids) + 1) % (MaxRange + 1), 0))
    ensures id in ids && id != 0 ==>
      && r.value.end == id
      && r.value.start - 1 in ids && r.value.start - 1 < id
      && forall i | i in ids && i < id :: i < r.value.start
  {
    if id > MaxRange then None
    else if id !in ids then None
    else if id == 0 then
      SingletonRing(ids);
      if |ids| == 1 then Some(Range(0, MaxRange))
      else
        var last := Last(ids);
        if last == 0 then Some(Range(0, MaxRange))
        else Some(Range((last + 1) % (MaxRange + 1), 0))
    else
      var lower := match Lower(ids, id) case Some(l) => l case None => 0;
      Some(Range(lower + 1, id))
  }

  /** Node 0's degenerate range: when MaxRange itself is a member, node 0
      owns key 0 alone. */
  lemma NodeZeroDegenerate(ids: set<int>)
    requires IsRing(ids) && MaxRange in ids
    ensures RangeFor(ids, 0) == Some(Range(0, 0))
  {
  }

  /** Member id's range contains key. */
  predicate Owns(ids: set<int>, id: int, key: int)
    requires IsRing(ids)
  {
    RangeFor(ids, id).Some? && InRange(RangeFor(ids, id).value, key)
  }

  /** The member that owns key: node 0 for key 0 and for keys above the
      highest member, otherwise the smallest member at or above key. */
  function Owner(ids: set<int>, key: int): (r: int)
    requires IsRing(ids) && ValidId(key)
    ensures r in ids
  {
    if key == 0 then 0
    else match Higher(ids, key - 1)
      case Some(m) => m
      case None => 0
  }

  /** Every key of the key space lies in the range of its owner. */
  lemma OwnerOwns(ids: set<int>, key: int)
    requires IsRing(ids) && ValidId(key)
    ensures Owns(ids, Owner(ids, key), key)
  {
    var o := Owner(ids, key);
    if o == 0 {
      if ids != {0} {
        var last := Last(ids);
        if last < MaxRange && key != 0 {
          assert Higher(ids, key - 1).None?;
          assert last <= key - 1;
        }
      }
    } else {
      var r := RangeFor(ids, o).value;
      assert r.start - 1 <= key - 1;
    }
  }

  /** No member other than its owner has key in its range. */
  lemma OnlyOwnerOwns(ids: set<int>, key: int, id: int)
    requires IsRing(ids) && ValidId(key)
    requires Owns(ids, id, key)
    ensures id == Owner(ids, key)
  {
    var r := RangeFor(ids, id).value;
    if id == 0 {
      if ids == {0} {
        if key != 0 {
          assert Higher(ids, key - 1).None?;
        }
      } else if key != 0 {
        var last := Last(ids);
        assert last < MaxRange && key > last;
        assert Higher(ids, key - 1).None?;
      }
    } else {
      assert key != 0;
      var m := Higher(ids, key - 1).value;
      assert r.start <= key <= m <= id;
    }
  }

  /** The ranges partition the key space: every key in [0, MaxRange] lies
      in the range of exactly one member, reading start > end as wrapping. */
  lemma RangesPartition(ids: set<int>, key: int)
    requires IsRing(ids) && ValidId(key)
    ensures Owner(ids, key) in ids && Owns(ids, Owner(ids, key), key)
    ensures forall id | Owns(ids, id, key) :: id == Owner(ids, key)
  {
    OwnerOwns(ids, key);
    forall id | Owns(ids, id, key)
      ensures id == Owner(ids, key)
    {
      OnlyOwnerOwns(ids, key, id);
    }
  }

  /** The range table of the bootstrap node. */
  class RangeManager {
    var nodeIds: set<int>

    ghost predicate Valid()
      reads this
    {
      IsRing(nodeIds)
    }

    /** A fresh table holds only the bootstrap node. */
    constructor ()
      ensures Valid() && nodeIds == {0}
    {
      nodeIds := {0};
    }

    /** Adds nodeId unless it is outside [0, MaxRange] or already present. */
    method AddNode(nodeId: int) returns (r: Response)
      requires Valid()
      modifies this
      ensures Valid()
      ensures r == AddReply(old(nodeIds), nodeId)
      ensures nodeIds == if r.code == 0 then old(nodeIds) + {nodeId} else old(nodeIds)
    {
      if nodeId < 0 || nodeId > MaxRange {
        return Response(-1, "Invalid Node ID. Must be between 0 and " + IntToString(MaxRange));
      }
      if nodeId in nodeIds {
        return Response(-1, "Node " + IntToString(nodeId) + " already exists.");
      }
      nodeIds := nodeIds + {nodeId};
      r := Response(0, "Node " + IntToString(nodeId) + " added.");
    }

    /** Removes nodeId unless it is outside [0, MaxRange], the bootstrap
        node 0, or absent; 0 therefore stays a member in every state. */
    method RemoveNode(nodeId: int) returns (r: Response)
      requires Valid()
      modifies this
      ensures Valid()
      ensures r == RemoveReply(old(nodeIds), nodeId)
      ensures nodeIds == if r.code == 0 then old(nodeIds) - {nodeId} else old(nodeIds)
    {
      if nodeId < 0 || nodeId > MaxRange {
        return Response(-1, "Invalid node ID. Must be between 0 and " + IntToString(MaxRange));
      }
      if nodeId == 0 {
        return Response(-1, "Bootstrap node cannot be removed.");
      }
      if nodeId in nodeIds {
        nodeIds := nodeIds - {nodeId};
        return Response(0, "Node " + IntToString(nodeId) + " removed.");
      }
      r := Response(-1, "Node " + IntToString(nodeId) + " does not exist.");
    }
  }
}
