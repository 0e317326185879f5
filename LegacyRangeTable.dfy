/**
 * The older range table kept by the util package: the same membership
 * rules as RangeTable, but its changes answer with a bare int code and a
 * member's range is rendered as the text "start-end".
 */
module LegacyRangeTable {
  import opened JavaText
  import opened Common
  import RangeTable

  /** getRangeForNode(id) of the util variant: None (Java's null) for ids
      above MaxRange and for non-members, otherwise the range as text. */
  function RangeText(ids: set<int>, nodeId: int): Option<string>
    requires RangeTable.IsRing(ids)
  {
    if nodeId > MaxRange then None
    else if nodeId !in ids then None
    else if nodeId == 0 then
      if |ids| == 1 then Some("0-" + IntToString(MaxRange))
      else
        var last := RangeTable.Last(ids);
        if last == 0 then Some("0-" + IntToString(MaxRange))
        else Some(IntToString((last + 1) % (MaxRange + 1)) + "-0")
    else
      var lower := match RangeTable.Lower(ids, nodeId) case Some(l) => l case None => 0;
      Some(IntToString(lower + 1) + "-" + IntToString(nodeId))
  }

  /** A range written as "start-end". */
  function RangeToText(r: Range): string
  {
    IntToString(r.start) + "-" + IntToString(r.end)
  }

  /** The text variant answers exactly when the structured one does, with
      the same range written as "start-end". */
  lemma RangeTextAgrees(ids: set<int>, nodeId: int)
    requires RangeTable.IsRing(ids)
    ensures RangeText(ids, nodeId).Some? <==> RangeTable.RangeFor(ids, nodeId).Some?
    ensures RangeText(ids, nodeId).Some? ==>
      RangeText(ids, nodeId).value == RangeToText(RangeTable.RangeFor(ids, nodeId).value)
  {
    assert IntToString(0) == "0";
  }

  /** The text of a member's range splits at '-' into the decimal start
      and end of that member's range. */
  lemma RangeTextParses(ids: set<int>, nodeId: int)
    requires RangeTable.IsRing(ids) && nodeId in ids
    ensures var parts := Split(RangeText(ids, nodeId).value, "-");
      && |parts| == 2
      && ParseInt(parts[0]) == Some(RangeTable.RangeFor(ids, nodeId).value.start)
      && ParseInt(parts[1]) == Some(RangeTable.RangeFor(ids, nodeId).value.end)
  {
    RangeTextAgrees(ids, nodeId);
    var r := RangeTable.RangeFor(ids, nodeId).value;
    assert 0 <= r.start <= MaxRange + 1 && 0 <= r.end <= MaxRange;
    NatTextDigits(r.start);
    NatTextDigits(r.end);
    SplitTwo(IntToString(r.start), IntToString(r.end), "-");
    ParseIntToString(r.start);
    ParseIntToString(r.end);
  }

  /** The util package's range table. */
  class RangeManager {
    var nodeIds: set<int>

    ghost predicate Valid()
      reads this
    {
      RangeTable.IsRing(nodeIds)
    }

    /** A fresh table holds only the bootstrap node. */
    constructor ()
      ensures Valid() && nodeIds == {0}
    {
      nodeIds := {0};
    }

    /** Adds nodeId and returns 0, or returns -1 and changes nothing when
        nodeId is outside [0, MaxRange] or already present. */
    method AddNode(nodeId: int) returns (code: int)
      requires Valid()
      modifies this
      ensures Valid()
      ensures code == (if ValidId(nodeId) && nodeId !in old(nodeIds) then 0 else -1)
      ensures nodeIds == if code == 0 then old(nodeIds) + {nodeId} else old(nodeIds)
    {
      if nodeId < 0 || nodeId > MaxRange {
        return -1;
      }
      if nodeId in nodeIds {
        return -1;
      }
      nodeIds := nodeIds + {nodeId};
      code := 0;
    }

    /** Removes nodeId and returns 0, or returns -1 and changes nothing when
        nodeId is outside [0, MaxRange], the bootstrap node 0, or absent. */
    method RemoveNode(nodeId: int) returns (code: int)
      requires Valid()
      modifies this
      ensures Valid()
      ensures code == (if ValidId(nodeId) && nodeId != 0 && nodeId in old(nodeIds) then 0 else -1)
      ensures nodeIds == if code == 0 then old(nodeIds) - {nodeId} else old(nodeIds)
    {
      if nodeId < 0 || nodeId > MaxRange {
        return -1;
      }
      if nodeId == 0 {
        return -1;
      }
      if nodeId in nodeIds {
        nodeIds := nodeIds - {nodeId};
        return 0;
      }
      code := -1;
    }
  }
}
