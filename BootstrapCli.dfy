/**
 * The bootstrap node's console commands for keys: insert, lookup and
 * delete act on node 0's own store first and otherwise forward the command
 * to node 0's successor. What the successor answers is an input of the
 * model (the forwarding connection itself is not modelled).
 */
module Console {
  import opened JavaText
  import opened Common
  import RangeTable
  import opened Membership
  import opened KeyValueStore

  /** The console commands that can be forwarded. */
  datatype ClientFunction = Lookup | Insert | Delete

  /** The name() of a console command. */
  function ClientFunctionName(f: ClientFunction): string
  {
    match f
    case Lookup => "LOOKUP"
    case Insert => "INSERT"
    case Delete => "DELETE"
  }

  /** The line forwardToSuccessor sends: "<COMMAND> 0 <port> <message>". */
  function ForwardRequest(f: ClientFunction, port: int, message: string): string
  {
    ClientFunctionName(f) + " " + "0" + " " + IntToString(port) + " " + message
  }

  /** What a console command did. */
  datatype Outcome =
    | Usage                                             // too few tokens
    | BadKey                                            // the key is not an int
    | Found(value: string)                              // the local store holds the key
    | Stored                                            // a local insert of a new key
    | AlreadyExists                                     // a local insert of a present key
    | Removed                                           // a local delete of a present key
    | Forwarded(request: string, reply: Option<string>) // None: no successor, nothing sent

  /** insertKey's local test: key falls in node 0's range, read as
      start <= key <= end, or key >= start || key <= end when the range
      wraps. */
  predicate IsLocal(ids: set<int>, key: int)
    requires RangeTable.IsRing(ids)
  {
    InRange(RangeTable.RangeFor(ids, 0).value, key)
  }

  /** Inside the key space the local test picks exactly the keys node 0
      owns in the ring's partition. */
  lemma LocalIffOwnedByNodeZero(ids: set<int>, key: int)
    requires RangeTable.IsRing(ids) && ValidId(key)
    ensures IsLocal(ids, key) <==> RangeTable.Owner(ids, key) == 0
  {
    RangeTable.OwnerOwns(ids, key);
    if IsLocal(ids, key) {
      RangeTable.OnlyOwnerOwns(ids, key, 0);
    }
  }

  /** Outside the key space the test is not confined to it: once node 0's
      range wraps (more than one member, MaxRange not among them), a
      negative key and a key above MaxRange both count as local. */
  lemma WrappingRangeAcceptsOutsideKeys(ids: set<int>)
    requires RangeTable.IsRing(ids) && ids != {0} && MaxRange !in ids
    ensures IsLocal(ids, -1) && IsLocal(ids, MaxRange + 1)
  {
    var last := RangeTable.Last(ids);
    assert last != 0 by {
      var other :| other in ids && other != 0;
      assert other <= last;
    }
    assert RangeTable.RangeFor(ids, 0).value == Range(last + 1, 0);
  }

  /** The bootstrap node's console: node 0's store, range table and ring,
      and the port it reports when forwarding. */
  class BootstrapCli {
    const store: Store
    const rangeManager: RangeTable.RangeManager
    const nodeManager: NodeManager
    const port: int

    constructor (store: Store, rangeManager: RangeTable.RangeManager, nodeManager: NodeManager, port: int)
      ensures this.store == store && this.rangeManager == rangeManager
      ensures this.nodeManager == nodeManager && this.port == port
    {
      this.store := store;
      this.rangeManager := rangeManager;
      this.nodeManager := nodeManager;
      this.port := port;
    }

    /** forwardToSuccessor's result: None, without any I/O, when node 0 has
        no successor; otherwise what the successor answered. */
    function SuccessorReply(answer: string): (r: Option<string>)
      requires nodeManager.Valid()
      reads this, nodeManager
      ensures r.None? <==> nodeManager.nodes[0].successor.None?
      ensures r.Some? ==> r.value == answer
    {
      match nodeManager.nodes[0].successor
      case None => None
      case Some(_) => Some(answer)
    }

    /** lookupKey: the local value when there is one; only a local miss is
        forwarded. */
    method LookupKey(tokens: seq<string>, answer: string) returns (o: Outcome)
      requires nodeManager.Valid()
      ensures |tokens| < 2 ==> o == Usage
      ensures |tokens| >= 2 && ParseInt(tokens[1]).None? ==> o == BadKey
      ensures |tokens| >= 2 && ParseInt(tokens[1]).Some? ==>
        var key := ParseInt(tokens[1]).value;
        if key in store.entries then o == Found(store.entries[key])
        else o == Forwarded(ForwardRequest(Lookup, port, IntToString(key)), SuccessorReply(answer))
    {
      if |tokens| < 2 {
        return Usage;
      }
      var key := ParseInt(tokens[1]);
      if key.None? {
        return BadKey;
      }
      var value := store.Lookup(key.value);
      if value.Some? {
        return Found(value.value);
      }
      var reply := SuccessorReply(answer);
      o := Forwarded(ForwardRequest(Lookup, port, IntToString(key.value)), reply);
    }

    /** insertKey: a key in node 0's range is inserted locally (never
        overwriting); any other key is forwarded and not stored. */
    method InsertKey(tokens: seq<string>, answer: string) returns (o: Outcome)
      requires nodeManager.Valid() && rangeManager.Valid()
      modifies store
      ensures |tokens| < 3 ==> o == Usage && store.entries == old(store.entries)
      ensures |tokens| >= 3 && ParseInt(tokens[1]).None? ==> o == BadKey && store.entries == old(store.entries)
      ensures |tokens| >= 3 && ParseInt(tokens[1]).Some? ==>
        var key := ParseInt(tokens[1]).value;
        if IsLocal(rangeManager.nodeIds, key) then
          && store.entries == Inserted(old(store.entries), key, tokens[2])
          && o == (if key in old(store.entries) then AlreadyExists else Stored)
        else
          && store.entries == old(store.entries)
          && o == Forwarded(ForwardRequest(Insert, port, IntToString(key) + " " + tokens[2]), SuccessorReply(answer))
    {
      if |tokens| < 3 {
        return Usage;
      }
      var key := ParseInt(tokens[1]);
      if key.None? {
        return BadKey;
      }
      var value := tokens[2];
      var range := RangeTable.RangeFor(rangeManager.nodeIds, 0).value;
      var inRange: bool;
      if range.start <= range.end {
        inRange := key.value >= range.start && key.value <= range.end;
      } else {
        inRange := key.value >= range.start || key.value <= range.end;
      }
      if inRange {
        var result := store.Insert(key.value, value);
        o := if result == 0 then Stored else AlreadyExists;
      } else {
        var reply := SuccessorReply(answer);
        o := Forwarded(ForwardRequest(Insert, port, IntToString(key.value) + " " + value), reply);
      }
    }

    /** deleteKey: a present key is deleted locally; only an absent one is
        forwarded. */
    method DeleteKey(tokens: seq<string>, answer: string) returns (o: Outcome)
      requires nodeManager.Valid()
      modifies store
      ensures |tokens| < 2 ==> o == Usage && store.entries == old(store.entries)
      ensures |tokens| >= 2 && ParseInt(tokens[1]).None? ==> o == BadKey && store.entries == old(store.entries)
      ensures |tokens| >= 2 && ParseInt(tokens[1]).Some? ==>
        var key := ParseInt(tokens[1]).value;
        && store.entries == Deleted(old(store.entries), key)
        && o == (if key in old(store.entries) then Removed
                 else Forwarded(ForwardRequest(Delete, port, IntToString(key)), SuccessorReply(answer)))
    {
      if |tokens| < 2 {
        return Usage;
      }
      var key := ParseInt(tokens[1]);
      if key.None? {
        return BadKey;
      }
      var result := store.Delete(key.value);
      if result == 0 {
        o := Removed;
      } else {
        var reply := SuccessorReply(answer);
        o := Forwarded(ForwardRequest(Delete, port, IntToString(key.value)), reply);
      }
    }
  }
}
