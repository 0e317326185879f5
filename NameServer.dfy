/**
 * A name server: one member of the ring, holding the keys of its own range.
 * It answers SEND_KEYS from a joining predecessor by handing over the keys
 * the joiner now owns, and on joining asks its successor for its own keys.
 */
module NameServers {
  import opened JavaText
  import opened Common
  import opened Nodes
  import RangeTable
  import opened KeyValueStore
  import opened KeyTransfer

  /** getSendRange(endKey): the keys after this server's predecessor up to
      endKey, or from 0 when no predecessor is known. */
  function SendRange(predecessor: Option<Peer>, endKey: int): Range
  {
    match predecessor
    case Some(p) => Range(p.id + 1, endKey)
    case None => Range(0, endKey)
  }

  /** When a node n joins between this server's predecessor p and this
      server, the range sent is exactly the range the ring then assigns to
      n. */
  lemma SendRangeIsJoinerRange(ids: set<int>, pred: Peer, n: int)
    requires RangeTable.IsRing(ids) && ValidId(n) && n !in ids
    requires pred.id in ids && pred.id < n
    requires forall i | i in ids && i < n :: i <= pred.id
    ensures RangeTable.RangeFor(ids + {n}, n) == Some(SendRange(Some(pred), n))
  {
    var r := RangeTable.RangeFor(ids + {n}, n).value;
    assert r.start - 1 in ids;
    assert pred.id in ids + {n};
  }

  /** The request a joining server sends its successor: "SEND_KEYS <id> <port>". */
  function TransferRequest(id: int, port: int): string
  {
    RequestLine(SendKeys, id, port)
  }

  /** The name server's state: its identity, the joined flag, its store and
      its own descriptor, whose predecessor the SEND_KEYS handler resets. */
  class NameServer {
    const id: int
    const port: int
    const bootstrapIp: string
    const bootstrapPort: int
    var joined: bool
    const store: Store
    const nodeInfo: NodeInfo

    /** A new server is not joined; its descriptor is (id, "self", port)
        with no neighbours. */
    constructor (id: int, port: int, bootstrapIp: string, bootstrapPort: int, store: Store)
      ensures this.id == id && this.port == port
      ensures this.bootstrapIp == bootstrapIp && this.bootstrapPort == bootstrapPort
      ensures this.store == store && !joined
      ensures fresh(nodeInfo)
      ensures nodeInfo.AsPeer() == Peer(id, "self", port)
      ensures nodeInfo.predecessor == None && nodeInfo.successor == None
    {
      this.id := id;
      this.port := port;
      this.bootstrapIp := bootstrapIp;
      this.bootstrapPort := bootstrapPort;
      this.store := store;
      joined := false;
      nodeInfo := new NodeInfo(id, "self", port);
    }

    method MarkAsJoined()
      modifies this`joined
      ensures joined
    {
      joined := true;
    }

    method MarkAsJoinedFalse()
      modifies this`joined
      ensures !joined
    {
      joined := false;
    }

    /** handleIncomingRequest: only SEND_KEYS acts. It sends the keys
        between this server's predecessor and the requester, deletes them
        when the next line is exactly "RECEIVED_OK", and then records the
        requester (its address and the port it gave) as the predecessor,
        whatever it answered. With no next line the handler stops after
        sending. Every malformed request is dropped without a reply. */
    method HandleIncomingRequest(message: string, ip: string, input: seq<string>) returns (replies: seq<string>)
      modifies store, nodeInfo`predecessor
      ensures var req := ParseRequest(Tokens(message));
        if req.Request? && req.command == SendKeys then
          var range := SendRange(old(nodeInfo.predecessor), req.nodeId);
          && replies == [Records(old(store.entries), range.start, range.end) + "FIN"]
          && store.entries ==
               (if |input| > 0 && input[0] == "RECEIVED_OK" then Outside(old(store.entries), range.start, range.end)
                else old(store.entries))
          && nodeInfo.predecessor ==
               (if |input| > 0 then Some(Peer(req.nodeId, ip, req.port)) else old(nodeInfo.predecessor))
        else
          replies == [] && store.entries == old(store.entries) && nodeInfo.predecessor == old(nodeInfo.predecessor)
    {
      var tokens := Tokens(message);
      if |tokens| < 3 {
        return [];
      }
      var command := ToUpper(tokens[0]);
      var nodeId := ParseInt(tokens[1]);
      var requesterPort := ParseInt(tokens[2]);
      if nodeId.None? || requesterPort.None? {
        return [];
      }
      match CommandOf(command)
      case Some(SendKeys) =>
        var range := SendRange(nodeInfo.predecessor, nodeId.value);
        var line := SendKeyValueRange(store, range);
        replies := [line];
        if |input| == 0 {
          return;
        }
        if input[0] == "RECEIVED_OK" {
          DeleteRange(store, range);
        }
        nodeInfo.SetPredecessor(Some(Peer(nodeId.value, ip, requesterPort.value)));
      case _ =>
        replies := [];
    }

    /** receiveKeys: with no successor nothing happens. Otherwise the
        request "SEND_KEYS <id> <port>" goes to the successor, its one-line
        answer (input; none when the connection yields no line) is decoded
        into the store and "RECEIVED_OK" is sent back. */
    method ReceiveKeys(input: seq<string>) returns (sent: seq<string>)
      modifies store
      ensures nodeInfo.successor.None? ==> sent == [] && store.entries == old(store.entries)
      ensures nodeInfo.successor.Some? && |input| == 0 ==>
        sent == [TransferRequest(id, port)] && store.entries == old(store.entries)
      ensures nodeInfo.successor.Some? && |input| > 0 ==>
        && sent == [TransferRequest(id, port), "RECEIVED_OK"]
        && store.entries == Decode(input[0], old(store.entries))
    {
      if nodeInfo.successor.None? {
        return [];
      }
      sent := [TransferRequest(id, port)];
      if |input| == 0 {
        return;
      }
      ReceiveInto(store, input[0]);
      sent := sent + ["RECEIVED_OK"];
    }
  }

  /** The successor reads the joiner's transfer request as SEND_KEYS from
      the joiner's id and port. */
  lemma TransferRequestParses(id: int, port: int)
    requires IsInt32(id) && IsInt32(port)
    ensures ParseRequest(Tokens(TransferRequest(id, port))) == Request(SendKeys, id, port)
  {
    RequestRoundTrip(SendKeys, id, port);
  }
}
