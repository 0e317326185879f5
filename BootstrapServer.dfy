/**
 * The bootstrap server's request handler. A request is one line
 * "<COMMAND> <nodeId> <port> ..." plus whatever lines the handler reads
 * after it; the handler changes the membership ring, the range table and
 * node 0's store, and answers with reply lines.
 */
module Bootstrap {
  import opened JavaText
  import opened Common
  import opened Nodes
  import RangeTable
  import opened Membership
  import opened KeyValueStore
  import opened KeyTransfer

  /** The reply to a request line with fewer than three tokens. */
  const UsageText: string := "Usage command <id> <nodeId> <localPort>. Commands supported ENTER, EXIT, SEND_KEYS"

  /** The reply when the command enum rejects the keyword (or a later
      number does not parse). */
  const InvalidCommand: string := "INVALID COMMAND"

  /** The bootstrap node: its membership ring, its range table and its store. */
  class BootstrapServer {
    const nodeManager: NodeManager
    const rangeManager: RangeTable.RangeManager
    const store: Store

    ghost predicate Valid()
      reads this, nodeManager, rangeManager
    {
      nodeManager.Valid() && rangeManager.Valid()
    }

    /** The ring and the range table hold the same ids. */
    ghost predicate Synced()
      reads this, nodeManager, rangeManager
    {
      nodeManager.nodes.Keys == rangeManager.nodeIds
    }

    constructor (store: Store, rangeManager: RangeTable.RangeManager, nodeManager: NodeManager)
      requires rangeManager.Valid() && nodeManager.Valid()
      ensures this.store == store && this.rangeManager == rangeManager && this.nodeManager == nodeManager
      ensures Valid()
    {
      this.store := store;
      this.rangeManager := rangeManager;
      this.nodeManager := nodeManager;
    }

    /** Nothing the server holds has changed. */
    twostate predicate Unchanged()
      reads this, nodeManager, rangeManager, store
    {
      && nodeManager.nodes == old(nodeManager.nodes)
      && rangeManager.nodeIds == old(rangeManager.nodeIds)
      && store.entries == old(store.entries)
    }

    /** What ENTER does for node: the ring adds it first; if the ring
        refuses, its message is the reply and nothing changes; if the range
        table then refuses, the node is removed from the ring again and the
        table's message is the reply; otherwise both hold the node and the
        reply names the node's new predecessor and successor. */
    twostate predicate EnterDone(node: Peer, replies: seq<string>)
      reads this, nodeManager, rangeManager, store
    {
      var r1 := AddReply(old(nodeManager.nodes).Keys, node.id);
      var r2 := AddReply(old(rangeManager.nodeIds), node.id);
      && store.entries == old(store.entries)
      && RangeTable.IsRing(nodeManager.nodes.Keys)
      && (r1.code != 0 ==>
            && replies == [r1.message]
            && nodeManager.nodes == old(nodeManager.nodes)
            && rangeManager.nodeIds == old(rangeManager.nodeIds))
      && (r1.code == 0 && r2.code != 0 ==>
            && replies == [r2.message]
            && rangeManager.nodeIds == old(rangeManager.nodeIds)
            && nodeManager.nodes.Keys == old(nodeManager.nodes).Keys
            && SameAddresses(old(nodeManager.nodes), nodeManager.nodes)
            && PointersCurrent(nodeManager.nodes))
      && (r1.code == 0 && r2.code == 0 ==>
            && rangeManager.nodeIds == old(rangeManager.nodeIds) + {node.id}
            && nodeManager.nodes.Keys == old(nodeManager.nodes).Keys + {node.id}
            && nodeManager.nodes[node.id].ip == node.ip
            && nodeManager.nodes[node.id].port == node.port
            && SameAddresses(old(nodeManager.nodes), nodeManager.nodes)
            && PointersCurrent(nodeManager.nodes)
            && replies == [EnterReply(nodeManager.Render(PredOf(nodeManager.nodes.Keys, node.id)),
                                      nodeManager.Render(SuccOf(nodeManager.nodes.Keys, node.id)))])
    }

    /** What EXIT does for node: the ring removes it first; if the ring
        refuses, its message is the reply and nothing changes; if the range
        table then refuses, the node is added to the ring again (with the
        requester's address and port) and the table's message is the reply;
        otherwise both drop the node and the reply is "EXIT OK". */
    twostate predicate ExitDone(node: Peer, replies: seq<string>)
      reads this, nodeManager, rangeManager, store
    {
      var r1 := RemoveReply(old(nodeManager.nodes).Keys, node.id);
      var r2 := RemoveReply(old(rangeManager.nodeIds), node.id);
      && store.entries == old(store.entries)
      && RangeTable.IsRing(nodeManager.nodes.Keys)
      && (r1.code != 0 ==>
            && replies == [r1.message]
            && nodeManager.nodes == old(nodeManager.nodes)
            && rangeManager.nodeIds == old(rangeManager.nodeIds))
      && (r1.code == 0 && r2.code != 0 ==>
            && replies == [r2.message]
            && rangeManager.nodeIds == old(rangeManager.nodeIds)
            && nodeManager.nodes.Keys == old(nodeManager.nodes).Keys
            && nodeManager.nodes[node.id].ip == node.ip
            && nodeManager.nodes[node.id].port == node.port
            && SameAddresses(old(nodeManager.nodes) - {node.id}, nodeManager.nodes)
            && PointersCurrent(nodeManager.nodes))
      && (r1.code == 0 && r2.code == 0 ==>
            && replies == [CommandName(Exit) + " OK"]
            && rangeManager.nodeIds == old(rangeManager.nodeIds) - {node.id}
            && nodeManager.nodes.Keys == old(nodeManager.nodes).Keys - {node.id}
            && SameAddresses(old(nodeManager.nodes), nodeManager.nodes)
            && PointersCurrent(nodeManager.nodes))
    }

    /** What SEND_KEYS does for nodeId: a non-member has no range and the
        request ends without a reply; otherwise the reply is the encoded
        range, and the range is deleted when the next line is exactly
        "RECEIVED_OK". */
    twostate predicate SendKeysDone(nodeId: int, input: seq<string>, replies: seq<string>)
      reads this, nodeManager, rangeManager, store
    {
      && nodeManager.nodes == old(nodeManager.nodes)
      && rangeManager.nodeIds == old(rangeManager.nodeIds)
      && RangeTable.IsRing(rangeManager.nodeIds)
      && match RangeTable.RangeFor(rangeManager.nodeIds, nodeId)
         case None => replies == [] && store.entries == old(store.entries)
         case Some(range) =>
           && replies == [Records(old(store.entries), range.start, range.end) + "FIN"]
           && store.entries ==
                if |input| > 0 && input[0] == "RECEIVED_OK" then Outside(old(store.entries), range.start, range.end)
                else old(store.entries)
    }

    /** What RECEIVE_KEYS does: with fewer than six tokens nothing; otherwise
        "SEND_OK", then "INVALID COMMAND" if the predecessor's id or port
        does not parse; with no next line the request ends there; otherwise
        that line is decoded into the store, "RECEIVED_OK" follows and node
        0's predecessor becomes (tokens[3], tokens[4], tokens[5]). */
    twostate predicate ReceiveKeysDone(tokens: seq<string>, input: seq<string>, replies: seq<string>)
      reads this, nodeManager, rangeManager, store
    {
      && rangeManager.nodeIds == old(rangeManager.nodeIds)
      && (|tokens| < 6 ==>
            replies == [] && nodeManager.nodes == old(nodeManager.nodes) && store.entries == old(store.entries))
      && (|tokens| >= 6 ==>
            if ParseInt(tokens[3]).None? || ParseInt(tokens[5]).None? then
              && replies == ["SEND_OK", InvalidCommand]
              && nodeManager.nodes == old(nodeManager.nodes) && store.entries == old(store.entries)
            else if |input| == 0 then
              && replies == ["SEND_OK"]
              && nodeManager.nodes == old(nodeManager.nodes) && store.entries == old(store.entries)
            else
              && replies == ["SEND_OK", "RECEIVED_OK"]
              && store.entries == Decode(input[0], old(store.entries))
              && 0 in old(nodeManager.nodes)
              && nodeManager.nodes == old(nodeManager.nodes)[0 := old(nodeManager.nodes)[0].(
                   predecessor := Some(Peer(ParseInt(tokens[3]).value, tokens[4], ParseInt(tokens[5]).value)))])
    }

    /** parseNodeMessage: reads the request line, dispatches on its keyword
        and answers; input holds the lines the client sends after it (an
        exhausted input is Java's null from readLine). A request that ENTER
        or EXIT does not refuse keeps the ring and the range table holding
        the same ids. */
    method ParseNodeMessage(message: string, clientIp: string, input: seq<string>) returns (replies: seq<string>)
      requires Valid()
      modifies nodeManager, rangeManager, store
      ensures Valid()
      ensures old(Synced()) ==> Synced()
      ensures var req := ParseRequest(Tokens(message));
        && (req.TooShort? ==> replies == [UsageText] && Unchanged())
        && (req.BadNumber? ==> replies == [] && Unchanged())
        && (req.Unknown? ==> replies == [InvalidCommand] && Unchanged())
        && (req.Request? ==>
              match req.command
              case Enter => EnterDone(Peer(req.nodeId, clientIp, req.port), replies)
              case Exit => ExitDone(Peer(req.nodeId, clientIp, req.port), replies)
              case SendKeys => SendKeysDone(req.nodeId, input, replies)
              case ReceiveKeys => ReceiveKeysDone(Tokens(message), input, replies)
              case UpdateSuccessor => replies == [] && Unchanged()
              case Print => replies == [] && Unchanged()
              case Neighbor => replies == [] && Unchanged())
    {
      var tokens := Tokens(message);
      if |tokens| < 3 {
        return [UsageText];
      }
      var command := ToUpper(tokens[0]);
      var clientNodeId := ParseInt(tokens[1]);
      if clientNodeId.None? {
        return [];
      }
      var clientPort := ParseInt(tokens[2]);
      if clientPort.None? {
        return [];
      }
      var requestNode := Peer(clientNodeId.value, clientIp, clientPort.value);
      match CommandOf(command)
      case None =>
        replies := [InvalidCommand];
      case Some(Enter) =>
        replies := HandleEnter(requestNode);
      case Some(Exit) =>
        replies := HandleExit(requestNode);
      case Some(SendKeys) =>
        replies := HandleSendKeys(requestNode.id, input);
      case Some(ReceiveKeys) =>
        replies := HandleReceiveKeys(tokens, input);
      case Some(UpdateSuccessor) =>
        replies := [];
      case Some(Print) =>
        replies := [];
      case Some(Neighbor) =>
        replies := [];
    }

    /** The ENTER branch, with the ring's change undone when the range
        table refuses. */
    method HandleEnter(node: Peer) returns (replies: seq<string>)
      requires Valid()
      modifies nodeManager, rangeManager
      ensures Valid()
      ensures EnterDone(node, replies)
    {
      var response := nodeManager.AddNode(node);
      if response.code == -1 {
        return [response.message];
      }
      ghost var added := nodeManager.nodes;
      response := rangeManager.AddNode(node.id);
      if response.code == -1 {
        assert node.id != 0;
        var _ := nodeManager.RemoveNode(node);
        assert SameAddresses(added, nodeManager.nodes);
        return [response.message];
      }
      assert PointsAtNeighbours(nodeManager.nodes, node.id);
      var pred := nodeManager.nodes[node.id].predecessor.value.id;
      var succ := nodeManager.nodes[node.id].successor.value.id;
      replies := [EnterReply(nodeManager.Render(pred), nodeManager.Render(succ))];
    }

    /** The EXIT branch, with the ring's change undone when the range table
        refuses. */
    method HandleExit(node: Peer) returns (replies: seq<string>)
      requires Valid()
      modifies nodeManager, rangeManager
      ensures Valid()
      ensures ExitDone(node, replies)
    {
      var response := nodeManager.RemoveNode(node);
      if response.code == -1 {
        return [response.message];
      }
      ghost var removed := nodeManager.nodes;
      response := rangeManager.RemoveNode(node.id);
      if response.code == -1 {
        var _ := nodeManager.AddNode(node);
        assert SameAddresses(removed, nodeManager.nodes);
        return [response.message];
      }
      replies := [CommandName(Exit) + " OK"];
    }

    /** The SEND_KEYS branch: sendKeys, then deleteKeys on acknowledgement. */
    method HandleSendKeys(nodeId: int, input: seq<string>) returns (replies: seq<string>)
      requires Valid()
      modifies store
      ensures Valid()
      ensures SendKeysDone(nodeId, input, replies)
    {
      var range := RangeTable.RangeFor(rangeManager.nodeIds, nodeId);
      if range.None? {
        return [];
      }
      var line := SendKeyValueRange(store, range.value);
      replies := [line];
      if |input| > 0 && input[0] == "RECEIVED_OK" {
        DeleteRange(store, range.value);
      }
    }

    /** The RECEIVE_KEYS branch: receiveKeys, then node 0's new predecessor. */
    method HandleReceiveKeys(tokens: seq<string>, input: seq<string>) returns (replies: seq<string>)
      requires Valid()
      modifies nodeManager, store
      ensures Valid()
      ensures ReceiveKeysDone(tokens, input, replies)
    {
      if |tokens| < 6 {
        return [];
      }
      replies := ["SEND_OK"];
      var predId := ParseInt(tokens[3]);
      if predId.None? {
        return replies + [InvalidCommand];
      }
      var predIp := tokens[4];
      var predPort := ParseInt(tokens[5]);
      if predPort.None? {
        return replies + [InvalidCommand];
      }
      if |input| == 0 {
        return;
      }
      ReceiveInto(store, input[0]);
      replies := replies + ["RECEIVED_OK"];
      nodeManager.SetPredecessor(0, Peer(predId.value, predIp, predPort.value));
    }
  }
}
