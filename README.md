# Consistent hashing ring: a verified model

This project models the core of a consistent-hashing key-value store over
the key space [0, 1023].

- **Bootstrap node.** Node 0 keeps the ring's membership twice:
  - a sorted id set with each member's key range (`RangeManager`);
  - the members' descriptors with their predecessor and successor pointers (`NodeManager`).
  It answers ENTER, EXIT, SEND_KEYS and RECEIVE_KEYS requests, and its console inserts, looks up and deletes keys locally or forwards them to node 0's successor.
- **Name servers.** Each other node holds the keys of its range. It hands the keys a joining predecessor now owns to that predecessor, and asks its successor for its own keys when it joins.
- **Transfer.** Keys move as one line `key:value%0A…FIN`, which the receiver decodes segment by segment.
- **ENTER reply.** The bootstrap node writes its ENTER reply from `NodeInfo.toString`, and a name server reads it back with `ResponseParser`.

Modules, one per component:

| module | file | models |
|---|---|---|
| `JavaText` | JavaText.dfy | the `String`/`Integer` operations the code relies on: `indexOf`, `substring`, `split` (literal separator, trailing empty strings dropped; `"\\s+"`), `trim` and `toString` as Java defines them; `toUpperCase` on ASCII letters only and `parseInt` on ASCII digits only (int range checked) |
| `Common` | Common.dfy | `Range`, `Response`, the node command enum, and request-line parsing shared by both servers |
| `RangeTable` | RangeTable.dfy | `bootstrapUtil.RangeManager` |
| `LegacyRangeTable` | LegacyRangeTable.dfy | `util.RangeManager` |
| `Nodes` | NodeInfo.dfy | `NodeInfo`: its fields, its setters and its `toString` text |
| `Membership` | NodeManager.dfy | `bootstrapUtil.NodeManager` |
| `KeyValueStore` | KeyValueStore.dfy | both copies of `KeyValueStore` |
| `KeyTransfer` | KeyTransfer.dfy | the encoder `sendKeyValueRange`, the decoding loop of both `receiveKeys`, and both `deleteKeys` |
| `ResponseParser` | ResponseParser.dfy | `ResponseParser` |
| `Bootstrap` | BootstrapServer.dfy | `BootstrapServer.parseNodeMessage` |
| `NameServers` | NameServer.dfy | `NameServer` |
| `Console` | BootstrapCli.dfy | `BootstrapCLI.insertKey`, `lookupKey`, `deleteKey` |

## Modelling conventions

- **State.** Objects whose fields the code updates are classes. The range tables' id sets, the membership map (id to member) and the store's map are fields that the methods reassign.
- **Neighbour pointers.** A member's predecessor and successor are `Peer` values `(id, ip, port)`, snapshots of the neighbour's descriptor. The manager never changes a member's address or port, so a snapshot reads exactly like the Java reference. A snapshot can also hold a neighbour that is not a member, which RECEIVE_KEYS installs as node 0's predecessor.
- **Handlers.** Each request handler takes the request line, the requester's address, and the lines the peer sends afterwards (`input`). An exhausted `input` is `readLine()` returning null. The handler returns the lines it writes.
- **Exceptions.** An exception that ends a handler without a reply is modelled as exactly that: no reply and no further change. An exception the handler catches and answers is modelled as that answer.
- **Forwarding.** The console's forwarding is an oracle. The successor's answer is a parameter, and the result records the request line that would be sent. When node 0 has no successor, nothing is sent and the result is None.

## Model

| member | source | states |
|---|---|---|
| `Common.AddReply` | src/bootstrapUtil/RangeManager.java:16-28 | addNode answers 0 exactly when the id lies in [0, 1023] and is not a member; otherwise it answers -1 |
| `Common.RemoveReply` | src/bootstrapUtil/RangeManager.java:30-46 | removeNode answers 0 exactly when the id is valid, non-zero and a member; otherwise it answers -1 |
| `Common.CommandOf` | src/bootstrap/BootstrapServer.java:85 | valueOf over the seven constants the code names (ENTER, EXIT, SEND_KEYS, RECEIVE_KEYS, UPDATE_SUCCESSOR, PRINT, NEIGHBOR): it yields the command whose name is the word, and yields nothing exactly when no command has that name |
| `Common.ParseRequest` | src/bootstrap/BootstrapServer.java:73-85 | fewer than three tokens gives the usage case; a non-int id or port gives the bad-number case; then an unknown keyword (after upper-casing) gives the unknown case; otherwise the request carries the parsed command, id and port |
| `Common.RequestRoundTrip` | src/nameservers/NameServer.java:58-64 | a request line "<COMMAND> <id> <port>" written by a node, then split, upper-cased and parsed by a server, gives back the same command, id and port |
| `RangeTable.Lower` | src/bootstrapUtil/RangeManager.java:64-65 | TreeSet.lower: the largest member below the id, present exactly when the id is positive |
| `RangeTable.Higher` | src/bootstrapUtil/NodeManager.java:62-65 | TreeSet.higher: the smallest member above the id; when absent, no member is above it |
| `RangeTable.Last` | src/bootstrapUtil/RangeManager.java:55 | TreeSet.last: the highest member |
| `RangeTable.RangeFor` | src/bootstrapUtil/RangeManager.java:48-69 | the range is absent exactly for non-members, ids above 1023 included. Node 0 alone gets (0, 1023). Otherwise node 0 gets ((last + 1) mod 1024, 0). A non-zero member n gets (p + 1, n), where p is the largest member below n |
| `RangeTable.NodeZeroDegenerate` | src/bootstrapUtil/RangeManager.java:58-61 | when 1023 is a member, node 0's range is (0, 0) |
| `RangeTable.SingletonRing` | src/bootstrapUtil/RangeManager.java:52 | the set has size 1 exactly when it is {0} |
| `RangeTable.Owner` | src/bootstrapUtil/RangeManager.java:51-68 | an independent description of who owns a key: node 0 for key 0, otherwise the smallest member at or above the key, or node 0 when there is none |
| `RangeTable.OwnerOwns` | src/bootstrapUtil/RangeManager.java:51-68 | every key in [0, 1023] lies in its owner's range (start > end read as wrapping) |
| `RangeTable.OnlyOwnerOwns` | src/bootstrapUtil/RangeManager.java:51-68 | no member other than the owner has the key in its range |
| `RangeTable.RangesPartition` | src/bootstrapUtil/RangeManager.java:51-68 | the members' ranges partition [0, 1023]: every key lies in exactly one member's range |
| `RangeTable.RangeManager.constructor` | src/bootstrapUtil/RangeManager.java:11-14 | a fresh table holds exactly {0} |
| `RangeTable.RangeManager.AddNode` | src/bootstrapUtil/RangeManager.java:16-28 | the reply is AddReply of the old set; on success the set becomes old + {id}, otherwise it is unchanged; 0 stays a member |
| `RangeTable.RangeManager.RemoveNode` | src/bootstrapUtil/RangeManager.java:30-46 | the reply is RemoveReply of the old set; on success the set becomes old - {id}, otherwise it is unchanged; removing 0 always fails, so 0 stays a member |
| `LegacyRangeTable.RangeTextAgrees` | src/util/RangeManager.java:50-71 | the text variant answers exactly when the structured range does, and its text is that range written "start-end" |
| `LegacyRangeTable.RangeTextParses` | src/util/RangeManager.java:53-70 | a member's range text splits at '-' into two ints, the start and the end of its range |
| `LegacyRangeTable.RangeManager.constructor` | src/util/RangeManager.java:9-12 | a fresh table holds exactly {0} |
| `LegacyRangeTable.RangeManager.AddNode` | src/util/RangeManager.java:14-27 | code 0 exactly for a valid absent id, and then the set gains it; otherwise -1 and no change |
| `LegacyRangeTable.RangeManager.RemoveNode` | src/util/RangeManager.java:29-48 | code 0 exactly for a valid non-zero member, and then the set loses it; otherwise -1 and no change |
| `Nodes.Describe` | src/common/NodeInfo.java:36-41 | the toString text "Node <id> [<ip>:<port>, Pred: <pred>, Succ: <succ>]" starts with 'N' and ends with ']'; ResponseParser.ParseDescribe proves the parser reads its id, ip and port back |
| `Nodes.NodeInfo.ToString` | src/common/NodeInfo.java:36-41 | toString of the object: the same text for its own fields and pointers, starting with 'N' and ending with ']' |
| `Nodes.EnterReply` | src/bootstrap/BootstrapServer.java:103 | the ENTER reply "ENTER OK Predecessor: <pred> Successor: <succ>"; ResponseParser.PredFound, SuccFound and EnterReplyRoundTrip state what the parser reads from it |
| `Nodes.NodeInfo.constructor` | src/common/NodeInfo.java:10-14 | the constructor stores id, ip and port; both neighbours start unset |
| `Nodes.NodeInfo.SetPredecessor` | src/common/NodeInfo.java:24-26 | it sets the predecessor and changes no other field |
| `Nodes.NodeInfo.SetSuccessor` | src/common/NodeInfo.java:32-34 | it sets the successor and changes no other field |
| `Nodes.NodeInfo.SetIp` | src/common/NodeInfo.java:51-53 | it sets the ip and changes no other field; the id is a constant |
| `Nodes.NodeInfo.SetPort` | src/common/NodeInfo.java:55-57 | it sets the port and changes no other field |
| `Membership.PredOf` | src/bootstrapUtil/NodeManager.java:57-60 | the predecessor is a member: the largest member below n when n is positive, otherwise the highest member (every member then lies between n and it) |
| `Membership.SuccOf` | src/bootstrapUtil/NodeManager.java:62-65 | the successor is a member: the smallest member above n, or node 0 when no member lies above n |
| `Membership.SuccOfPred` | src/bootstrapUtil/NodeManager.java:56-68 | succ(pred(n)) = n for every member |
| `Membership.PredOfSucc` | src/bootstrapUtil/NodeManager.java:56-68 | pred(succ(n)) = n for every member |
| `Membership.SingleMemberRing` | src/bootstrapUtil/NodeManager.java:57-65 | in the ring {0}, both of node 0's neighbours are node 0 |
| `Membership.PointersInverse` | src/bootstrapUtil/NodeManager.java:52-69 | once pointers are current, following a member's predecessor pointer and then that member's successor pointer leads back; the same holds the other way round |
| `Membership.NodeManager.constructor` | src/bootstrapUtil/NodeManager.java:12-15 | a fresh manager holds only node 0, with ip "N/A", the given port and no pointers |
| `Membership.NodeManager.AddNode` | src/bootstrapUtil/NodeManager.java:17-30 | the reply is AddReply of the old ids (membership by id alone). Failure changes nothing. Success adds the node with its ip and port, keeps every other member's address, and leaves every member pointing at its ring neighbours |
| `Membership.NodeManager.RemoveNode` | src/bootstrapUtil/NodeManager.java:32-49 | the reply is RemoveReply of the old ids. Failure changes nothing. Success removes the member with that id (whatever its ip or port), keeps the other addresses, and leaves all pointers current |
| `Membership.NodeManager.UpdatePointers` | src/bootstrapUtil/NodeManager.java:52-69 | ids, ips and ports are unchanged; afterwards every member's predecessor and successor are snapshots of its ring neighbours |
| `Membership.NodeManager.GetNodeById` | src/bootstrapUtil/NodeManager.java:71-78 | it returns the member with that id, or None exactly when there is none |
| `Membership.NodeManager.SetPredecessor` | src/bootstrap/BootstrapServer.java:144-145 | only that member's predecessor changes |
| `KeyValueStore.Inserted` | src/common/KeyValueStore.java:13-19 | the key holds its old value if it was present (no overwrite), the new value otherwise, so a lookup after inserting an absent key gives the value; every other key is unchanged |
| `KeyValueStore.Deleted` | src/common/KeyValueStore.java:25-31 | the key is gone, so a lookup after a delete gives None; every other key is unchanged |
| `KeyValueStore.Find` | src/common/KeyValueStore.java:21-23 | the stored value, or None exactly when the key is absent |
| `KeyValueStore.Store.constructor` | src/common/KeyValueStore.java:9-11 | a fresh store is empty |
| `KeyValueStore.Store.Insert` | src/common/KeyValueStore.java:13-19 | returns 0 and stores the value for an absent key; returns -1 and keeps the old value for a present one; the same member models the copy at src/KeyValueStore.java:11-17 |
| `KeyValueStore.Store.Lookup` | src/common/KeyValueStore.java:21-23 | the stored value, or None (null) exactly when the key is absent; the same member models the copy at src/KeyValueStore.java:19-21 |
| `KeyValueStore.Store.Delete` | src/common/KeyValueStore.java:25-31 | returns 0 and removes a present key; returns -1 with no change otherwise; the same member models the copy at src/KeyValueStore.java:23-29 |
| `KeyTransfer.Records` | src/common/KeyTransferService.java:13-18 | the records of the stored keys from lo to hi; empty exactly when no key in lo..hi is stored |
| `KeyTransfer.SendKeyValueRange` | src/common/KeyTransferService.java:12-20 | the line is the records "key:value%0A" of the stored keys from start to end, ascending, followed by "FIN"; the store is only read |
| `KeyTransfer.WrappingRangeSendsNothing` | src/common/KeyTransferService.java:14-19 | for start > end the line is exactly "FIN" |
| `KeyTransfer.SplitRecords` | src/common/KeyTransferService.java:14-19 | with transferable values, the line splits at "%0A" into one "key:value" per stored key in ascending order, then "FIN" |
| `KeyTransfer.DecodeKeeps` | src/bootstrap/BootstrapServer.java:187-190 | decoding never overwrites a key already in the store |
| `KeyTransfer.FinEnds` | src/bootstrap/BootstrapServer.java:178-179 | decoding stops at a "FIN" segment |
| `KeyTransfer.DecodeStopsAtFin` | src/bootstrap/BootstrapServer.java:176-179 | segments after the first "FIN" have no effect |
| `KeyTransfer.DecodePair` | src/bootstrap/BootstrapServer.java:181-190 | a "key:value" segment with a transferable value inserts that value under that key |
| `KeyTransfer.TransferRoundTrip` | src/common/KeyTransferService.java:12-20 | decoding the sent line into any store adds exactly the sent range's entries, without overwriting. This holds when the values are non-empty, hold neither ':' nor "%0A", and have no surrounding blanks |
| `KeyTransfer.TransferIntoEmpty` | src/common/KeyTransferService.java:12-20 | decoding the sent line into an empty store gives exactly the in-range entries |
| `KeyTransfer.DecodeStep` | src/bootstrap/BootstrapServer.java:181-194 | one segment: every entry already stored is kept; a segment without ':' changes nothing; the same member models the copy at src/nameservers/NameServer.java:113-133 |
| `KeyTransfer.Decode` | src/bootstrap/BootstrapServer.java:174-195 | the store after the receiving loop has read a line keeps every entry it held before; the same member models the copy at src/nameservers/NameServer.java:113-133 |
| `KeyTransfer.ReceiveInto` | src/bootstrap/BootstrapServer.java:172-199 | the loop leaves the store equal to decoding the line into the old store. Decoding skips blank segments, stops at "FIN", skips segments without ':' or with a non-int key, and inserts (key, trimmed second field) without overwriting; the same member models the copy at src/nameservers/NameServer.java:113-133 |
| `KeyTransfer.DeleteRange` | src/bootstrap/BootstrapServer.java:167-170 | every key from start to end is deleted and nothing else; nothing is deleted when start > end; the same member models the copy at src/nameservers/NameServer.java:140-143 |
| `KeyTransfer.SendAndDeletePartition` | src/bootstrap/BootstrapServer.java:122-127 | what is sent and what the sender keeps after deleting are disjoint, and together they are the old store |
| `KeyTransfer.WrappingRangeDeletesNothing` | src/bootstrap/BootstrapServer.java:167-170 | deleting a range with start > end leaves the store unchanged |
| `ResponseParser.ParseHeader` | src/nameservers/namserverUtil/ResponseParser.java:28-37 | missing "Node ", a missing '[' after it, or a missing ']' after that fails with IllegalArgument; a read id is an int |
| `ResponseParser.ParseAddress` | src/nameservers/namserverUtil/ResponseParser.java:37-47 | bracketed text with no comma-separated element fails with IndexOutOfBounds; a first element (trimmed) without ':' fails with IllegalArgument; a result keeps the given id and has an int port |
| `ResponseParser.ParseNodeInfo` | src/nameservers/namserverUtil/ResponseParser.java:27-48 | missing "Node ", a missing '[' after it, or a missing ']' after that fails with IllegalArgument; a header failure is the result; once the header is read, no element fails with IndexOutOfBounds and a first element without ':' fails with IllegalArgument; a result's id and port are ints |
| `ResponseParser.ParseBootstrapResponse` | src/nameservers/namserverUtil/ResponseParser.java:10-23 | a reply without "Predecessor:" or without "Successor:" fails with IllegalArgument; a result holds two descriptors, predecessor first |
| `ResponseParser.ParseDescribe` | src/common/NodeInfo.java:36-41 | parseNodeInfo on a readable descriptor's toString text gives back its id, ip and port |
| `ResponseParser.EnterReplyRoundTrip` | src/nameservers/namserverUtil/ResponseParser.java:10-48 | parsing the ENTER reply built from two descriptors' toString gives back each neighbour's id, ip and port, predecessor first |
| `Bootstrap.BootstrapServer.constructor` | src/bootstrap/BootstrapServer.java:26-35 | the server holds the given store and managers |
| `Bootstrap.BootstrapServer.ParseNodeMessage` | src/bootstrap/BootstrapServer.java:71-159 | too few tokens gives the usage reply; a bad number gives no reply; an unknown keyword gives "INVALID COMMAND"; UPDATE_SUCCESSOR, PRINT and NEIGHBOR give no reply; none of these changes anything. Each other command does what its Handle method states. A ring and table that held the same ids still do |
| `Bootstrap.BootstrapServer.HandleEnter` | src/bootstrap/BootstrapServer.java:86-104 | a ring refusal gives its message and no change. A table refusal undoes the ring's add and gives the table's message. Success adds the id to both and replies "ENTER OK Predecessor: <pred> Successor: <succ>" with the joiner's new neighbours' toString |
| `Bootstrap.BootstrapServer.HandleExit` | src/bootstrap/BootstrapServer.java:105-119 | a ring refusal gives its message and no change. A table refusal re-adds the node to the ring (with the requester's address) and gives the table's message. Success removes the id from both and replies "EXIT OK" |
| `Bootstrap.BootstrapServer.HandleSendKeys` | src/bootstrap/BootstrapServer.java:120-128 | a non-member gets no reply. Otherwise the reply is the encoded range, which is deleted only when the next line is exactly "RECEIVED_OK" |
| `Bootstrap.BootstrapServer.HandleReceiveKeys` | src/bootstrap/BootstrapServer.java:129-146 | fewer than six tokens does nothing. Otherwise "SEND_OK" is sent, then "INVALID COMMAND" if the predecessor's id or port is not an int. Otherwise the next line is decoded into the store, "RECEIVED_OK" follows, and node 0's predecessor becomes (predId, predIp, predPort) |
| `NameServers.SendRange` | src/nameservers/NameServer.java:161-167 | getSendRange: the keys after the known predecessor's id up to endKey, or from 0 without one; SendRangeIsJoinerRange states what this range is in the ring |
| `NameServers.SendRangeIsJoinerRange` | src/nameservers/NameServer.java:161-167 | when the requester joins between this server's predecessor and this server, getSendRange is exactly the range the ring then gives the requester |
| `NameServers.TransferRequestParses` | src/nameservers/NameServer.java:109 | the successor reads the request "SEND_KEYS <id> <port>" as SEND_KEYS from that id and port |
| `NameServers.NameServer.constructor` | src/nameservers/NameServer.java:22-36 | a new server is not joined, and its descriptor is (id, "self", port) with no neighbours |
| `NameServers.NameServer.MarkAsJoined` | src/nameservers/NameServer.java:149-151 | sets the joined flag |
| `NameServers.NameServer.MarkAsJoinedFalse` | src/nameservers/NameServer.java:153-155 | clears the joined flag |
| `NameServers.NameServer.HandleIncomingRequest` | src/nameservers/NameServer.java:53-86 | only SEND_KEYS acts: it sends the records of getSendRange. It deletes them only on "RECEIVED_OK", then makes the requester the predecessor whatever it answered. With no answer it stops after sending. Every other request changes nothing and gets no reply |
| `NameServers.NameServer.ReceiveKeys` | src/nameservers/NameServer.java:96-138 | with no successor nothing happens. Otherwise "SEND_KEYS <id> <port>" is sent; with an answer, it is decoded into the store and "RECEIVED_OK" is sent |
| `Console.IsLocal` | src/bootstrap/BootstrapCLI.java:75-83 | insertKey's local test on node 0's range (start <= key <= end, or key >= start or key <= end when it wraps); its meaning is stated by the two lemmas below |
| `Console.ForwardRequest` | src/bootstrap/BootstrapCLI.java:40 | the forwarded line "<COMMAND> 0 <port> <message>" |
| `Console.LocalIffOwnedByNodeZero` | src/bootstrap/BootstrapCLI.java:75-83 | for keys in [0, 1023], the console's local test holds exactly when node 0 owns the key in the ring's partition |
| `Console.WrappingRangeAcceptsOutsideKeys` | src/bootstrap/BootstrapCLI.java:80-83 | while node 0's range wraps, the local test also accepts a negative key and a key above 1023 |
| `Console.BootstrapCli.constructor` | src/bootstrap/BootstrapCLI.java:23-29 | the console holds the given store, managers and port |
| `Console.BootstrapCli.SuccessorReply` | src/bootstrap/BootstrapCLI.java:31-46 | forwarding yields nothing, without any I/O, exactly when node 0 has no successor; otherwise it yields the successor's answer |
| `Console.BootstrapCli.LookupKey` | src/bootstrap/BootstrapCLI.java:48-66 | too few tokens or a non-int key is reported, and nothing is forwarded. A local hit gives the value. Only a miss is forwarded, as "LOOKUP 0 <port> <key>" |
| `Console.BootstrapCli.InsertKey` | src/bootstrap/BootstrapCLI.java:68-102 | too few tokens or a non-int key changes nothing. A key that passes the local test is inserted without overwriting, with "already exists" for a present key. Any other key is forwarded as "INSERT 0 <port> <key> <value>" and not stored |
| `Console.BootstrapCli.DeleteKey` | src/bootstrap/BootstrapCLI.java:104-122 | too few tokens or a non-int key changes nothing. A present key is deleted locally. Only an absent key is forwarded, as "DELETE 0 <port> <key>" |

## Left out

- Sockets, accept loops, thread pools, `synchronized` and all concurrency (src/bootstrap/BootstrapServer.java:37-69, src/nameservers/NameServer.java:38-51). Each handler is sequential: a function of the request line, the requester's address and the later input lines.
- The requester's address is a parameter. The bootstrap server uses `getHostAddress()` and the name server uses `InetAddress.toString()`; the two texts differ in form, and neither is modelled.
- Console printing: `printRanges`, `printNodes`, `print_keys`, `startCLI`, `parseCommand`'s PRINT/RANGE/NODES branches and every `System.out` message. The console commands return an outcome value in place of the printed line.
- `BootstrapCLI.parseCommand`: the keyword dispatch to the three modelled commands, whose only other effect is printing.
- `forwardToSuccessor`'s network part (src/bootstrap/BootstrapCLI.java:36-45) is an oracle: the successor's answer, or the error text, is a parameter.
- `NameServerCLI`, `BootstrapManager` and `NameServerManager`: console loops, configuration reading and start-up.
- Java `int` overflow: keys, ids and ports are unbounded integers. Only `Integer.parseInt` checks the int range. The range table's `+ 1` stays below 1025, but two places differ from Java:
- NameServers.SendRange: the predecessor id comes from a peer's request and may be any int; for 2147483647 Java's `predecessor.getId() + 1` wraps to -2147483648, while the model gives 2147483648.
- KeyTransfer.SendKeyValueRange: for a range ending at 2147483647 the Java loop `key <= end; key++` never ends, because `key` wraps; the model's loop ends after `end`. The same holds for `deleteKeys` (KeyTransfer.DeleteRange).
- `toUpperCase` and `parseInt` beyond ASCII: Java upper-cases other letters too ("ı" becomes "I", so "exıt" reads as EXIT) and `Integer.parseInt` accepts non-ASCII decimal digits; the model upper-cases only 'a' to 'z' and reads only '0' to '9'.
- The node command enum's own source file is not part of this model; `Common.Command` holds the seven constants the code names.
- `NodeInfo` getters: the model reads the fields directly.
- `ResponseParser.EnterReplyRoundTrip`: its precondition is stronger than "no ':' ',' '[' ']' in the ips". The predecessor's text, its own address and its neighbours' addresses included, must hold no 'S'. An address ending in "Successor", followed by the ':' of "ip:port", would put a "Successor:" inside the predecessor's text, and the parser's first-occurrence search would split there. The ips must also not start with a blank, which `trim` would remove.
