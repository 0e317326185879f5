/**
 * A node descriptor: id, address, port and the two neighbour pointers,
 * and the one-line text that toString renders for it. A neighbour pointer
 * is held as a by-value snapshot (id, address, port) of the neighbour.
 */
module Nodes {
  import opened JavaText

  /** The id, address and port of a node, as a neighbour pointer sees it. */
  datatype Peer = Peer(id: int, ip: string, port: int)

  /** How toString renders a neighbour: "null" for a missing one, otherwise
      "<id> (<ip>:<port>)"; the neighbour's own pointers are not printed. */
  function NeighbourText(p: Option<Peer>): string
  {
    match p
    case None => "null"
    case Some(q) => IntToString(q.id) + " (" + q.ip + ":" + IntToString(q.port) + ")"
  }

  /** NodeInfo.toString: "Node <id> [<ip>:<port>, Pred: <pred>, Succ: <succ>]",
      assembled from the pieces below. */
  function Describe(self: Peer, pred: Option<Peer>, succ: Option<Peer>): (r: string)
    ensures |r| > 0 && r[0] == 'N' && r[|r| - 1] == ']'
  {
    DescribeHead(self.id) + "[" + Fields(self, pred, succ) + "]"
  }

  /** "Node <id> ". */
  function DescribeHead(id: int): string
  {
    "Node " + IntToString(id) + " "
  }

  /** The bracketed part: "<ip>:<port>, Pred: <pred>, Succ: <succ>". */
  function Fields(self: Peer, pred: Option<Peer>, succ: Option<Peer>): string
  {
    AddressText(self) + "," + NeighboursText(pred, succ)
  }

  /** "<ip>:<port>". */
  function AddressText(p: Peer): string
  {
    p.ip + ":" + IntToString(p.port)
  }

  /** " Pred: <pred>, Succ: <succ>". */
  function NeighboursText(pred: Option<Peer>, succ: Option<Peer>): string
  {
    " Pred: " + NeighbourText(pred) + ", Succ: " + NeighbourText(succ)
  }

  /** The reply the bootstrap server sends a node whose ENTER succeeded,
      "ENTER OK Predecessor: <pred> Successor: <succ>", carrying the
      descriptors of its new neighbours. */
  function EnterReply(predText: string, succText: string): string
  {
    PredSection(predText) + SuccSection(succText)
  }

  /** "ENTER OK Predecessor: <pred> ". */
  function PredSection(predText: string): string
  {
    "ENTER OK " + "Predecessor:" + Padded(predText)
  }

  /** " <text> ". */
  function Padded(text: string): string
  {
    " " + text + " "
  }

  /** "Successor: <succ>". */
  function SuccSection(succText: string): string
  {
    "Successor:" + " " + succText
  }

  /** The mutable descriptor object. Its id is fixed at construction. */
  class NodeInfo {
    const id: int
    var ip: string
    var port: int
    var predecessor: Option<Peer>
    var successor: Option<Peer>

    /** Stores id, ip and port; both neighbours start unset. */
    constructor (id: int, ip: string, port: int)
      ensures this.id == id && this.ip == ip && this.port == port
      ensures predecessor == None && successor == None
    {
      this.id := id;
      this.ip := ip;
      this.port := port;
      predecessor := None;
      successor := None;
    }

    method SetPredecessor(p: Option<Peer>)
      modifies this`predecessor
      ensures predecessor == p
    {
      predecessor := p;
    }

    method SetSuccessor(s: Option<Peer>)
      modifies this`successor
      ensures successor == s
    {
      successor := s;
    }

    method SetIp(ip: string)
      modifies this`ip
      ensures this.ip == ip
    {
      this.ip := ip;
    }

    method SetPort(port: int)
      modifies this`port
      ensures this.port == port
    {
      this.port := port;
    }

    /** This node as a neighbour pointer would hold it. */
    function AsPeer(): Peer
      reads this
    {
      Peer(id, ip, port)
    }

    /** toString. */
    function ToString(): (r: string)
      reads this
      ensures |r| > 0 && r[0] == 'N' && r[|r| - 1] == ']'
    {
      Describe(AsPeer(), predecessor, successor)
    }
  }
}
