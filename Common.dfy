/**
 * Values shared by every component of the ring: the size of the key space,
 * a key range, and the (code, message) reply of the membership managers.
 */
module Common {
  import opened JavaText

  /** The largest key and the largest node id; the key space is [0, MaxRange]. */
  const MaxRange: int := 1023

  predicate ValidId(id: int) { 0 <= id <= MaxRange }

  /** A range of keys from start to end inclusive; start > end means the
      range wraps around the end of the key space. */
  datatype Range = Range(start: int, end: int)

  /** The range test the bootstrap console applies: start <= key <= end for
      an ordinary range, key >= start or key <= end for a wrapping one. On a
      wrapping range it also accepts keys above MaxRange and negative keys. */
  predicate InRange(r: Range, key: int)
  {
    if r.start <= r.end then r.start <= key <= r.end else key >= r.start || key <= r.end
  }

  /** The reply of a membership change: code 0 for success, -1 for failure. */
  datatype Response = Response(code: int, message: string)

  /** The reply both membership managers give to addNode(nodeId): a
      failure for an id outside [0, MaxRange] or already present, success
      otherwise. */
  function AddReply(ids: set<int>, nodeId: int): (r: Response)
    ensures r.code == 0 <==> ValidId(nodeId) && nodeId !in ids
    ensures r.code == 0 || r.code == -1
  {
    if nodeId < 0 || nodeId > MaxRange then
      Response(-1, "Invalid Node ID. Must be between 0 and " + IntToString(MaxRange))
    else if nodeId in ids then Response(-1, "Node " + IntToString(nodeId) + " already exists.")
    else Response(0, "Node " + IntToString(nodeId) + " added.")
  }

  /** The reply both membership managers give to removeNode(nodeId): a
      failure for an id outside [0, MaxRange], for the bootstrap node 0 and
      for an absent id, success otherwise. */
  function RemoveReply(ids: set<int>, nodeId: int): (r: Response)
    ensures r.code == 0 <==> ValidId(nodeId) && nodeId != 0 && nodeId in ids
    ensures r.code == 0 || r.code == -1
  {
    if nodeId < 0 || nodeId > MaxRange then
      Response(-1, "Invalid node ID. Must be between 0 and " + IntToString(MaxRange))
    else if nodeId == 0 then Response(-1, "Bootstrap node cannot be removed.")
    else if nodeId in ids then Response(0, "Node " + IntToString(nodeId) + " removed.")
    else Response(-1, "Node " + IntToString(nodeId) + " does not exist.")
  }

  /** The request keywords of the node command enum: the five the servers
      dispatch on, and the two console words PRINT and NEIGHBOR that the
      enum also accepts. */
  datatype Command = Enter | Exit | SendKeys | ReceiveKeys | UpdateSuccessor | Print | Neighbor

  /** The keyword of a command, as its name() spells it. */
  function CommandName(c: Command): string
  {
    match c
    case Enter => "ENTER"
    case Exit => "EXIT"
    case SendKeys => "SEND_KEYS"
    case ReceiveKeys => "RECEIVE_KEYS"
    case UpdateSuccessor => "UPDATE_SUCCESSOR"
    case Print => "PRINT"
    case Neighbor => "NEIGHBOR"
  }

  /** valueOf on the command enum: the command spelled by word, or None
      where Java throws IllegalArgumentException. */
  function CommandOf(word: string): (r: Option<Command>)
    ensures r.Some? ==> CommandName(r.value) == word
    ensures r.None? <==> forall c: Command :: CommandName(c) != word
  {
    if word == "ENTER" then Some(Enter)
    else if word == "EXIT" then Some(Exit)
    else if word == "SEND_KEYS" then Some(SendKeys)
    else if word == "RECEIVE_KEYS" then Some(ReceiveKeys)
    else if word == "UPDATE_SUCCESSOR" then Some(UpdateSuccessor)
    else if word == "PRINT" then Some(Print)
    else if word == "NEIGHBOR" then Some(Neighbor)
    else None
  }

  /** A request line as the servers read it: the keyword, the requester's
      node id and its port, read in that order. */
  datatype Request =
    | TooShort                                       // fewer than three tokens
    | BadNumber                                      // the node id or the port is not an int
    | Unknown                                        // the keyword names no command
    | Request(command: Command, nodeId: int, port: int)

  /** Both servers split the line at runs of whitespace, upper-case the
      keyword, parse the node id and then the port, and only then look the
      keyword up: a bad number wins over an unknown keyword. */
  function ParseRequest(tokens: seq<string>): (r: Request)
    ensures r.TooShort? <==> |tokens| < 3
    ensures r.BadNumber? <==>
      |tokens| >= 3 && (ParseInt(tokens[1]).None? || ParseInt(tokens[2]).None?)
    ensures r.Unknown? <==>
      && |tokens| >= 3 && ParseInt(tokens[1]).Some? && ParseInt(tokens[2]).Some?
      && CommandOf(ToUpper(tokens[0])).None?
    ensures r.Request? ==>
      && CommandName(r.command) == ToUpper(tokens[0])
      && ParseInt(tokens[1]) == Some(r.nodeId) && ParseInt(tokens[2]) == Some(r.port)
  {
    if |tokens| < 3 then TooShort
    else
      match (ParseInt(tokens[1]), ParseInt(tokens[2]))
      case (Some(nodeId), Some(port)) =>
        (match CommandOf(ToUpper(tokens[0]))
         case None => Unknown
         case Some(c) => Request(c, nodeId, port))
      case _ => BadNumber
  }

  /** The request line a node sends: "<COMMAND> <nodeId> <port>". */
  function RequestLine(c: Command, nodeId: int, port: int): string
  {
    CommandName(c) + " " + (IntToString(nodeId) + " " + IntToString(port))
  }

  /** A keyword is a word of capitals and underscores. */
  lemma CommandNameWord(c: Command)
    ensures IsWord(CommandName(c))
    ensures ToUpper(CommandName(c)) == CommandName(c)
  {
    ToUpperNoLower(CommandName(c));
  }

  /** valueOf(name()) is the command itself. */
  lemma CommandOfName(c: Command)
    ensures CommandOf(CommandName(c)) == Some(c)
  {
    match c
    case Enter =>
    case Exit =>
    case SendKeys =>
    case ReceiveKeys =>
    case UpdateSuccessor =>
    case Print =>
    case Neighbor =>
  }

  /** Reading a request line back yields the command, id and port it was
      written from. */
  lemma RequestRoundTrip(c: Command, nodeId: int, port: int)
    requires IsInt32(nodeId) && IsInt32(port)
    ensures ParseRequest(Tokens(RequestLine(c, nodeId, port))) == Request(c, nodeId, port)
  {
    var name, id, p := CommandName(c), IntToString(nodeId), IntToString(port);
    CommandNameWord(c);
    IntToStringWord(nodeId);
    IntToStringWord(port);
    TokensOfThreeWords(name, id, p);
    var tokens := Tokens(RequestLine(c, nodeId, port));
    assert tokens == [name, id, p];
    ParseIntToString(nodeId);
    ParseIntToString(port);
    CommandOfName(c);
    assert CommandOf(ToUpper(tokens[0])) == Some(c);
  }
}
