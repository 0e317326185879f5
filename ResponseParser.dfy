/**
 * The name server's reader for the bootstrap server's ENTER reply
 * "ENTER OK Predecessor: <pred> Successor: <succ>", where each neighbour is
 * written as NodeInfo.toString writes it; only the id, the address and the
 * port of each neighbour are read back.
 */
module ResponseParser {
  import opened JavaText
  import opened Nodes

  /** The exceptions parsing can end with. */
  datatype Failure =
    | IllegalArgument    // a marker, a bracket or the ':' of ip:port is missing
    | NumberFormat       // an id or a port is not a Java int
    | IndexOutOfBounds   // a substring with begin > end, or no element before the first ','

  datatype Result<T> = Ok(value: T) | Fail(failure: Failure)

  /** The two neighbours parseBootstrapResponse returns, predecessor first. */
  datatype Neighbours = Neighbours(pred: Peer, succ: Peer)

  /** String.substring(begin, end); it throws when begin > end (the other
      bounds always hold where it is used here). */
  function Substring(s: string, begin: int, end: int): (r: Result<string>)
    ensures r.Ok? <==> 0 <= begin <= end <= |s|
    ensures r.Ok? ==> |r.value| == end - begin && forall i | 0 <= i < |r.value| :: r.value[i] == s[begin + i]
  {
    if 0 <= begin <= end <= |s| then Ok(s[begin..end]) else Fail(IndexOutOfBounds)
  }

  /** What parseNodeInfo reads before the bracketed fields: the id and the
      text between the brackets. */
  datatype Header = Header(id: int, fields: string)

  /** The first half of parseNodeInfo: the id is the trimmed text between
      the first "Node " and the next '[', parsed as an int; the fields are
      the text between that '[' and the next ']'. */
  function ParseHeader(info: string): (r: Result<Header>)
    ensures var nodeIndex := IndexOf(info, "Node ");
      var bracketStart := IndexOfFrom(info, "[", nodeIndex);
      nodeIndex < 0 || bracketStart < 0 || IndexOfFrom(info, "]", bracketStart) < 0 ==> r == Fail(IllegalArgument)
    ensures r.Ok? ==> IsInt32(r.value.id)
  {
    var nodeIndex := IndexOf(info, "Node ");
    var bracketStart := IndexOfFrom(info, "[", nodeIndex);
    var bracketEnd := IndexOfFrom(info, "]", bracketStart);
    if nodeIndex == -1 || bracketStart == -1 || bracketEnd == -1 then Fail(IllegalArgument)
    else match Substring(info, nodeIndex + |"Node "|, bracketStart)
      case Fail(f) => Fail(f)
      case Ok(idText) =>
        match ParseInt(Trim(idText))
        case None => Fail(NumberFormat)
        case Some(nodeId) =>
          match Substring(info, bracketStart + 1, bracketEnd)
          case Fail(f) => Fail(f)
          case Ok(inside) => Ok(Header(nodeId, inside))
  }

  /** parseNodeInfo: the header, then the address and port from the first
      comma-separated element of the fields. A missing marker, and a first
      element without ':', fail with IllegalArgument; fields with no
      element fail with IndexOutOfBounds. */
  function ParseNodeInfo(info: string): (r: Result<Peer>)
    ensures var nodeIndex := IndexOf(info, "Node ");
      var bracketStart := IndexOfFrom(info, "[", nodeIndex);
      nodeIndex < 0 || bracketStart < 0 || IndexOfFrom(info, "]", bracketStart) < 0 ==> r == Fail(IllegalArgument)
    ensures ParseHeader(info).Fail? ==> r == Fail(ParseHeader(info).failure)
    ensures ParseHeader(info).Ok? ==>
      var parts := Split(Trim(ParseHeader(info).value.fields), ",");
      && (parts == [] ==> r == Fail(IndexOutOfBounds))
      && (parts != [] && ':' !in Trim(parts[0]) ==> r == Fail(IllegalArgument))
    ensures r.Ok? ==> IsInt32(r.value.id) && IsInt32(r.value.port)
  {
    match ParseHeader(info)
    case Fail(f) => Fail(f)
    case Ok(header) => ParseAddress(header.id, header.fields)
  }

  /** The bracketed part of parseNodeInfo: the first comma-separated
      element, trimmed, must read "<ip>:<port>"; an element without ':' is
      the "Invalid IP:port format" failure. */
  function ParseAddress(nodeId: int, inside: string): (r: Result<Peer>)
    ensures Split(Trim(inside), ",") == [] ==> r == Fail(IndexOutOfBounds)
    ensures var parts := Split(Trim(inside), ",");
      |parts| > 0 && ':' !in Trim(parts[0]) ==> r == Fail(IllegalArgument)
    ensures r.Ok? ==> r.value.id == nodeId && IsInt32(r.value.port)
  {
    var parts := Split(Trim(inside), ",");
    if |parts| == 0 then Fail(IndexOutOfBounds)
    else
      var ipPort := Trim(parts[0]);
      assert ':' !in ipPort ==> Split(ipPort, ":") == [ipPort] by {
        if ':' !in ipPort { IndexOfNone(ipPort, ":"); }
      }
      var ipPortParts := Split(ipPort, ":");
      if |ipPortParts| < 2 then Fail(IllegalArgument)
      else match ParseInt(ipPortParts[1])
        case None => Fail(NumberFormat)
        case Some(port) => Ok(Peer(nodeId, ipPortParts[0], port))
  }

  /** parseBootstrapResponse: the predecessor's text lies between the first
      "Predecessor:" and the first "Successor:", the successor's text is
      everything after that "Successor:"; both are trimmed and parsed. */
  function ParseBootstrapResponse(response: string): (r: Result<Neighbours>)
    ensures IndexOf(response, "Predecessor:") < 0 || IndexOf(response, "Successor:") < 0 ==>
      r == Fail(IllegalArgument)
    ensures r.Ok? ==> IsInt32(r.value.pred.id) && IsInt32(r.value.succ.id)
  {
    var predIndex := IndexOf(response, "Predecessor:");
    var succIndex := IndexOf(response, "Successor:");
    if predIndex == -1 || succIndex == -1 then Fail(IllegalArgument)
    else match Substring(response, predIndex + |"Predecessor:"|, succIndex)
      case Fail(f) => Fail(f)
      case Ok(predText) =>
        match Substring(response, succIndex + |"Successor:"|, |response|)
        case Fail(f) => Fail(f)
        case Ok(succText) =>
          match ParseNodeInfo(Trim(predText))
          case Fail(f) => Fail(f)
          case Ok(pred) =>
            match ParseNodeInfo(Trim(succText))
            case Fail(f) => Fail(f)
            case Ok(succ) => Ok(Neighbours(pred, succ))
  }

  // ---------------------------------------------------------------------
  // Printer/parser round trip

  /** An address the descriptor text carries unchanged: none of the
      characters the parser splits at, and not starting with a blank. */
  predicate ReadableIp(ip: string)
  {
    && ':' !in ip && ',' !in ip && '[' !in ip && ']' !in ip
    && (ip == [] || ip[0] > ' ')
  }

  /** A descriptor whose fields parse back. */
  predicate Readable(p: Peer)
  {
    IsInt32(p.id) && IsInt32(p.port) && ReadableIp(p.ip)
  }

  /** A neighbour pointer that cannot close the descriptor's brackets early. */
  predicate ReadableNeighbour(q: Option<Peer>)
  {
    q.Some? ==> ']' !in q.value.ip
  }

  /** An int's text holds none of the characters the parser looks for. */
  lemma IntTextPlain(n: int)
    ensures ':' !in IntToString(n) && ',' !in IntToString(n)
    ensures '[' !in IntToString(n) && ']' !in IntToString(n)
    ensures 'S' !in IntToString(n)
    ensures IntToString(n)[0] > ' ' && IntToString(n)[|IntToString(n)| - 1] > ' '
  {
    IntToStringChars(n);
    assert IntToString(n)[0] in IntToString(n);
  }

  /** A neighbour's text holds no ']' when its address holds none, and no
      'S' when its address holds none. */
  lemma NeighbourTextPlain(q: Option<Peer>)
    ensures ReadableNeighbour(q) ==> ']' !in NeighbourText(q)
    ensures (q.Some? ==> 'S' !in q.value.ip) ==> 'S' !in NeighbourText(q)
    ensures |NeighbourText(q)| > 0 && NeighbourText(q)[|NeighbourText(q)| - 1] > ' '
  {
    if q.Some? {
      IntTextPlain(q.value.id);
      IntTextPlain(q.value.port);
    }
  }

  /** The address part of a readable descriptor: not blank at either end,
      and free of the separators around it. */
  lemma AddressClean(self: Peer)
    requires Readable(self)
    ensures var a := AddressText(self);
      && |a| > 0 && a[0] > ' ' && a[|a| - 1] > ' '
      && ',' !in a && '[' !in a && ']' !in a
  {
    var a := AddressText(self);
    IntTextPlain(self.port);
    assert a[|a| - 1] == IntToString(self.port)[|IntToString(self.port)| - 1];
    if self.ip == [] {
      assert a[0] == ':';
    } else {
      assert a[0] == self.ip[0];
    }
  }

  /** The neighbour part of a descriptor ends in a non-blank and, for
      readable neighbours, holds no ']'. */
  lemma NeighboursClean(pred: Option<Peer>, succ: Option<Peer>)
    requires ReadableNeighbour(pred) && ReadableNeighbour(succ)
    ensures var n := NeighboursText(pred, succ); |n| > 0 && n[|n| - 1] > ' ' && ']' !in n
  {
    NeighbourTextPlain(pred);
    NeighbourTextPlain(succ);
    var n := NeighboursText(pred, succ);
    assert n[|n| - 1] == NeighbourText(succ)[|NeighbourText(succ)| - 1];
  }

  /** The bracketed part of a readable descriptor holds no ']' and is not
      blank at either end. */
  lemma FieldsClean(self: Peer, pred: Option<Peer>, succ: Option<Peer>)
    requires Readable(self) && ReadableNeighbour(pred) && ReadableNeighbour(succ)
    ensures var f := Fields(self, pred, succ); ']' !in f && Trim(f) == f
  {
    var a := AddressText(self);
    var n := NeighboursText(pred, succ);
    var f := Fields(self, pred, succ);
    AddressClean(self);
    NeighboursClean(pred, succ);
    assert f[0] == a[0] && f[|f| - 1] == n[|n| - 1];
    TrimClean(f);
  }

  /** The first comma-separated element of a readable descriptor's bracketed
      part is its address part. */
  lemma FieldsFirst(self: Peer, pred: Option<Peer>, succ: Option<Peer>)
    requires Readable(self) && ReadableNeighbour(pred) && ReadableNeighbour(succ)
    ensures var f := Fields(self, pred, succ);
      |Split(Trim(f), ",")| > 0 && Split(Trim(f), ",")[0] == AddressText(self)
  {
    FieldsClean(self, pred, succ);
    AddressClean(self);
    SplitFirst(AddressText(self), NeighboursText(pred, succ), ",");
  }

  /** The address part splits at ':' into the address and the port's text. */
  lemma AddressSplit(self: Peer)
    requires Readable(self)
    ensures Split(Trim(AddressText(self)), ":") == [self.ip, IntToString(self.port)]
  {
    AddressClean(self);
    TrimClean(AddressText(self));
    IntTextPlain(self.port);
    SplitTwo(self.ip, IntToString(self.port), ":");
  }

  /** "Node <id> " starts with "Node " and holds no bracket. */
  lemma HeadFound(id: int)
    ensures var h := DescribeHead(id);
      IndexOf(h, "Node ") == 0 && '[' !in h && ']' !in h
  {
    var t := IntToString(id);
    IndexOfAtStart("Node ", t);
    IndexOfInPrefix("Node " + t, " ", "Node ");
    IntTextPlain(id);
  }

  /** The id read from "Node <id> " is the id written. */
  lemma HeadId(id: int)
    requires IsInt32(id)
    ensures |DescribeHead(id)| >= 5 && ParseInt(Trim(DescribeHead(id)[5..])) == Some(id)
  {
    var t := IntToString(id);
    IntTextPlain(id);
    assert DescribeHead(id)[5..] == "" + t + " ";
    TrimPadded("", t, " ");
    ParseIntToString(id);
  }

  /** In a descriptor, "Node " is found at the start. */
  lemma DescribeNodeIndex(self: Peer, pred: Option<Peer>, succ: Option<Peer>)
    ensures IndexOf(Describe(self, pred, succ), "Node ") == 0
  {
    var h := DescribeHead(self.id);
    var f := Fields(self, pred, succ);
    HeadFound(self.id);
    IndexOfInPrefix(h, "[", "Node ");
    IndexOfInPrefix(h + "[", f, "Node ");
    IndexOfInPrefix(h + "[" + f, "]", "Node ");
  }

  /** In a descriptor, the first '[' follows "Node <id> ". */
  lemma DescribeOpen(self: Peer, pred: Option<Peer>, succ: Option<Peer>)
    ensures IndexOfFrom(Describe(self, pred, succ), "[", 0) == |DescribeHead(self.id)|
  {
    var h := DescribeHead(self.id);
    var f := Fields(self, pred, succ);
    HeadFound(self.id);
    IndexOfAtStart("[", "");
    assert "[" + "" == "[";
    IndexOfAfterPrefix(h, "[", "[");
    IndexOfInPrefix(h + "[", f, "[");
    IndexOfInPrefix(h + "[" + f, "]", "[");
  }

  /** In a readable descriptor, the first ']' after the '[' is the last
      character. */
  lemma DescribeClose(self: Peer, pred: Option<Peer>, succ: Option<Peer>)
    requires ']' !in Fields(self, pred, succ)
    ensures var h := DescribeHead(self.id);
      IndexOfFrom(Describe(self, pred, succ), "]", |h|) == |h| + 1 + |Fields(self, pred, succ)|
  {
    var h := DescribeHead(self.id);
    var f := Fields(self, pred, succ);
    HeadFound(self.id);
    IndexOfAtStart("]", "");
    assert "]" + "" == "]";
    IndexOfFromAfterPrefix(h + "[" + f, "]", "]", |h|);
  }

  /** The text between "Node " and '[' in a descriptor. */
  lemma DescribeIdText(self: Peer, pred: Option<Peer>, succ: Option<Peer>)
    ensures var h := DescribeHead(self.id);
      |h| >= 5 && Describe(self, pred, succ)[5..|h|] == h[5..]
  {
    var h := DescribeHead(self.id);
    var f := Fields(self, pred, succ);
    SliceInPrefix(h + "[" + f, "]", 5, |h|);
    SliceInPrefix(h + "[", f, 5, |h|);
    SliceInPrefix(h, "[", 5, |h|);
  }

  /** The text between the brackets of a descriptor. */
  lemma DescribeInside(self: Peer, pred: Option<Peer>, succ: Option<Peer>)
    ensures var h := DescribeHead(self.id);
      var f := Fields(self, pred, succ);
      Describe(self, pred, succ)[|h| + 1..|h| + 1 + |f|] == f
  {
    var h := DescribeHead(self.id);
    var f := Fields(self, pred, succ);
    SliceInPrefix(h + "[" + f, "]", |h| + 1, |h| + 1 + |f|);
    SliceInSuffix(h + "[", f, |h| + 1, |h| + 1 + |f|);
  }

  /** parseNodeInfo reads back the id, address and port of the text
      toString writes for a readable descriptor. */
  lemma ParseDescribe(self: Peer, pred: Option<Peer>, succ: Option<Peer>)
    requires Readable(self) && ReadableNeighbour(pred) && ReadableNeighbour(succ)
    ensures ParseNodeInfo(Describe(self, pred, succ)) == Ok(self)
  {
    FieldsClean(self, pred, succ);
    FieldsFirst(self, pred, succ);
    DescribeNodeIndex(self, pred, succ);
    DescribeOpen(self, pred, succ);
    DescribeClose(self, pred, succ);
    DescribeIdText(self, pred, succ);
    HeadId(self.id);
    DescribeInside(self, pred, succ);
    AddressSplit(self);
    ParseIntToString(self.port);
  }

  /** A descriptor's text starts with 'N' and ends with ']'. */
  lemma DescribeEnds(self: Peer, pred: Option<Peer>, succ: Option<Peer>)
    ensures var t := Describe(self, pred, succ); |t| > 0 && t[0] == 'N' && t[|t| - 1] == ']'
  {
  }

  /** The label ", Succ: " inside a descriptor starts no "Successor:". */
  lemma SuccLabelNoStart()
    ensures NoStart(", Succ: ", "Successor:")
  {
    var x := ", Succ: ";
    var p := "Successor:";
    forall j | 0 <= j < |x|
      ensures !Compatible(x[j..], p)
    {
      if j == 2 {
        assert x[j..][4] == ':' && p[4] == 'e';
      } else {
        assert x[j..][0] == x[j] && x[j] != 'S' && p[0] == 'S';
      }
    }
  }

  /** The neighbour part of a descriptor whose neighbours' addresses hold
      no 'S' starts no "Successor:". */
  lemma NeighboursNoStart(pred: Option<Peer>, succ: Option<Peer>)
    requires pred.Some? ==> 'S' !in pred.value.ip
    requires succ.Some? ==> 'S' !in succ.value.ip
    ensures NoStart(NeighboursText(pred, succ), "Successor:")
  {
    var p := "Successor:";
    NeighbourTextPlain(pred);
    NeighbourTextPlain(succ);
    NoStartWithout(" Pred: " + NeighbourText(pred), p);
    SuccLabelNoStart();
    NoStartConcat(" Pred: " + NeighbourText(pred), ", Succ: ", p);
    NoStartWithout(NeighbourText(succ), p);
    NoStartConcat(" Pred: " + NeighbourText(pred) + ", Succ: ", NeighbourText(succ), p);
  }

  /** A descriptor whose addresses hold no 'S' starts no "Successor:". */
  lemma DescribeNoStart(self: Peer, pred: Option<Peer>, succ: Option<Peer>)
    requires 'S' !in self.ip
    requires pred.Some? ==> 'S' !in pred.value.ip
    requires succ.Some? ==> 'S' !in succ.value.ip
    ensures NoStart(Describe(self, pred, succ), "Successor:")
  {
    var p := "Successor:";
    var h := DescribeHead(self.id);
    var a := AddressText(self);
    var f := Fields(self, pred, succ);
    IntTextPlain(self.id);
    IntTextPlain(self.port);
    NoStartWithout(h + "[", p);
    NoStartWithout(a + ",", p);
    NeighboursNoStart(pred, succ);
    NoStartConcat(a + ",", NeighboursText(pred, succ), p);
    NoStartConcat(h + "[", f, p);
    NoStartWithout("]", p);
    NoStartConcat(h + "[" + f, "]", p);
  }

  /** In an ENTER reply, "Predecessor:" is found after "ENTER OK ". */
  lemma PredFound(predText: string, succText: string)
    ensures IndexOf(EnterReply(predText, succText), "Predecessor:") == 9
  {
    var p := "Predecessor:";
    IndexOfAtStart(p, "");
    assert p + "" == p;
    IndexOfAfterPrefix("ENTER OK ", p, p);
    IndexOfInPrefix("ENTER OK " + p, Padded(predText), p);
    IndexOfInPrefix(PredSection(predText), SuccSection(succText), p);
  }

  /** In an ENTER reply whose predecessor text starts no "Successor:", the
      first "Successor:" is the one the reply writes. */
  lemma SuccFound(predText: string, succText: string)
    requires NoStart(predText, "Successor:")
    ensures IndexOf(EnterReply(predText, succText), "Successor:") == |PredSection(predText)|
  {
    var p := "Successor:";
    NoStartWithout("ENTER OK " + "Predecessor:", p);
    NoStartWithout(" ", p);
    NoStartConcat(" ", predText, p);
    NoStartConcat(" " + predText, " ", p);
    NoStartConcat("ENTER OK " + "Predecessor:", Padded(predText), p);
    IndexOfAtStart(p, " ");
    IndexOfInPrefix(p + " ", succText, p);
    IndexOfAfterNoStart(PredSection(predText), SuccSection(succText), p);
  }

  /** The text between the two labels of an ENTER reply. */
  lemma PredTextSlice(predText: string, succText: string)
    ensures var n := |PredSection(predText)|;
      21 <= n && EnterReply(predText, succText)[21..n] == Padded(predText)
  {
    var n := |PredSection(predText)|;
    SliceInPrefix(PredSection(predText), SuccSection(succText), 21, n);
    SliceInSuffix("ENTER OK " + "Predecessor:", Padded(predText), 21, n);
  }

  /** The text after "Successor:" in an ENTER reply. */
  lemma SuccTextSlice(predText: string, succText: string)
    ensures var r := EnterReply(predText, succText);
      var n := |PredSection(predText)|;
      r[n + 10..|r|] == " " + succText
  {
    var r := EnterReply(predText, succText);
    var n := |PredSection(predText)|;
    SliceInSuffix(PredSection(predText), SuccSection(succText), n + 10, |r|);
    assert SuccSection(succText) == "Successor:" + (" " + succText);
  }

  /** The blanks around a text whose ends are not blank are trimmed off. */
  lemma TrimBothSides(t: string)
    requires |t| > 0 && t[0] > ' ' && t[|t| - 1] > ' '
    ensures Trim(Padded(t)) == t
  {
    TrimPadded(" ", t, " ");
  }

  /** A blank before a text whose ends are not blank is trimmed off. */
  lemma TrimLeftSide(t: string)
    requires |t| > 0 && t[0] > ' ' && t[|t| - 1] > ' '
    ensures Trim(" " + t) == t
  {
    assert " " + t == " " + t + "";
    TrimPadded(" ", t, "");
  }

  /** parseBootstrapResponse on a reply whose two labels and two texts are
      where the reply writes them. */
  lemma ParseWithLabels(r: string, n: int, predPart: string, succPart: string)
    requires IndexOf(r, "Predecessor:") == 9 && IndexOf(r, "Successor:") == n
    requires Substring(r, 21, n) == Ok(predPart) && Substring(r, n + 10, |r|) == Ok(succPart)
    requires ParseNodeInfo(Trim(predPart)).Ok? && ParseNodeInfo(Trim(succPart)).Ok?
    ensures ParseBootstrapResponse(r)
      == Ok(Neighbours(ParseNodeInfo(Trim(predPart)).value, ParseNodeInfo(Trim(succPart)).value))
  {
  }

  /** The printer/parser round trip: parsing the ENTER reply built from two
      readable descriptors gives back each neighbour's id, address and
      port, predecessor first. The predecessor's text, read before the
      first "Successor:", must hold no 'S' in its addresses. */
  lemma EnterReplyRoundTrip(p: Peer, pp: Option<Peer>, ps: Option<Peer>,
                            s: Peer, sp: Option<Peer>, ss: Option<Peer>)
    requires Readable(p) && ReadableNeighbour(pp) && ReadableNeighbour(ps)
    requires Readable(s) && ReadableNeighbour(sp) && ReadableNeighbour(ss)
    requires 'S' !in p.ip
    requires pp.Some? ==> 'S' !in pp.value.ip
    requires ps.Some? ==> 'S' !in ps.value.ip
    ensures ParseBootstrapResponse(EnterReply(Describe(p, pp, ps), Describe(s, sp, ss))) == Ok(Neighbours(p, s))
  {
    var predText := Describe(p, pp, ps);
    var succText := Describe(s, sp, ss);
    var r := EnterReply(predText, succText);
    var n := |PredSection(predText)|;
    assert IndexOf(r, "Predecessor:") == 9 by { PredFound(predText, succText); }
    assert IndexOf(r, "Successor:") == n by {
      DescribeNoStart(p, pp, ps);
      SuccFound(predText, succText);
    }
    assert Substring(r, 9 + 12, n) == Ok(Padded(predText)) by { PredTextSlice(predText, succText); }
    assert Substring(r, n + 10, |r|) == Ok(" " + succText) by { SuccTextSlice(predText, succText); }
    assert Trim(Padded(predText)) == predText by {
      DescribeEnds(p, pp, ps);
      TrimBothSides(predText);
    }
    assert Trim(" " + succText) == succText by {
      DescribeEnds(s, sp, ss);
      TrimLeftSide(succText);
    }
    assert ParseNodeInfo(predText) == Ok(p) by { ParseDescribe(p, pp, ps); }
    assert ParseNodeInfo(succText) == Ok(s) by { ParseDescribe(s, sp, ss); }
    ParseWithLabels(r, n, Padded(predText), " " + succText);
  }
}
