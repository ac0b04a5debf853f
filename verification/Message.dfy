/** Decoding one BMP message by its type: `BMPMessage.consume`. */
module Message {
  import opened Bytes
  import opened Tlv
  import opened Bgp
  import opened PeerHeader
  import opened PeerUp
  import Statistics
  import Mirroring

  datatype Route =
    | UpdateRoute(attr: string, nlri: string, withdraw: string)
    | RefreshRoute(afi: nat, subType: nat, safi: nat)

  /** What `consume` returns, one case per message type. */
  datatype Decoded =
    | RouteMonitoring(header: PeerHeader, route: Option<Route>)
    | StatisticsReport(header: PeerHeader, counters: Statistics.Counters)
    | PeerDown(header: PeerHeader, reason: nat)
    | PeerIsUp(header: PeerHeader, up: PeerUp)
    | Initiation(info: map<Key, bytes>)
    | Termination(info: map<Key, bytes>)
    | RouteMirroring(header: PeerHeader, mirrored: Mirroring.Dict)

  /** `consume` returns None, raises, or returns a result. */
  datatype Consumed = Nothing | Raised | Results(decoded: Decoded)

  function MessageType(d: Decoded): byte {
    match d
    case RouteMonitoring(_, _) => 0
    case StatisticsReport(_, _) => 1
    case PeerDown(_, _) => 2
    case PeerIsUp(_, _) => 3
    case Initiation(_) => 4
    case Termination(_) => 5
    case RouteMirroring(_, _) => 6
  }

  /** A BGP message that is not an update or a route refresh, or an update in
      error, gives None and is still a result. */
  function ParseRouteMonitoring(p: Parsers, msg: bytes): Result<Option<Route>> {
    var bgpMsgType :- UnpackB(Slice(msg, 18, 19));
    var body := From(msg, HDR_LEN);
    if bgpMsgType == 2 then
      var u :- p.update(body);
      Ok(if u.subError then None else Some(UpdateRoute(u.attr, u.nlri, u.withdraw)))
    else if bgpMsgType == 5 then
      var r :- p.refresh(body);
      Ok(Some(RefreshRoute(r.afi, r.res, r.safi)))
    else Ok(None)
  }

  /** An unknown reason raises: the warning call at that place is misspelt. */
  function ParsePeerDown(p: Parsers, msg: bytes): Result<nat> {
    var reason :- HexInt(Slice(msg, 0, 1));
    if reason == 1 then
      var _ :- p.notification(From(msg, 1));
      Ok(reason)
    else if 2 <= reason <= 4 then Ok(reason)
    else Raise
  }

  /** A BGP message behind its 19-byte header: exactly updates and route refreshes
      reach their parsers, with exactly the bytes behind the header. */
  lemma RouteMonitoringExactly(p: Parsers, header: bytes, kind: byte, body: bytes)
    requires |header| == HDR_LEN - 1
    ensures ParseRouteMonitoring(p, header + [kind] + body) ==
            if kind == 2 then
              if p.update(body).Raise? then Raise
              else if p.update(body).value.subError then Ok(None)
              else var u := p.update(body).value; Ok(Some(UpdateRoute(u.attr, u.nlri, u.withdraw)))
            else if kind == 5 then
              if p.refresh(body).Raise? then Raise
              else var r := p.refresh(body).value; Ok(Some(RefreshRoute(r.afi, r.res, r.safi)))
            else Ok(None)
    ensures forall short: bytes :: |short| < 19 ==> ParseRouteMonitoring(p, short).Raise?
  {
    var msg := header + [kind] + body;
    assert Slice(msg, 18, 19) == [kind];
    assert From(msg, HDR_LEN) == body;
  }

  /** A reason decodes to itself: 1 if the NOTIFICATION behind it parses, 2, 3 and 4
      always; nothing else decodes. */
  lemma PeerDownExactly(p: Parsers, reason: byte, data: bytes)
    ensures ParsePeerDown(p, [reason] + data) ==
            if (reason == 1 && p.notification(data).Ok?) || reason in [2, 3, 4] then Ok(reason) else Raise
    ensures ParsePeerDown(p, []).Raise?
  {
    var msg := [reason] + data;
    assert Slice(msg, 0, 1) == [reason] && From(msg, 1) == data;
    HexIntIsBe([reason]);
    assert Be([reason]) == reason;
  }

  /** The body of types 0, 1, 2, 3 and 6, behind the per-peer header. */
  function ParseBody(p: Parsers, msgType: byte, header: PeerHeader, body: bytes): Result<Decoded>
    requires msgType <= 3 || msgType == 6
  {
    if msgType == 0 then
      var route :- ParseRouteMonitoring(p, body);
      Ok(RouteMonitoring(header, route))
    else if msgType == 1 then
      var counters :- Statistics.Report(body);
      Ok(StatisticsReport(header, counters))
    else if msgType == 2 then
      var reason :- ParsePeerDown(p, body);
      Ok(PeerDown(header, reason))
    else if msgType == 3 then
      var up :- ParsePeerUp(p, body, header.flags);
      Ok(PeerIsUp(header, up))
    else
      var mirrored :- Mirroring.Mirror(p, body);
      Ok(RouteMirroring(header, mirrored))
  }

  function ParsePerPeer(p: Parsers, msgType: byte, raw: bytes): Result<Decoded>
    requires msgType <= 3 || msgType == 6
  {
    var header :- ParsePerPeerHeader(Slice(raw, 0, PER_PEER_LEN));
    ParseBody(p, msgType, header, From(raw, PER_PEER_LEN))
  }

  function ConsumeOutcome(p: Parsers, msgType: byte, raw: bytes): Consumed {
    if msgType <= 3 || msgType == 6 then
      match ParsePerPeer(p, msgType, raw)
      case Ok(d) => Results(d)
      case Raise => Nothing
    else if msgType == 4 then
      match Information(INIT_NAMES, raw)
      case Ok(info) => Results(Initiation(info))
      case Raise => Raised
    else if msgType == 5 then
      match Information(TERM_NAMES, raw)
      case Ok(info) => Results(Termination(info))
      case Raise => Raised
    else Nothing
  }

  lemma BodyAgrees(p: Parsers, msgType: byte, header: PeerHeader, body: bytes)
    requires msgType <= 3 || msgType == 6
    requires ParseBody(p, msgType, header, body).Ok?
    ensures var d := ParseBody(p, msgType, header, body).value;
      MessageType(d) == msgType && !d.Initiation? && !d.Termination? && d.header == header
  {
  }

  /** What the handler is told as `msg_type` is the type of the decoded result, and
      a per-peer result carries the header decoded from the first 42 bytes. */
  lemma ConsumeAgrees(p: Parsers, msgType: byte, raw: bytes)
    requires ConsumeOutcome(p, msgType, raw).Results?
    ensures var d := ConsumeOutcome(p, msgType, raw).decoded;
      && MessageType(d) == msgType
      && (msgType <= 3 || msgType == 6 ==> Ok(d.header) == ParsePerPeerHeader(Slice(raw, 0, PER_PEER_LEN)))
  {
    if msgType <= 3 || msgType == 6 {
      var header := ParsePerPeerHeader(Slice(raw, 0, PER_PEER_LEN));
      assert header.Ok?;
      BodyAgrees(p, msgType, header.value, From(raw, PER_PEER_LEN));
    }
  }

  /** Initiation and termination, on every byte string: an exception exactly if bytes
      are left over, else the dictionary of last values under the message's names. */
  lemma InformationMessages(p: Parsers, raw: bytes)
    ensures var c, a, b := CutTlvs(raw), ConsumeOutcome(p, 4, raw), ConsumeOutcome(p, 5, raw);
      if c.rest != [] then a == Raised && b == Raised
      else
        && a.Results? && a.decoded.Initiation?
        && HoldsLast(a.decoded.info, map[0 := "String", 1 := "sysDescr", 2 := "sysName"], c.tlvs)
        && b.Results? && b.decoded.Termination?
        && HoldsLast(b.decoded.info, map[0 := "String", 1 := "Reason"], c.tlvs)
  {
    TablesAreDistinct();
    FillDictHoldsLast(INIT_NAMES, CutTlvs(raw).tlvs);
    FillDictHoldsLast(TERM_NAMES, CutTlvs(raw).tlvs);
  }

  /** One message under decoding. A fresh object is made for every frame. */
  class BmpMessage {
    var msgType: Option<byte>
    var rawBody: Option<bytes>
    var msgBody: Option<bytes>

    constructor ()
      ensures msgType == None && rawBody == None && msgBody == None
    {
      msgType, rawBody, msgBody := None, None, None;
    }

    method Consume(p: Parsers) returns (r: Consumed)
      requires msgType.Some? && rawBody.Some?
      modifies `msgBody
      ensures r == ConsumeOutcome(p, msgType.value, rawBody.value)
    {
      var kind, raw := msgType.value, rawBody.value;
      if kind <= 3 || kind == 6 {
        var header := ParsePerPeerHeader(Slice(raw, 0, PER_PEER_LEN));
        if header.Raise? {
          return Nothing;
        }
        msgBody := Some(From(raw, PER_PEER_LEN));
        var d := Dispatch(p, kind, header.value, From(raw, PER_PEER_LEN));
        return if d.Ok? then Results(d.value) else Nothing;
      } else if kind == 4 {
        var info := ParseInitiation(raw);
        return if info.Ok? then Results(Initiation(info.value)) else Raised;
      } else if kind == 5 {
        var info := ParseTermination(raw);
        return if info.Ok? then Results(Termination(info.value)) else Raised;
      }
      r := Nothing;
    }

    static method Dispatch(p: Parsers, kind: byte, header: PeerHeader, body: bytes) returns (r: Result<Decoded>)
      requires kind <= 3 || kind == 6
      ensures r == ParseBody(p, kind, header, body)
    {
      if kind == 0 {
        var route := ParseRouteMonitoring(p, body);
        r := if route.Ok? then Ok(RouteMonitoring(header, route.value)) else Raise;
      } else if kind == 1 {
        var counters := Statistics.ParseStatisticReport(body);
        r := if counters.Ok? then Ok(StatisticsReport(header, counters.value)) else Raise;
      } else if kind == 2 {
        var reason := ParsePeerDown(p, body);
        r := if reason.Ok? then Ok(PeerDown(header, reason.value)) else Raise;
      } else if kind == 3 {
        var up := ParsePeerUp(p, body, header.flags);
        r := if up.Ok? then Ok(PeerIsUp(header, up.value)) else Raise;
      } else {
        var mirrored := Mirroring.ParseRouteMirroring(p, body);
        r := if mirrored.Ok? then Ok(RouteMirroring(header, mirrored.value)) else Raise;
      }
    }
  }
}
