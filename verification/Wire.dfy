/** From a message as RFC 7854 puts it on the wire to its line in the log: one encoded
    message of each logged type, received in any pieces. */
module Wire {
  import opened Bytes
  import opened Bgp
  import opened Framing
  import opened PeerHeader
  import opened PeerUp
  import opened Message
  import opened Handler
  import opened Runs
  import opened EndToEnd
  import Tlv
  import Statistics
  import Mirroring

  /** A per-peer message: header of section 4.2, then the body. */
  function PerPeer(msgType: byte, h: PeerHeader, rd: bytes, body: bytes): Frame {
    Frame(msgType, EncodeHeader(h, rd) + body)
  }

  lemma {:induction false} ConsumeEncoded(p: Parsers, msgType: byte, h: PeerHeader, rd: bytes, body: bytes)
    requires (msgType <= 3 || msgType == 6) && Representable(h, rd)
    ensures ConsumeOutcome(p, msgType, PerPeer(msgType, h, rd, body).body) ==
            match ParseBody(p, msgType, h, body) case Ok(d) => Results(d) case Raise => Nothing
  {
    var raw := PerPeer(msgType, h, rd, body).body;
    EncodeSlices(h, rd);
    FieldsRoundTrip(h, rd);
    assert Slice(raw, 0, PER_PEER_LEN) == EncodeHeader(h, rd) && From(raw, PER_PEER_LEN) == body;
  }

  /** A session that receives exactly one message, in some pieces. */
  predicate Delivers(chunks: seq<bytes>, f: Frame) {
    Framing.Encodable(f) && Flatten(chunks) == EncodeFrame(f)
  }

  lemma {:induction false} MessageIsLogged(env: Env, p: Parsers, host: string, log: State, msgType: byte,
                                           h: PeerHeader, rd: bytes, body: bytes, d: Decoded, chunks: seq<bytes>)
    requires msgType <= 3 && Representable(h, rd) && OwnFiles(log)
    requires ParseBody(p, msgType, h, body) == Ok(d) && Delivers(chunks, PerPeer(msgType, h, rd, body))
    ensures Logged(d) && d.header == h
    ensures var t := ReceiveAll(env, p, host, Session(START, log), chunks).log;
      Extends(RecordsFor(log.journal, h.addr), RecordsFor(t.journal, h.addr), [d], NextSeq(env, log, host, h.addr))
  {
    var f := PerPeer(msgType, h, rd, body);
    EncodeOne(f);
    EncodedSession(env, p, host, log, [f], chunks);
    BodyAgrees(p, msgType, h, body);
    LoggedAlone(p, msgType, h, rd, body, d);
    LogAgreesWithDecoder(env, p, host, log, [f], h.addr);
  }

  lemma EncodeOne(f: Frame)
    ensures EncodeFrames([f]) == EncodeFrame(f)
  {
    assert [f][1..] == [];
  }

  lemma {:induction false} LoggedAlone(p: Parsers, msgType: byte, h: PeerHeader, rd: bytes, body: bytes, d: Decoded)
    requires msgType <= 3 && Representable(h, rd) && ParseBody(p, msgType, h, body) == Ok(d)
    ensures LoggedFor(p, [PerPeer(msgType, h, rd, body)], h.addr) == [d]
  {
    var f := PerPeer(msgType, h, rd, body);
    ConsumeEncoded(p, msgType, h, rd, body);
    BodyAgrees(p, msgType, h, body);
    LoggedForCons(p, [f], h.addr);
    assert [f][1..] == [];
  }

  /** One line more for an address that can be written, with the given content. */
  ghost predicate OneMore(env: Env, p: Parsers, host: string, log: State, ip: Address, chunks: seq<bytes>,
                          code: nat, content: Body, tail: (nat, nat)) {
    var before := RecordsFor(log.journal, ip);
    var after := RecordsFor(ReceiveAll(env, p, host, Session(START, log), chunks).log.journal, ip);
    var next := NextSeq(env, log, host, ip);
    if next.None? then after == before
    else
      && |after| == |before| + 1
      && after == before + [Record(after[|before|].time, next.value, code, content, tail)]
  }

  lemma {:induction false} ExtendsByOne(before: seq<Record>, after: seq<Record>, d: Decoded, n: int)
    requires Logged(d) && Extends(before, after, [d], Some(n))
    ensures |after| == |before| + 1 && after == before + [RecordOf(d, after[|before|].time, n)]
  {
    assert after[|before| + 0] == RecordOf([d][0], after[|before| + 0].time, n + 0);
  }

  /** A BGP UPDATE that parses is one line of code 130 with the parsed route. */
  lemma {:induction false} UpdateIsLogged(env: Env, p: Parsers, host: string, log: State, h: PeerHeader, rd: bytes,
                                          marker: bytes, update: bytes, chunks: seq<bytes>)
    requires Representable(h, rd) && OwnFiles(log) && |marker| == HDR_LEN - 1
    requires p.update(update).Ok? && !p.update(update).value.subError
    requires Delivers(chunks, PerPeer(0, h, rd, marker + [2] + update))
    ensures var u := p.update(update).value;
      OneMore(env, p, host, log, h.addr, chunks, 130, RouteBody(Some(UpdateRoute(u.attr, u.nlri, u.withdraw))), (1, 1))
  {
    var body := marker + [2] + update;
    RouteMonitoringExactly(p, marker, 2, update);
    var d := RouteMonitoring(h, ParseRouteMonitoring(p, body).value);
    MessageIsLogged(env, p, host, log, 0, h, rd, body, d, chunks);
    LoggedLine(env, p, host, log, d, chunks);
  }

  /** A ROUTE-REFRESH is one line of code 130 with its three fields. */
  lemma {:induction false} RefreshIsLogged(env: Env, p: Parsers, host: string, log: State, h: PeerHeader, rd: bytes,
                                           marker: bytes, refresh: bytes, chunks: seq<bytes>)
    requires Representable(h, rd) && OwnFiles(log) && |marker| == 18
    requires p.refresh(refresh).Ok?
    requires Delivers(chunks, PerPeer(0, h, rd, marker + [5] + refresh))
    ensures var r := p.refresh(refresh).value;
      OneMore(env, p, host, log, h.addr, chunks, 130, RouteBody(Some(RefreshRoute(r.afi, r.res, r.safi))), (1, 1))
  {
    var body := marker + [5] + refresh;
    RouteMonitoringExactly(p, marker, 5, refresh);
    var d := RouteMonitoring(h, ParseRouteMonitoring(p, body).value);
    MessageIsLogged(env, p, host, log, 0, h, rd, body, d, chunks);
    LoggedLine(env, p, host, log, d, chunks);
  }

  /** An update in error, or any other BGP message, is one line of code 130 without a
      route. */
  lemma {:induction false} NoRouteIsLogged(env: Env, p: Parsers, host: string, log: State, h: PeerHeader, rd: bytes,
                                           marker: bytes, inner: byte, rest: bytes, chunks: seq<bytes>)
    requires Representable(h, rd) && OwnFiles(log) && |marker| == 18
    requires inner != 5 && (inner == 2 ==> p.update(rest).Ok? && p.update(rest).value.subError)
    requires Delivers(chunks, PerPeer(0, h, rd, marker + [inner] + rest))
    ensures OneMore(env, p, host, log, h.addr, chunks, 130, RouteBody(None), (1, 1))
  {
    var body := marker + [inner] + rest;
    RouteMonitoringExactly(p, marker, inner, rest);
    var d := RouteMonitoring(h, None);
    MessageIsLogged(env, p, host, log, 0, h, rd, body, d, chunks);
    LoggedLine(env, p, host, log, d, chunks);
  }

  // ---- what leaves the log alone ----

  lemma {:induction false} SilentAlone(env: Env, p: Parsers, host: string, log: State, f: Frame, chunks: seq<bytes>)
    requires Delivers(chunks, f) && Silent(p, f)
    ensures ReceiveAll(env, p, host, Session(START, log), chunks).log == log
  {
    EncodeOne(f);
    EncodedSession(env, p, host, log, [f], chunks);
    OfferAllCons(env, p, host, log, [f]);
    assert [f][1..] == [];
  }

  /** Initiation, termination and route mirroring write nothing, whatever they hold. */
  lemma {:induction false} OtherTypesLogNothing(env: Env, p: Parsers, host: string, log: State, f: Frame,
                                                chunks: seq<bytes>)
    requires Delivers(chunks, f) && 4 <= f.msgType <= 6
    ensures ReceiveAll(env, p, host, Session(START, log), chunks).log == log
  {
    if ConsumeOutcome(p, f.msgType, f.body).Results? {
      ConsumeAgrees(p, f.msgType, f.body);
    }
    SilentAlone(env, p, host, log, f, chunks);
  }

  /** The least body, behind the per-peer header, that can decode. */
  function LeastBody(msgType: byte): nat {
    if msgType == 0 then 19 else if msgType == 3 then 38 else 1
  }

  lemma {:induction false} ShortBodyFails(p: Parsers, msgType: byte, h: PeerHeader, body: bytes)
    requires msgType <= 3 && |body| < LeastBody(msgType)
    ensures ParseBody(p, msgType, h, body).Raise?
  {
    if msgType == 0 {
      RouteMonitoringExactly(p, seq(HDR_LEN - 1, _ => 0), 0, []);
    } else if msgType == 1 {
      Statistics.ReportSucceedsExactly(body);
    } else if msgType == 2 {
      PeerDownExactly(p, 0, []);
      assert body == [];
    } else {
      PeerUpExactly(p, body, h.flags);
    }
  }

  /** A message of types 0 to 3 that is cut short in its per-peer header or in the fixed
      part of its body writes nothing. */
  lemma {:induction false} CutShortLogsNothing(env: Env, p: Parsers, host: string, log: State, msgType: byte,
                                               raw: bytes, chunks: seq<bytes>)
    requires msgType <= 3 && |raw| < 42 + LeastBody(msgType) && Delivers(chunks, Frame(msgType, raw))
    ensures ReceiveAll(env, p, host, Session(START, log), chunks).log == log
  {
    var header := ParsePerPeerHeader(Slice(raw, 0, 42));
    if header.Ok? {
      ShortBodyFails(p, msgType, header.value, From(raw, 42));
    }
    SilentAlone(env, p, host, log, Frame(msgType, raw), chunks);
  }

  /** A BGP message inside that its parser rejects, or a reason for a Peer Down that is
      not 1 to 4. */
  predicate Rejects(p: Parsers, msgType: byte, body: bytes) {
    || (msgType == 0 && |body| >= 19 && body[18] == 2 && p.update(body[19..]).Raise?)
    || (msgType == 0 && |body| >= 19 && body[18] == 5 && p.refresh(body[19..]).Raise?)
    || (msgType == 2 && body != [] && body[0] == 1 && p.notification(body[1..]).Raise?)
    || (msgType == 2 && body != [] && body[0] !in [1, 2, 3, 4])
    || (msgType == 3 && |body| >= 38 && p.open(Slice(body, 39, 20 + Be(body[36..38]))).Raise?)
    || (msgType == 3 && |body| >= 38 && p.open(From(body, 39 + Be(body[36..38]))).Raise?)
  }

  lemma {:induction false} RejectedRoute(p: Parsers, body: bytes)
    requires Rejects(p, 0, body)
    ensures ParseRouteMonitoring(p, body).Raise?
  {
    assert body == body[..18] + [body[18]] + body[19..];
    RouteMonitoringExactly(p, body[..18], body[18], body[19..]);
  }

  lemma {:induction false} RejectedReason(p: Parsers, body: bytes)
    requires Rejects(p, 2, body)
    ensures ParsePeerDown(p, body).Raise?
  {
    assert body == [body[0]] + body[1..];
    PeerDownExactly(p, body[0], body[1..]);
  }

  lemma {:induction false} RejectedBodyFails(p: Parsers, msgType: byte, h: PeerHeader, body: bytes)
    requires msgType <= 3 && Rejects(p, msgType, body)
    ensures ParseBody(p, msgType, h, body).Raise?
  {
    if msgType == 0 {
      RejectedRoute(p, body);
    } else if msgType == 2 {
      RejectedReason(p, body);
    } else {
      PeerUpExactly(p, body, h.flags);
    }
  }

  lemma {:induction false} RejectedLogsNothing(env: Env, p: Parsers, host: string, log: State, msgType: byte,
                                               raw: bytes, chunks: seq<bytes>)
    requires msgType <= 3 && Rejects(p, msgType, From(raw, 42)) && Delivers(chunks, Frame(msgType, raw))
    ensures ReceiveAll(env, p, host, Session(START, log), chunks).log == log
  {
    var header := ParsePerPeerHeader(Slice(raw, 0, 42));
    if header.Ok? {
      RejectedBodyFails(p, msgType, header.value, From(raw, 42));
    }
    SilentAlone(env, p, host, log, Frame(msgType, raw), chunks);
  }

  /** Encoded route mirroring decodes to the lists of its messages; one TLV that raises
      makes the result None. */
  lemma {:induction false} MirroringIsDecoded(p: Parsers, h: PeerHeader, rd: bytes, ts: seq<Tlv.Tlv>)
    requires Representable(h, rd) && forall t :: t in ts ==> Tlv.Encodable(t)
    ensures var o := ConsumeOutcome(p, 6, PerPeer(6, h, rd, Tlv.EncodeTlvs(ts)).body);
      if forall t :: t in ts ==> Mirroring.Acceptable(p, t) then
        && o.Results? && o.decoded.RouteMirroring? && o.decoded.header == h
        && Mirroring.Describes(o.decoded.mirrored, Mirroring.Sorted(p, ts), ts)
      else o == Nothing
  {
    ConsumeEncoded(p, 6, h, rd, Tlv.EncodeTlvs(ts));
    Tlv.CutEncoded(ts, []);
    assert Tlv.EncodeTlvs(ts) + [] == Tlv.EncodeTlvs(ts) && ts + [] == ts;
    if forall t :: t in ts ==> Mirroring.Acceptable(p, t) {
      Mirroring.MirrorRoundTrip(p, ts);
    }
  }

  // ---- the other logged types ----

  /** Encoded counters are one line of code 129 with the last value of each type. */
  lemma {:induction false} CountersAreLogged(env: Env, p: Parsers, host: string, log: State, h: PeerHeader, rd: bytes,
                                             ts: seq<Tlv.Tlv>, trailing: bytes, chunks: seq<bytes>)
    returns (counters: Statistics.Counters)
    requires Representable(h, rd) && OwnFiles(log) && |ts| < 0x1_0000_0000
    requires forall t :: t in ts ==> Tlv.Encodable(t) && t.value != []
    requires Delivers(chunks, PerPeer(1, h, rd, Encode(|ts|, 4) + (Tlv.EncodeTlvs(ts) + trailing)))
    ensures Statistics.HoldsLast(counters, ts)
    ensures OneMore(env, p, host, log, h.addr, chunks, 129, CountersBody(counters), (0, 0))
  {
    var body := Encode(|ts|, 4) + (Tlv.EncodeTlvs(ts) + trailing);
    Statistics.ReportRoundTrip(ts, trailing);
    counters := Statistics.Report(body).value;
    var d := StatisticsReport(h, counters);
    MessageIsLogged(env, p, host, log, 1, h, rd, body, d, chunks);
    LoggedLine(env, p, host, log, d, chunks);
  }

  /** A Peer Down with a known reason is one line of code 3 with that reason. */
  lemma {:induction false} PeerDownIsLogged(env: Env, p: Parsers, host: string, log: State, h: PeerHeader, rd: bytes,
                                            reason: byte, data: bytes, chunks: seq<bytes>)
    requires Representable(h, rd) && OwnFiles(log)
    requires (reason == 1 && p.notification(data).Ok?) || reason in [2, 3, 4]
    requires Delivers(chunks, PerPeer(2, h, rd, [reason] + data))
    ensures OneMore(env, p, host, log, h.addr, chunks, 3, ReasonBody(reason), (0, 0))
  {
    PeerDownExactly(p, reason, data);
    var d := PeerDown(h, reason);
    MessageIsLogged(env, p, host, log, 2, h, rd, [reason] + data, d, chunks);
    LoggedLine(env, p, host, log, d, chunks);
  }

  /** A Peer Up with two OPEN messages that parse is one line of code 1 with the
      received one. */
  lemma {:induction false} PeerUpIsLogged(env: Env, p: Parsers, host: string, log: State, h: PeerHeader, rd: bytes,
                                          addr: nat, localPort: nat, remotePort: nat,
                                          sent: bytes, received: bytes, chunks: seq<bytes>)
    requires Representable(h, rd) && OwnFiles(log)
    requires addr < if h.flags.v == '1' then Pow256(16) else Pow256(4)
    requires localPort < 0x1_0000 && remotePort < 0x1_0000
    requires SizedPdu(sent) && p.open(From(sent, HDR_LEN)).Ok? && p.open(From(received, HDR_LEN)).Ok?
    requires Delivers(chunks, PerPeer(3, h, rd,
               Encode(addr, 16) + Encode(localPort, 2) + Encode(remotePort, 2) + (sent + received)))
    ensures OneMore(env, p, host, log, h.addr, chunks, 1, OpenBody(p.open(From(received, HDR_LEN)).value), (0, 0))
  {
    var body := Encode(addr, 16) + Encode(localPort, 2) + Encode(remotePort, 2) + (sent + received);
    PeerUpSplit(p, h.flags, addr, localPort, remotePort, sent, received);
    var d := PeerIsUp(h, ParsePeerUp(p, body, h.flags).value);
    MessageIsLogged(env, p, host, log, 3, h, rd, body, d, chunks);
    LoggedLine(env, p, host, log, d, chunks);
  }

  lemma {:induction false} LoggedLine(env: Env, p: Parsers, host: string, log: State, d: Decoded, chunks: seq<bytes>)
    requires Logged(d)
    requires var t := ReceiveAll(env, p, host, Session(START, log), chunks).log; var ip := d.header.addr;
      Extends(RecordsFor(log.journal, ip), RecordsFor(t.journal, ip), [d], NextSeq(env, log, host, ip))
    ensures var r := RecordOf(d, "", 0); OneMore(env, p, host, log, d.header.addr, chunks, r.code, r.body, r.tail)
  {
    var ip := d.header.addr;
    var t := ReceiveAll(env, p, host, Session(START, log), chunks).log;
    var next := NextSeq(env, log, host, ip);
    if next.Some? {
      ExtendsByOne(RecordsFor(log.journal, ip), RecordsFor(t.journal, ip), d, next.value);
    }
  }
}
