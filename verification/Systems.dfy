/** The whole system: any number of connections, their bytes in any pieces and any
    interleaving, and restarts, over one handler. */
module Systems {
  import opened Bytes
  import opened Bgp
  import opened LogFile
  import opened Framing
  import opened PeerHeader
  import opened Message
  import opened Handler
  import opened Receiver
  import opened EndToEnd
  import opened Numbering
  import opened Continuation
  import Runs
  import Wire

  /** Connections, each from a host with its own session, over one handler. */
  datatype System = System(connections: map<nat, (string, Drained)>, log: State)

  datatype SystemEvent =
    | Connected(id: nat, host: string)
    | Data(id: nat, chunk: bytes)
    | Lost(id: nat)
    | ProcessRestart

  function SystemStep(env: Env, p: Parsers, s: System, e: SystemEvent): System {
    match e
    case Connected(id, host) => s.(connections := s.connections[id := (host, START)])
    case Data(id, chunk) =>
      if id !in s.connections then s
      else
        var (host, framing) := s.connections[id];
        var session := Receive(env, p, host, Session(framing, s.log), chunk);
        System(s.connections[id := (host, session.framing)], session.log)
    case Lost(id) => s.(connections := s.connections - {id})
    case ProcessRestart => System(map[], s.log.(peers := map[]))
  }

  /** The system after a history that began without connections, on this log. */
  function SystemRun(env: Env, p: Parsers, start: State, es: seq<SystemEvent>): System {
    if es == [] then System(map[], start)
    else SystemStep(env, p, SystemRun(env, p, start, es[..|es| - 1]), es[|es| - 1])
  }

  /** A connection starts empty, whatever was under its number; a lost one is gone and
      bytes under its number are ignored; a restart keeps the disk and the history,
      and forgets connections and peers. Nothing of this touches another connection. */
  lemma {:induction false} LifecycleExactly(env: Env, p: Parsers, s: System, id: nat, host: string, chunk: bytes)
    ensures SystemStep(env, p, s, Connected(id, host))
         == System(s.connections[id := (host, Drained([], [], Waiting))], s.log)
    ensures var lost := SystemStep(env, p, s, Lost(id));
      && id !in lost.connections && lost.log == s.log
      && (forall i :: i in s.connections && i != id ==>
            i in lost.connections && lost.connections[i] == s.connections[i])
      && SystemStep(env, p, lost, Data(id, chunk)) == lost
    ensures var t := SystemStep(env, p, s, ProcessRestart);
      t.connections == map[] && t.log == State(map[], s.log.disk, s.log.ticks, s.log.journal)
  {
  }

  // ---- the messages a history of bytes amounts to ----

  /** A connection by its host and all bytes it delivered. */
  datatype Link = Link(host: string, stream: bytes)

  function Links(es: seq<SystemEvent>): map<nat, Link> {
    if es == [] then map[]
    else
      var links := Links(es[..|es| - 1]);
      match es[|es| - 1]
      case Connected(id, host) => links[id := Link(host, [])]
      case Data(id, chunk) =>
        if id in links then links[id := Link(links[id].host, links[id].stream + chunk)] else links
      case Lost(id) => links - {id}
      case ProcessRestart => map[]
  }

  /** The frames that a chunk completes behind a stream. */
  function Completed(stream: bytes, chunk: bytes): seq<Frame> {
    Frames(Drain(Drain(stream).rest + chunk).cuts)
  }

  function Arrivals(p: Parsers, host: string, fs: seq<Frame>): seq<Runs.Event> {
    if fs == [] then []
    else
      var rest := Arrivals(p, host, fs[1..]);
      match ConsumeOutcome(p, fs[0].msgType, fs[0].body)
      case Results(d) => [Runs.Arrival(host, d)] + rest
      case _ => rest
  }

  /** What reaches the handler: the decoded messages of every completed frame, and the
      restarts. It depends on bytes and hosts alone. */
  function EventsOf(p: Parsers, es: seq<SystemEvent>): seq<Runs.Event> {
    if es == [] then []
    else
      var front, links := EventsOf(p, es[..|es| - 1]), Links(es[..|es| - 1]);
      match es[|es| - 1]
      case Data(id, chunk) =>
        if id in links then front + Arrivals(p, links[id].host, Completed(links[id].stream, chunk)) else front
      case ProcessRestart => front + [Runs.Restart]
      case _ => front
  }

  // ---- a system history is a run ----

  lemma {:induction false} RunConcat(env: Env, s: State, a: seq<Runs.Event>, b: seq<Runs.Event>)
    ensures Runs.Run(env, s, a + b) == Runs.Run(env, Runs.Run(env, s, a), b)
    decreases |b|
  {
    if b == [] {
      assert a + b == a;
    } else {
      var front, e := b[..|b| - 1], b[|b| - 1];
      assert a + b == (a + front) + [e] && b == front + [e];
      RunConcat(env, s, a, front);
      Runs.RunAppend(env, s, a + front, e);
      Runs.RunAppend(env, Runs.Run(env, s, a), front, e);
    }
  }

  lemma {:induction false} RunCons(env: Env, s: State, e: Runs.Event, es: seq<Runs.Event>)
    ensures Runs.Run(env, s, [e] + es) == Runs.Run(env, Runs.Step(env, s, e), es)
  {
    RunConcat(env, s, [e], es);
    assert [e][..0] == [];
    assert Runs.Run(env, s, []) == s;
  }

  lemma {:induction false} FramesAreRun(env: Env, p: Parsers, host: string, s: State, fs: seq<Frame>)
    ensures OfferAll(App(env, p, host), s, fs) == Runs.Run(env, s, Arrivals(p, host, fs))
    decreases |fs|
  {
    if fs != [] {
      var mid := OfferFrame(env, p, host, s, fs[0]);
      OfferAllCons(env, p, host, s, fs);
      FramesAreRun(env, p, host, mid, fs[1..]);
      var o := ConsumeOutcome(p, fs[0].msgType, fs[0].body);
      if o.Results? {
        RunCons(env, s, Runs.Arrival(host, o.decoded), Arrivals(p, host, fs[1..]));
      }
    }
  }

  /** Every session is where one reception of its whole stream would have left it. */
  predicate SessionsMatch(connections: map<nat, (string, Drained)>, links: map<nat, Link>) {
    && connections.Keys == links.Keys
    && forall id :: id in links ==> connections[id] == (links[id].host, Drain(links[id].stream))
  }

  lemma {:induction false} SessionsFollowStreams(env: Env, p: Parsers, start: State, es: seq<SystemEvent>)
    ensures SessionsMatch(SystemRun(env, p, start, es).connections, Links(es))
  {
    if es != [] {
      var front, e := es[..|es| - 1], es[|es| - 1];
      SessionsFollowStreams(env, p, start, front);
      if e.Data? && e.id in Links(front) {
        DrainSplit(Links(front)[e.id].stream, e.chunk);
      }
    }
  }

  /** What the system does to the log is the run of the messages its bytes decode to
      and of its restarts. */
  lemma {:induction false} SystemIsRun(env: Env, p: Parsers, start: State, es: seq<SystemEvent>)
    ensures SystemRun(env, p, start, es).log == Runs.Run(env, start, EventsOf(p, es))
  {
    if es != [] {
      var front, e := es[..|es| - 1], es[|es| - 1];
      SystemIsRun(env, p, start, front);
      SessionsFollowStreams(env, p, start, front);
      var s, links, events := SystemRun(env, p, start, front), Links(front), EventsOf(p, front);
      match e {
        case Data(id, chunk) =>
          if id in links {
            var fs := Completed(links[id].stream, chunk);
            FramesAreRun(env, p, links[id].host, s.log, fs);
            RunConcat(env, start, events, Arrivals(p, links[id].host, fs));
          }
        case ProcessRestart =>
          Runs.RunAppend(env, start, events, Runs.Restart);
        case _ =>
      }
    }
  }

  lemma {:induction false} ArrivalsAreReceivable(p: Parsers, host: string, fs: seq<Frame>)
    requires forall f :: f in fs ==> Encodable(f)
    ensures AllReceivable(p, Arrivals(p, host, fs))
    decreases |fs|
  {
    if fs != [] {
      ArrivalsAreReceivable(p, host, fs[1..]);
      var o := ConsumeOutcome(p, fs[0].msgType, fs[0].body);
      if o.Results? {
        assert Encodable(fs[0]);
        assert Receivable(p, o.decoded);
      }
    }
  }

  lemma {:induction false} FramesInCuts(cuts: seq<Cut>)
    requires forall c :: c in cuts ==> Encodable(c.frame)
    ensures forall f :: f in Frames(cuts) ==> Encodable(f)
  {
    if cuts != [] {
      FramesInCuts(cuts[1..]);
    }
  }

  lemma {:induction false} EventsAreReceivable(p: Parsers, es: seq<SystemEvent>)
    ensures AllReceivable(p, EventsOf(p, es))
  {
    if es != [] {
      var front, e := es[..|es| - 1], es[|es| - 1];
      EventsAreReceivable(p, front);
      if e.Data? && e.id in Links(front) {
        var link := Links(front)[e.id];
        var buf := Drain(link.stream).rest + e.chunk;
        CutFramesAreEncodable(buf);
        FramesInCuts(Drain(buf).cuts);
        ArrivalsAreReceivable(p, link.host, Frames(Drain(buf).cuts));
      }
    }
  }

  /** Any connections, any bytes in any pieces, any interleaving, any restarts, from
      an empty write directory: every message the bytes decode to and that is to be
      logged has its line, in order of arrival, and no other line exists; the files
      on disk are made of exactly these lines. */
  lemma {:induction false} SystemLosesNothing(env: Env, p: Parsers, es: seq<SystemEvent>)
    ensures var s, sent := SystemRun(env, p, Runs.FRESH, es).log, Runs.LoggedArrivals(EventsOf(p, es));
      && |s.journal| == |sent|
      && (forall i :: 0 <= i < |sent| ==> Runs.LineFor(s.journal[i], sent[i]))
      && Runs.Consistent(env, s)
  {
    SystemIsRun(env, p, Runs.FRESH, es);
    Runs.NothingIsLost(env, EventsOf(p, es));
    Runs.RunsAreConsistent(env, EventsOf(p, es));
  }

  /** The same histories: if every line written evaluates back to its number, every
      file on disk reads back as lines numbered 1, 2, ..., n, and every peer in memory
      goes on with the next number; if the lines have no breaks, only if. */
  lemma {:induction false} SystemFilesAreNumbered(env: Env, p: Parsers, es: seq<SystemEvent>)
    ensures var s := SystemRun(env, p, Runs.FRESH, es).log;
      && (GoodLines(env, s) ==> DiskNumbered(env, s))
      && (SingleLines(env, s) && DiskNumbered(env, s) ==> GoodLines(env, s))
  {
    SystemIsRun(env, p, Runs.FRESH, es);
    var s := SystemRun(env, p, Runs.FRESH, es).log;
    if GoodLines(env, s) {
      FilesAreNumbered(env, EventsOf(p, es));
    }
    if SingleLines(env, s) {
      FilesNumberedExactly(env, EventsOf(p, es));
    }
  }

  // ---- on any disk ----

  /** From any log, for any str, eval and clock: in a directory that is new or has a
      latest file with something in it, the latest file grows by exactly the lines the
      bytes lead to there; all other files stay. In step, it stays numbered exactly if
      these lines are good. */
  lemma {:induction false} SystemContinues(env: Env, p: Parsers, start: State, es: seq<SystemEvent>, dir: Path)
    requires Runs.OwnFiles(start) && Followed(start, dir)
    ensures var t := SystemRun(env, p, start, es).log;
      && Grew(env, start, t, dir)
      && (InStep(env, start, dir) && Single(env, Added(start, t, dir)) ==>
            (Numbered(env, LatestContent(t, dir)) <==> Good(env, Added(start, t, dir))))
  {
    SystemIsRun(env, p, start, es);
    RunsGrowLatest(env, start, EventsOf(p, es), dir);
    if InStep(env, start, dir) && Single(env, Added(start, SystemRun(env, p, start, es).log, dir)) {
      RunsContinueExactly(env, start, EventsOf(p, es), dir);
    }
  }

  // ---- the condition is exact, down to the bytes ----

  lemma {:induction false} OneFrameArrives(env: Env, p: Parsers, start: State, es: seq<SystemEvent>,
                                           host: string, f: Frame, d: Decoded)
    requires Encodable(f) && ConsumeOutcome(p, f.msgType, f.body) == Results(d)
    ensures SystemRun(env, p, start, es + [Connected(0, host), Data(0, EncodeFrame(f))]).log
         == OnMessage(env, SystemRun(env, p, start, es).log, host, d)
  {
    var x, y := es + [Connected(0, host)], es + [Connected(0, host), Data(0, EncodeFrame(f))];
    assert x[..|es|] == es && y[..|x|] == x;
    var s := SystemRun(env, p, start, x);
    assert s.connections[0] == (host, START) && s.log == SystemRun(env, p, start, es).log;
    FrameAlone(f);
    assert START.rest + EncodeFrame(f) == EncodeFrame(f);
    assert Frames([Cut(f, EncodeFrame(f))]) == [f] && [f][1..] == [];
    OfferAllCons(env, p, host, s.log, [f]);
  }

  lemma FrameAlone(f: Frame)
    requires Encodable(f)
    ensures Drain(EncodeFrame(f)) == Drained([Cut(f, EncodeFrame(f))], [], Waiting)
  {
    DrainEncodedOne(f, []);
    assert EncodeFrame(f) + [] == EncodeFrame(f);
  }

  /** Every run of messages that can be received is what some bytes do. */
  lemma {:induction false} RunIsSystem(env: Env, p: Parsers, start: State, es: seq<Runs.Event>)
    returns (ses: seq<SystemEvent>)
    requires AllReceivable(p, es)
    ensures SystemRun(env, p, start, ses).log == Runs.Run(env, start, es)
  {
    if es == [] {
      ses := [];
    } else {
      var front, e := es[..|es| - 1], es[|es| - 1];
      var before := RunIsSystem(env, p, start, front);
      assert e in es;
      match e {
        case Arrival(host, d) =>
          var f: Frame :| Encodable(f) && ConsumeOutcome(p, f.msgType, f.body) == Results(d);
          OneFrameArrives(env, p, start, before, host, f, d);
          ses := before + [Connected(0, host), Data(0, EncodeFrame(f))];
        case Restart =>
          ses := before + [ProcessRestart];
          assert ses[..|before|] == before;
      }
    }
  }

  /** For any set of times: given single lines, all system histories are numbered under
      every clock that shows these times, if and only if every line that bytes can
      cause to be written at them evaluates back to its number. */
  lemma {:induction false} SystemNumberedExactly(p: Parsers, times: iset<string>, str: Record -> bytes,
                                                 eval: bytes -> Option<int>)
    requires SingleLine(p, times, str)
    ensures (forall clock: nat -> string, es :: Shows(clock, times) ==>
               AllNumbered(SystemRun(Env(str, eval, clock), p, Runs.FRESH, es).log))
            <==> EvaluatesBack(p, times, str, eval)
  {
    if EvaluatesBack(p, times, str, eval) {
      forall clock: nat -> string, es | Shows(clock, times)
        ensures AllNumbered(SystemRun(Env(str, eval, clock), p, Runs.FRESH, es).log)
      {
        SystemIsRun(Env(str, eval, clock), p, Runs.FRESH, es);
        EventsAreReceivable(p, es);
        ReceivableRunsAreNumbered(Env(str, eval, clock), p, times, EventsOf(p, es));
      }
    } else {
      var r :| Producible(p, times, r) && eval(str(r) + [NEWLINE]) != Some(r.seqNo);
      var env, es := BadLineBreaksNumbering(p, times, str, eval, r);
      var ses := RunIsSystem(env, p, Runs.FRESH, es);
      assert env == Env(str, eval, env.clock);
    }
  }

  /** For any parsers there are bytes that misfile a line: two hosts send the same Peer
      Down message, and the second host's line lands in the first host's directory. */
  lemma {:induction false} BytesMisfile(env: Env, p: Parsers) returns (ses: seq<SystemEvent>)
    ensures !Runs.InOwnDirectory(SystemRun(env, p, Runs.FRESH, ses).log.journal)
  {
    var d := AlwaysReceivable(p);
    var es := [Runs.Arrival("a", d), Runs.Arrival("b", d)];
    Runs.SharedAddressMisfiles(env, d);
    ses := RunIsSystem(env, p, Runs.FRESH, es);
  }

  lemma {:induction false} AlwaysReceivable(p: Parsers) returns (d: Decoded)
    ensures Receivable(p, d) && Logged(d)
  {
    var h := PeerHeader(0, Flags('0', '0', '0'), None, Address(4, 0), 0, Address(4, 0), (0, 0));
    var rd: bytes := [0, 0, 0, 0, 0, 0, 0, 0];
    assert Representable(h, rd);
    d := PeerDown(h, 2);
    PeerDownReceived(p, h, rd);
  }

  lemma {:induction false} PeerDownReceived(p: Parsers, h: PeerHeader, rd: bytes)
    requires Representable(h, rd)
    ensures Receivable(p, PeerDown(h, 2))
  {
    var body: bytes := [2];
    var f := Wire.PerPeer(2, h, rd, body);
    Wire.ConsumeEncoded(p, 2, h, rd, body);
    PeerDownExactly(p, 2, []);
    assert body + [] == body;
    EncodeSlices(h, rd);
    assert Encodable(f) && ConsumeOutcome(p, f.msgType, f.body) == Results(PeerDown(h, 2));
  }

  // ---- one address, one connection ----

  /** The byte streams of the successive sessions under a connection number. */
  function SessionsOf(es: seq<SystemEvent>, id: nat): seq<bytes> {
    if es == [] then []
    else
      var front, streams := es[..|es| - 1], SessionsOf(es[..|es| - 1], id);
      match es[|es| - 1]
      case Connected(i, _) => if i == id then streams + [[]] else streams
      case Data(i, chunk) =>
        if i == id && id in Links(front) && streams != []
        then streams[..|streams| - 1] + [streams[|streams| - 1] + chunk] else streams
      case _ => streams
  }

  /** The messages logged for an address when each stream is received on its own. */
  function LoggedOn(p: Parsers, streams: seq<bytes>, ip: Address): seq<Decoded> {
    if streams == [] then []
    else
      LoggedOn(p, streams[..|streams| - 1], ip) +
      LoggedFor(p, Frames(Drain(streams[|streams| - 1]).cuts), ip)
  }

  /** No other connection reports the address. */
  predicate OnlyOn(p: Parsers, es: seq<SystemEvent>, id: nat, ip: Address) {
    es == [] ||
    (&& OnlyOn(p, es[..|es| - 1], id, ip)
     && match es[|es| - 1]
        case Data(i, chunk) =>
          var links := Links(es[..|es| - 1]);
          i != id && i in links ==> LoggedFor(p, Completed(links[i].stream, chunk), ip) == []
        case _ => true)
  }

  /** The messages of a run that are logged for an address. */
  function DecodedFor(es: seq<Runs.Event>, ip: Address): (ds: seq<Decoded>)
    ensures forall d :: d in ds ==> Logged(d)
  {
    if es == [] then []
    else
      var front, e := DecodedFor(es[..|es| - 1], ip), es[|es| - 1];
      if e.Arrival? && Logged(e.d) && e.d.header.addr == ip then front + [e.d] else front
  }

  lemma {:induction false} DecodedForConcat(a: seq<Runs.Event>, b: seq<Runs.Event>, ip: Address)
    ensures DecodedFor(a + b, ip) == DecodedFor(a, ip) + DecodedFor(b, ip)
    decreases |b|
  {
    if b == [] {
      assert a + b == a;
    } else {
      var front, e := b[..|b| - 1], b[|b| - 1];
      assert (a + b)[..|a + b| - 1] == a + front;
      DecodedForConcat(a, front, ip);
    }
  }

  lemma {:induction false} DecodedForOne(e: Runs.Event, ip: Address)
    ensures DecodedFor([e], ip) == if e.Arrival? && Logged(e.d) && e.d.header.addr == ip then [e.d] else []
  {
    assert [e][..0] == [];
  }

  lemma {:induction false} DecodedForArrivals(p: Parsers, host: string, fs: seq<Frame>, ip: Address)
    ensures DecodedFor(Arrivals(p, host, fs), ip) == LoggedFor(p, fs, ip)
    decreases |fs|
  {
    if fs != [] {
      DecodedForArrivals(p, host, fs[1..], ip);
      LoggedForCons(p, fs, ip);
      var o := ConsumeOutcome(p, fs[0].msgType, fs[0].body);
      if o.Results? {
        DecodedForConcat([Runs.Arrival(host, o.decoded)], Arrivals(p, host, fs[1..]), ip);
        DecodedForOne(Runs.Arrival(host, o.decoded), ip);
      }
    }
  }

  lemma {:induction false} StreamGrows(p: Parsers, stream: bytes, chunk: bytes, ip: Address)
    ensures LoggedFor(p, Frames(Drain(stream + chunk).cuts), ip)
         == LoggedFor(p, Frames(Drain(stream).cuts), ip) + LoggedFor(p, Completed(stream, chunk), ip)
  {
    DrainSplit(stream, chunk);
    FramesConcat(Drain(stream).cuts, Drain(Drain(stream).rest + chunk).cuts);
    FlatMapConcat(Logger(p, ip), Frames(Drain(stream).cuts), Completed(stream, chunk));
  }

  lemma {:induction false} LoggedOnNew(p: Parsers, streams: seq<bytes>, ip: Address)
    ensures LoggedOn(p, streams + [[]], ip) == LoggedOn(p, streams, ip)
  {
    assert (streams + [[]])[..|streams|] == streams;
    assert Drain([]).cuts == [];
  }

  lemma {:induction false} LoggedOnMore(p: Parsers, streams: seq<bytes>, chunk: bytes, ip: Address)
    requires streams != []
    ensures var front, last := streams[..|streams| - 1], streams[|streams| - 1];
      LoggedOn(p, front + [last + chunk], ip) == LoggedOn(p, streams, ip) + LoggedFor(p, Completed(last, chunk), ip)
  {
    var front, last := streams[..|streams| - 1], streams[|streams| - 1];
    StreamGrows(p, last, chunk, ip);
    assert (front + [last + chunk])[..|front|] == front;
  }

  lemma {:induction false} LinkIsLastSession(es: seq<SystemEvent>, id: nat)
    ensures id in Links(es) ==>
              var streams := SessionsOf(es, id); streams != [] && streams[|streams| - 1] == Links(es)[id].stream
  {
    if es != [] {
      LinkIsLastSession(es[..|es| - 1], id);
    }
  }

  lemma {:induction false} AddressFollowsStreams(p: Parsers, es: seq<SystemEvent>, id: nat, ip: Address)
    requires OnlyOn(p, es, id, ip)
    ensures DecodedFor(EventsOf(p, es), ip) == LoggedOn(p, SessionsOf(es, id), ip)
  {
    if es != [] {
      var front, e := es[..|es| - 1], es[|es| - 1];
      AddressFollowsStreams(p, front, id, ip);
      var links, events := Links(front), EventsOf(p, front);
      match e {
        case Connected(i, _) =>
          LoggedOnNew(p, SessionsOf(front, id), ip);
        case Data(i, chunk) =>
          if i in links {
            var fs := Completed(links[i].stream, chunk);
            DecodedForConcat(events, Arrivals(p, links[i].host, fs), ip);
            DecodedForArrivals(p, links[i].host, fs, ip);
            if i == id {
              LinkIsLastSession(front, id);
              LoggedOnMore(p, SessionsOf(front, id), chunk, ip);
            }
          }
        case ProcessRestart =>
          DecodedForConcat(events, [Runs.Restart], ip);
          DecodedForOne(Runs.Restart, ip);
        case _ =>
      }
    }
  }

  /** One record per message, in order, whatever times and numbers. */
  predicate RecordsMatch(rs: seq<Record>, ds: seq<Decoded>) {
    |rs| == |ds| && forall i :: 0 <= i < |ds| ==> Logged(ds[i]) && rs[i] == RecordOf(ds[i], rs[i].time, rs[i].seqNo)
  }

  lemma {:induction false} RecordsOfRun(env: Env, es: seq<Runs.Event>, ip: Address)
    ensures RecordsMatch(Runs.RecordsFor(Runs.Run(env, Runs.FRESH, es).journal, ip), DecodedFor(es, ip))
  {
    if es != [] {
      var front, e := es[..|es| - 1], es[|es| - 1];
      RecordsOfRun(env, front, ip);
      Runs.RunsAreConsistent(env, front);
      var s, t := Runs.Run(env, Runs.FRESH, front), Runs.Run(env, Runs.FRESH, es);
      if e.Arrival? && Logged(e.d) {
        Runs.ArrivalIsWritten(env, s, e.host, e.d);
        assert t.journal == s.journal + [t.journal[|s.journal|]];
        Runs.RecordsForAppend(s.journal, t.journal[|s.journal|], ip);
      }
    }
  }

  /** When no other connection reports an address, its records are those of its own
      connection's streams, each decoded by itself: chunking and interleaving of any
      connections, and restarts, make no difference. */
  lemma {:induction false} AddressFollowsItsConnection(env: Env, p: Parsers, es: seq<SystemEvent>, id: nat, ip: Address)
    requires OnlyOn(p, es, id, ip)
    ensures RecordsMatch(Runs.RecordsFor(SystemRun(env, p, Runs.FRESH, es).log.journal, ip),
                         LoggedOn(p, SessionsOf(es, id), ip))
  {
    SystemIsRun(env, p, Runs.FRESH, es);
    AddressFollowsStreams(p, es, id, ip);
    RecordsOfRun(env, EventsOf(p, es), ip);
  }
}
