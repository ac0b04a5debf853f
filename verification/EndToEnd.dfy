/** From bytes on sockets to numbered lines on disk: framing, decoding and logging
    composed. */
module EndToEnd {
  import opened Bytes
  import opened LogFile
  import opened Bgp
  import opened Framing
  import opened PeerHeader
  import opened Message
  import opened Handler
  import opened Receiver
  import opened Runs

  // ---- one session ----

  /** A session and the log it writes to. */
  datatype Session = Session(framing: Drained, log: State)

  function Receive(env: Env, p: Parsers, host: string, s: Session, data: bytes): Session {
    Session(Feed(s.framing, data),
            OfferAll(App(env, p, host), s.log, Frames(Drain(s.framing.rest + data).cuts)))
  }

  function ReceiveAll(env: Env, p: Parsers, host: string, s: Session, chunks: seq<bytes>): Session
    decreases |chunks|
  {
    if chunks == [] then s else ReceiveAll(env, p, host, Receive(env, p, host, s, chunks[0]), chunks[1..])
  }

  /** The session after the bytes `stream`, as one fold over its frames. */
  function AtOnce(env: Env, p: Parsers, host: string, log: State, stream: bytes): Session {
    Session(Drain(stream), OfferAll(App(env, p, host), log, Frames(Drain(stream).cuts)))
  }

  lemma {:induction false} ReceiveContinues(env: Env, p: Parsers, host: string, log: State, seen: bytes, data: bytes)
    ensures Receive(env, p, host, AtOnce(env, p, host, log, seen), data) == AtOnce(env, p, host, log, seen + data)
  {
    var d := Drain(seen);
    var more := Drain(d.rest + data);
    DrainSplit(seen, data);
    FramesConcat(d.cuts, more.cuts);
    OfferAllConcat(App(env, p, host), log, Frames(d.cuts), Frames(more.cuts));
  }

  lemma {:induction false} ReceiveAllFrom(env: Env, p: Parsers, host: string, log: State, seen: bytes,
                                          chunks: seq<bytes>)
    ensures ReceiveAll(env, p, host, AtOnce(env, p, host, log, seen), chunks)
         == AtOnce(env, p, host, log, seen + Flatten(chunks))
    decreases |chunks|
  {
    if chunks == [] {
      assert seen + Flatten(chunks) == seen;
    } else {
      ReceiveContinues(env, p, host, log, seen, chunks[0]);
      ReceiveAllFrom(env, p, host, log, seen + chunks[0], chunks[1..]);
      assert seen + chunks[0] + Flatten(chunks[1..]) == seen + Flatten(chunks);
    }
  }

  /** However the stream is cut into chunks, and whatever fails in decoder or
      handler on the way: buffer, handler memory, disk and written lines are those
      of one fold over the frames of the whole stream. */
  lemma {:induction false} SessionIgnoresChunking(env: Env, p: Parsers, host: string, log: State, chunks: seq<bytes>)
    ensures ReceiveAll(env, p, host, Session(START, log), chunks) == AtOnce(env, p, host, log, Flatten(chunks))
  {
    ReceiveAllFrom(env, p, host, log, [], chunks);
    assert Drain([]) == START;
    assert AtOnce(env, p, host, log, []) == Session(START, log);
    assert [] + Flatten(chunks) == Flatten(chunks);
  }

  /** The same for the object: fed any chunks, a session and its handler end up as the
      fold says. The pieces may hang the loop only if the whole stream does. */
  method ReceiveChunks(bmp: Bmp, chunks: seq<bytes>)
    requires bmp.Valid() && bmp.received == [] && !ReachesZeroLength(Flatten(chunks))
    modifies bmp, bmp.message, bmp.handler, bmp.handler.disk
    ensures bmp.Valid() && bmp.received == Flatten(chunks)
    ensures var all := AtOnce(bmp.handler.env, bmp.parsers, bmp.clientIp, old(bmp.handler.Current()), Flatten(chunks));
      bmp.receiveBuffer == all.framing.rest && bmp.cuts == all.framing.cuts && bmp.handler.Current() == all.log
  {
    ghost var env, p, host, log := bmp.handler.env, bmp.parsers, bmp.clientIp, bmp.handler.Current();
    var i := 0;
    assert chunks[..0] == [];
    while i < |chunks|
      invariant i <= |chunks| && bmp.Valid() && bmp.received == Flatten(chunks[..i])
      invariant bmp.message == old(bmp.message) || fresh(bmp.message)
      invariant bmp.handler.Current() == AtOnce(env, p, host, log, bmp.received).log
    {
      FlattenSplit(chunks, i);
      ghost var before, cuts := bmp.received, bmp.cuts;
      if ReachesZeroLength(before + chunks[i]) {
        ZeroLengthStays(before + chunks[i], Flatten(chunks[i + 1..]));
      }
      bmp.DataReceived(chunks[i]);
      FoldContinues(App(env, p, host), log, cuts, bmp.cuts);
      i := i + 1;
    }
    assert chunks[..i] == chunks;
  }

  lemma {:induction false} FlattenSplit(chunks: seq<bytes>, i: nat)
    requires i < |chunks|
    ensures Flatten(chunks[..i + 1]) == Flatten(chunks[..i]) + chunks[i]
    ensures Flatten(chunks) == Flatten(chunks[..i]) + chunks[i] + Flatten(chunks[i + 1..])
    decreases i
  {
    var rest := chunks[1..];
    if i == 0 {
      assert chunks[..1][1..] == [];
    } else {
      FlattenSplit(rest, i - 1);
      assert chunks[..i + 1][1..] == rest[..i] && chunks[..i][1..] == rest[..i - 1] && rest[i..] == chunks[i + 1..];
    }
  }

  lemma {:induction false} FoldContinues(app: (State, Frame) -> State, log: State, before: seq<Cut>, after: seq<Cut>)
    requires before <= after
    ensures OfferAll(app, OfferAll(app, log, Frames(before)), Frames(after[|before|..]))
         == OfferAll(app, log, Frames(after))
  {
    FramesConcat(before, after[|before|..]);
    OfferAllConcat(app, log, Frames(before), Frames(after[|before|..]));
    assert before + after[|before|..] == after;
  }

  /** Encoded messages, sent in any pieces, reach decoder and log as they are. */
  lemma {:induction false} EncodedSession(env: Env, p: Parsers, host: string, log: State, fs: seq<Frame>,
                                          chunks: seq<bytes>)
    requires forall f :: f in fs ==> Encodable(f)
    requires Flatten(chunks) == EncodeFrames(fs)
    ensures ReceiveAll(env, p, host, Session(START, log), chunks).log == OfferAll(App(env, p, host), log, fs)
  {
    SessionIgnoresChunking(env, p, host, log, chunks);
    FrameRoundTrip(fs, chunks);
    ChunkingIsIrrelevant(chunks);
  }

  // ---- log and decoder agree ----

  /** What one frame decodes to, if that is logged for the address. */
  function LoggedHere(p: Parsers, f: Frame, ip: Address): seq<Decoded> {
    match ConsumeOutcome(p, f.msgType, f.body)
    case Results(d) => if Logged(d) && d.header.addr == ip then [d] else []
    case _ => []
  }

  function Logger(p: Parsers, ip: Address): Frame -> seq<Decoded> {
    f => LoggedHere(p, f, ip)
  }

  function FlatMap<A, B>(f: A -> seq<B>, xs: seq<A>): seq<B> {
    if xs == [] then [] else f(xs[0]) + FlatMap(f, xs[1..])
  }

  lemma {:induction false} FlatMapConcat<A, B>(f: A -> seq<B>, a: seq<A>, b: seq<A>)
    ensures FlatMap(f, a + b) == FlatMap(f, a) + FlatMap(f, b)
    decreases |a|
  {
    if a == [] {
      assert a + b == b;
    } else {
      FlatMapConcat(f, a[1..], b);
      assert (a + b)[1..] == a[1..] + b;
    }
  }

  /** The decoded messages that are logged for an address. */
  function LoggedFor(p: Parsers, fs: seq<Frame>, ip: Address): seq<Decoded> {
    FlatMap(Logger(p, ip), fs)
  }

  lemma {:induction false} LoggedForCons(p: Parsers, fs: seq<Frame>, ip: Address)
    requires fs != []
    ensures LoggedFor(p, fs, ip) == LoggedHere(p, fs[0], ip) + LoggedFor(p, fs[1..], ip)
  {
    assert Logger(p, ip)(fs[0]) == LoggedHere(p, fs[0], ip);
  }

  /** The number an address's next line gets, if it can be written at all. */
  function NextSeq(env: Env, s: State, host: string, ip: Address): Option<int> {
    if ip in s.peers then
      if s.peers[ip].Ready() then s.peers[ip].msgSeq else None
    else
      match FirstSeq(env, s, Path(host, ip))
      case Ok(n) => Some(n)
      case Raise => None
  }

  /** `after` is `before` and one record per message, numbered from `next`; nothing
      at all if there is no number to start from. */
  ghost predicate Extends(before: seq<Record>, after: seq<Record>, ds: seq<Decoded>, next: Option<int>) {
    match next
    case None => after == before
    case Some(n) =>
      && before <= after && |after| == |before| + |ds|
      && forall i :: 0 <= i < |ds| ==>
           Logged(ds[i]) && after[|before| + i] == RecordOf(ds[i], after[|before| + i].time, n + i)
  }

  lemma {:induction false} OpenKeepsNext(env: Env, s: State, host: string, ip: Address)
    requires OwnFiles(s) && ip !in s.peers
    ensures var mid := OpenPeer(env, s, host, ip);
      && NextSeq(env, mid, host, ip) == NextSeq(env, s, host, ip) && OwnFiles(mid)
      && mid.journal == s.journal && ip in mid.peers
  {
  }

  lemma {:induction false} OneArrival(env: Env, s: State, host: string, d: Decoded)
    requires OwnFiles(s) && Logged(d)
    ensures var ip, t := d.header.addr, OnMessage(env, s, host, d);
      && OwnFiles(t)
      && Extends(RecordsFor(s.journal, ip), RecordsFor(t.journal, ip), [d], NextSeq(env, s, host, ip))
      && NextSeq(env, t, host, ip) == Advance(NextSeq(env, s, host, ip), 1)
  {
    var ip := d.header.addr;
    if ip in s.peers {
      KnownArrival(env, s, host, d);
    } else {
      var mid := OpenPeer(env, s, host, ip);
      OpenKeepsNext(env, s, host, ip);
      if mid.peers[ip].Ready() {
        WriteExtends(env, mid, host, d);
      }
    }
  }

  lemma {:induction false} KnownArrival(env: Env, s: State, host: string, d: Decoded)
    requires OwnFiles(s) && Logged(d) && d.header.addr in s.peers
    ensures var ip, t := d.header.addr, WriteLine(env, s, host, d);
      && OwnFiles(t)
      && Extends(RecordsFor(s.journal, ip), RecordsFor(t.journal, ip), [d], NextSeq(env, s, host, ip))
      && NextSeq(env, t, host, ip) == Advance(NextSeq(env, s, host, ip), 1)
  {
    if s.peers[d.header.addr].Ready() {
      WriteExtends(env, s, host, d);
    }
  }

  lemma {:induction false} WriteExtends(env: Env, s: State, host: string, d: Decoded)
    requires OwnFiles(s) && Logged(d) && d.header.addr in s.peers && s.peers[d.header.addr].Ready()
    ensures var ip, t := d.header.addr, WriteLine(env, s, host, d);
      && OwnFiles(t)
      && Extends(RecordsFor(s.journal, ip), RecordsFor(t.journal, ip), [d], s.peers[ip].msgSeq)
      && NextSeq(env, t, host, ip) == Some(s.peers[ip].msgSeq.value + 1)
  {
    RecordsForAppend(s.journal, LineOf(env, s, host, d), d.header.addr);
  }

  lemma {:induction false} UntouchedNextSeq(env: Env, s: State, t: State, host: string, ip: Address)
    requires Untouched(s, t, ip)
    ensures NextSeq(env, t, host, ip) == NextSeq(env, s, host, ip)
  {
  }

  function Advance(next: Option<int>, n: nat): Option<int> {
    match next case None => None case Some(k) => Some(k + n)
  }

  lemma {:induction false} ExtendsCompose(a: seq<Record>, b: seq<Record>, c: seq<Record>, ds: seq<Decoded>,
                                          es: seq<Decoded>, next: Option<int>)
    requires Extends(a, b, ds, next) && Extends(b, c, es, Advance(next, |ds|))
    ensures Extends(a, c, ds + es, next)
  {
    if next.Some? {
      forall i | 0 <= i < |ds + es|
        ensures Logged((ds + es)[i]) && c[|a| + i] == RecordOf((ds + es)[i], c[|a| + i].time, next.value + i)
      {
        if i < |ds| {
          assert c[|a| + i] == b[|a| + i];
        } else {
          var k := i - |ds|;
          assert c[|b| + k] == RecordOf(es[k], c[|b| + k].time, next.value + |ds| + k);
        }
      }
    }
  }

  /** One frame adds what it decodes to for ip, and nothing of ip otherwise. */
  lemma {:induction false} OneFrame(env: Env, p: Parsers, host: string, s: State, f: Frame, ip: Address)
    requires OwnFiles(s)
    ensures var t, ds := OfferFrame(env, p, host, s, f), LoggedHere(p, f, ip);
      && OwnFiles(t)
      && Extends(RecordsFor(s.journal, ip), RecordsFor(t.journal, ip), ds, NextSeq(env, s, host, ip))
      && NextSeq(env, t, host, ip) == Advance(NextSeq(env, s, host, ip), |ds|)
  {
    var o := ConsumeOutcome(p, f.msgType, f.body);
    if o.Results? {
      if Logged(o.decoded) && o.decoded.header.addr == ip {
        OneArrival(env, s, host, o.decoded);
      } else {
        OtherPeersUntouched(env, s, host, o.decoded, ip);
        UntouchedNextSeq(env, s, OnMessage(env, s, host, o.decoded), host, ip);
      }
    }
  }

  lemma {:induction false} OfferAllCons(env: Env, p: Parsers, host: string, s: State, fs: seq<Frame>)
    requires fs != []
    ensures OfferAll(App(env, p, host), s, fs)
         == OfferAll(App(env, p, host), OfferFrame(env, p, host, s, fs[0]), fs[1..])
  {
    assert App(env, p, host)(s, fs[0]) == OfferFrame(env, p, host, s, fs[0]);
  }

  /** From any handler state and for any frames: the lines written for an address
      are exactly the messages of types 0 to 3 that decode for it, in order,
      numbered consecutively from where the address stood. */
  lemma {:induction false} LogAgreesWithDecoder(env: Env, p: Parsers, host: string, s: State, fs: seq<Frame>,
                                                ip: Address)
    requires OwnFiles(s)
    ensures var t := OfferAll(App(env, p, host), s, fs);
      Extends(RecordsFor(s.journal, ip), RecordsFor(t.journal, ip), LoggedFor(p, fs, ip), NextSeq(env, s, host, ip))
    decreases |fs|
  {
    if fs != [] {
      var mid := OfferFrame(env, p, host, s, fs[0]);
      OneFrame(env, p, host, s, fs[0], ip);
      LogAgreesWithDecoder(env, p, host, mid, fs[1..], ip);
      OfferAllCons(env, p, host, s, fs);
      LoggedForCons(p, fs, ip);
      var final := OfferAll(App(env, p, host), mid, fs[1..]);
      ExtendsCompose(RecordsFor(s.journal, ip), RecordsFor(mid.journal, ip), RecordsFor(final.journal, ip),
                     LoggedHere(p, fs[0], ip), LoggedFor(p, fs[1..], ip), NextSeq(env, s, host, ip));
    }
  }

  // ---- the files grow by the lines ----

  predicate HasName(dir: Directory, name: string) {
    exists f :: f in dir && f.name == name
  }

  /** Every entry with a file has one of its own address that is on the disk. */
  predicate FilesExist(s: State) {
    forall ip :: ip in s.peers && s.peers[ip].file.Some? ==>
      var FileRef(dir, name) := s.peers[ip].file.value;
      dir.ip == ip && dir in s.disk && HasName(s.disk[dir], name)
  }

  /** Every run from an empty write directory ends in such a state. */
  lemma {:induction false} RunsKeepFiles(env: Env, es: seq<Event>)
    ensures FilesExist(Run(env, FRESH, es)) && OwnFiles(Run(env, FRESH, es))
  {
    var s := Run(env, FRESH, es);
    RunsAreConsistent(env, es);
    forall ip | ip in s.peers
      ensures var f := s.peers[ip].file.value; f.dir.ip == ip && f.dir in s.disk && HasName(s.disk[f.dir], f.name)
    {
      assert Attached(s, ip);
      var f := s.peers[ip].file.value;
      assert s.disk[f.dir][0] in s.disk[f.dir];
    }
  }

  /** The content of the file of that name. */
  function ContentOf(dir: Directory, name: string): bytes {
    if dir == [] then [] else if dir[0].name == name then dir[0].content else ContentOf(dir[1..], name)
  }

  /** What the file an address writes to holds, or the file it would go on with. */
  function LogContent(s: State, host: string, ip: Address): bytes {
    if ip in s.peers && s.peers[ip].Ready() then
      var FileRef(dir, name) := s.peers[ip].file.value;
      if dir in s.disk then ContentOf(s.disk[dir], name) else []
    else
      var dir := Path(host, ip);
      if dir in s.disk && s.disk[dir] != [] then ContentOf(s.disk[dir], Latest(s.disk[dir]).name) else []
  }

  lemma {:induction false} AppendExtends(dir: Directory, name: string, data: bytes)
    requires HasName(dir, name)
    ensures ContentOf(Append(dir, name, data), name) == ContentOf(dir, name) + data
  {
    if dir[0].name != name {
      assert HasName(dir[1..], name) by {
        var f :| f in dir && f.name == name;
        assert dir == [dir[0]] + dir[1..];
        assert f in dir[1..];
      }
      AppendExtends(dir[1..], name, data);
    }
  }

  lemma {:induction false} AppendKeepsNames(dir: Directory, name: string, data: bytes, other: string)
    requires HasName(dir, other)
    ensures HasName(Append(dir, name, data), other)
  {
    var after := Append(dir, name, data);
    var f :| f in dir && f.name == other;
    if dir[0].name == name {
      assert after[0].name == name;
      if f != dir[0] {
        var k :| 1 <= k < |dir| && dir[k] == f;
        assert after[k] == f;
      }
    } else if f == dir[0] {
      assert after[0] == f;
    } else {
      var k :| 1 <= k < |dir| && dir[k] == f;
      assert dir[1..][k - 1] == f;
      AppendKeepsNames(dir[1..], name, data, other);
      var g :| g in Append(dir[1..], name, data) && g.name == other;
      assert g in after;
    }
  }

  lemma {:induction false} WriteGrowsFile(env: Env, s: State, host: string, d: Decoded)
    requires FilesExist(s) && Logged(d) && d.header.addr in s.peers && s.peers[d.header.addr].Ready()
    ensures var ip, t := d.header.addr, WriteLine(env, s, host, d);
      LogContent(t, host, ip) == LogContent(s, host, ip) + (env.str(LineOf(env, s, host, d).record) + [NEWLINE])
    ensures FilesExist(WriteLine(env, s, host, d))
  {
    var ip, t := d.header.addr, WriteLine(env, s, host, d);
    var FileRef(dir, name) := s.peers[ip].file.value;
    var data := env.str(LineOf(env, s, host, d).record) + [NEWLINE];
    AppendExtends(s.disk[dir], name, data);
    forall other | other in t.peers && t.peers[other].file.Some?
      ensures var f := t.peers[other].file.value; f.dir.ip == other && f.dir in t.disk && HasName(t.disk[f.dir], f.name)
    {
      var f := s.peers[other].file.value;
      if f.dir == dir {
        AppendKeepsNames(s.disk[dir], name, data, f.name);
      }
    }
  }

  lemma {:induction false} OpenKeepsContent(env: Env, s: State, host: string, ip: Address)
    requires FilesExist(s) && ip !in s.peers
    ensures var t := OpenPeer(env, s, host, ip);
      FilesExist(t) && LogContent(t, host, ip) == LogContent(s, host, ip) && t.journal == s.journal
  {
    var dir, t := Path(host, ip), OpenPeer(env, s, host, ip);
    if dir !in s.disk {
      var name := t.peers[ip].file.value.name;
      assert t.disk[dir] == [NamedFile(name, [])] && NamedFile(name, []) in t.disk[dir];
    } else if s.disk[dir] != [] {
      assert Latest(s.disk[dir]) in s.disk[dir];
    }
  }

  /** One logged message: the file of its address grows by the rendered new record. */
  lemma {:induction false} ArrivalGrowsFile(env: Env, s: State, host: string, d: Decoded)
    requires FilesExist(s) && Logged(d)
    ensures var ip, t := d.header.addr, OnMessage(env, s, host, d);
      && FilesExist(t)
      && LogContent(t, host, ip) == LogContent(s, host, ip) + Render(env, NewRecords(s, t, ip))
  {
    var ip := d.header.addr;
    var mid := s;
    if ip !in s.peers {
      mid := OpenPeer(env, s, host, ip);
      OpenKeepsContent(env, s, host, ip);
    }
    if mid.peers[ip].Ready() {
      WriteGrowsFile(env, mid, host, d);
      WriteIsNew(env, mid, host, d);
    } else {
      assert RecordsFor(mid.journal, ip)[|RecordsFor(mid.journal, ip)|..] == [];
    }
  }

  lemma {:induction false} WriteIsNew(env: Env, s: State, host: string, d: Decoded)
    requires FilesExist(s) && Logged(d) && d.header.addr in s.peers && s.peers[d.header.addr].Ready()
    ensures var r := LineOf(env, s, host, d).record;
      Render(env, NewRecords(s, WriteLine(env, s, host, d), d.header.addr)) == env.str(r) + [NEWLINE]
  {
    var line := LineOf(env, s, host, d);
    RecordsForAppend(s.journal, line, d.header.addr);
    assert NewRecords(s, WriteLine(env, s, host, d), d.header.addr) == [line.record];
    RenderAppend(env, [], line.record);
    assert [] + [line.record] == [line.record];
    assert [] + (env.str(line.record) + [NEWLINE]) == env.str(line.record) + [NEWLINE];
  }

  /** The records an address got between two states. */
  function NewRecords(s: State, t: State, ip: Address): seq<Record> {
    var before, after := RecordsFor(s.journal, ip), RecordsFor(t.journal, ip);
    if |before| <= |after| then after[|before|..] else []
  }

  lemma {:induction false} OtherArrivalKeepsFile(env: Env, s: State, host: string, d: Decoded, ip: Address)
    requires FilesExist(s) && (Logged(d) ==> d.header.addr != ip)
    ensures var t := OnMessage(env, s, host, d); FilesExist(t) && LogContent(t, host, ip) == LogContent(s, host, ip)
  {
    OtherPeersUntouched(env, s, host, d, ip);
    if Logged(d) {
      ArrivalGrowsFile(env, s, host, d);
    }
  }

  lemma {:induction false} FrameGrowsFile(env: Env, p: Parsers, host: string, s: State, f: Frame, ip: Address)
    requires FilesExist(s)
    ensures var t := OfferFrame(env, p, host, s, f);
      && FilesExist(t)
      && LogContent(t, host, ip) == LogContent(s, host, ip) + Render(env, NewRecords(s, t, ip))
  {
    var o := ConsumeOutcome(p, f.msgType, f.body);
    if o.Results? && Logged(o.decoded) && o.decoded.header.addr == ip {
      ArrivalGrowsFile(env, s, host, o.decoded);
    } else {
      if o.Results? {
        OtherArrivalKeepsFile(env, s, host, o.decoded, ip);
        OtherPeersUntouched(env, s, host, o.decoded, ip);
      }
      assert LogContent(s, host, ip) + [] == LogContent(s, host, ip);
    }
  }

  lemma {:induction false} NewRecordsCompose(s: State, mid: State, t: State, ip: Address)
    requires RecordsFor(s.journal, ip) <= RecordsFor(mid.journal, ip) <= RecordsFor(t.journal, ip)
    ensures NewRecords(s, t, ip) == NewRecords(s, mid, ip) + NewRecords(mid, t, ip)
  {
  }

  lemma {:induction false} ExtendsIsPrefix(env: Env, p: Parsers, host: string, s: State, fs: seq<Frame>, ip: Address)
    requires OwnFiles(s)
    ensures RecordsFor(s.journal, ip) <= RecordsFor(OfferAll(App(env, p, host), s, fs).journal, ip)
  {
    LogAgreesWithDecoder(env, p, host, s, fs, ip);
  }

  /** Where every entry's file exists, the lines are on the disk: for any frames, the
      file of an address grows by exactly its new records, rendered, at its end. */
  lemma {:induction false} FilesGrowByLines(env: Env, p: Parsers, host: string, s: State, fs: seq<Frame>, ip: Address)
    requires FilesExist(s)
    ensures var t := OfferAll(App(env, p, host), s, fs);
      && FilesExist(t)
      && LogContent(t, host, ip) == LogContent(s, host, ip) + Render(env, NewRecords(s, t, ip))
    decreases |fs|
  {
    if fs == [] {
      assert LogContent(s, host, ip) + [] == LogContent(s, host, ip);
    } else {
      var mid := OfferFrame(env, p, host, s, fs[0]);
      OfferAllCons(env, p, host, s, fs);
      FrameGrowsFile(env, p, host, s, fs[0], ip);
      FilesGrowByLines(env, p, host, mid, fs[1..], ip);
      OneFrame(env, p, host, s, fs[0], ip);
      ExtendsIsPrefix(env, p, host, mid, fs[1..], ip);
      GrowthComposes(env, host, s, mid, OfferAll(App(env, p, host), mid, fs[1..]), ip);
    }
  }

  lemma {:induction false} GrowthComposes(env: Env, host: string, s: State, mid: State, t: State, ip: Address)
    requires RecordsFor(s.journal, ip) <= RecordsFor(mid.journal, ip) <= RecordsFor(t.journal, ip)
    requires LogContent(mid, host, ip) == LogContent(s, host, ip) + Render(env, NewRecords(s, mid, ip))
    requires LogContent(t, host, ip) == LogContent(mid, host, ip) + Render(env, NewRecords(mid, t, ip))
    ensures LogContent(t, host, ip) == LogContent(s, host, ip) + Render(env, NewRecords(s, t, ip))
  {
    NewRecordsCompose(s, mid, t, ip);
    RenderConcat(env, NewRecords(s, mid, ip), NewRecords(mid, t, ip));
  }

  // ---- the clock does not matter ----

  predicate SameButTime(a: seq<Record>, b: seq<Record>) {
    |a| == |b| && forall i :: 0 <= i < |a| ==> a[i] == b[i].(time := a[i].time)
  }

  /** Two receptions of the same stream, in any pieces and at any times, from the
      same handler state: for every address the same lines, timestamps aside. */
  lemma {:induction false} EndToEnd(env1: Env, env2: Env, p: Parsers, host: string, log: State,
                                    chunks1: seq<bytes>, chunks2: seq<bytes>, ip: Address)
    requires env1.eval == env2.eval && OwnFiles(log)
    requires Flatten(chunks1) == Flatten(chunks2)
    ensures var s1 := ReceiveAll(env1, p, host, Session(START, log), chunks1);
      var s2 := ReceiveAll(env2, p, host, Session(START, log), chunks2);
      && s1.framing == s2.framing
      && SameButTime(NewRecords(log, s1.log, ip), NewRecords(log, s2.log, ip))
      && SameButTime(RecordsFor(s1.log.journal, ip), RecordsFor(s2.log.journal, ip))
  {
    SessionIgnoresChunking(env1, p, host, log, chunks1);
    SessionIgnoresChunking(env2, p, host, log, chunks2);
    FoldsAgree(env1, env2, p, host, log, Frames(Drain(Flatten(chunks1)).cuts), ip);
  }

  /** The same on the disk, where every entry's file exists: under either clock the
      file of an address grows by its rendered new records, and those agree. */
  lemma {:induction false} EndToEndOnDisk(env1: Env, env2: Env, p: Parsers, host: string, log: State,
                                          chunks1: seq<bytes>, chunks2: seq<bytes>, ip: Address)
    requires env1.eval == env2.eval && FilesExist(log)
    requires Flatten(chunks1) == Flatten(chunks2)
    ensures var t1 := ReceiveAll(env1, p, host, Session(START, log), chunks1).log;
      var t2 := ReceiveAll(env2, p, host, Session(START, log), chunks2).log;
      && LogContent(t1, host, ip) == LogContent(log, host, ip) + Render(env1, NewRecords(log, t1, ip))
      && LogContent(t2, host, ip) == LogContent(log, host, ip) + Render(env2, NewRecords(log, t2, ip))
      && SameButTime(NewRecords(log, t1, ip), NewRecords(log, t2, ip))
  {
    EndToEnd(env1, env2, p, host, log, chunks1, chunks2, ip);
    SessionIgnoresChunking(env1, p, host, log, chunks1);
    SessionIgnoresChunking(env2, p, host, log, chunks2);
    FilesGrowByLines(env1, p, host, log, Frames(Drain(Flatten(chunks1)).cuts), ip);
    FilesGrowByLines(env2, p, host, log, Frames(Drain(Flatten(chunks2)).cuts), ip);
  }

  lemma {:induction false} FoldsAgree(env1: Env, env2: Env, p: Parsers, host: string, log: State, fs: seq<Frame>,
                                      ip: Address)
    requires env1.eval == env2.eval && OwnFiles(log)
    ensures var t1, t2 := OfferAll(App(env1, p, host), log, fs), OfferAll(App(env2, p, host), log, fs);
      && SameButTime(RecordsFor(t1.journal, ip), RecordsFor(t2.journal, ip))
      && SameButTime(NewRecords(log, t1, ip), NewRecords(log, t2, ip))
  {
    LogAgreesWithDecoder(env1, p, host, log, fs, ip);
    LogAgreesWithDecoder(env2, p, host, log, fs, ip);
    assert NextSeq(env1, log, host, ip) == NextSeq(env2, log, host, ip);
    SameExtension(RecordsFor(log.journal, ip), RecordsFor(OfferAll(App(env1, p, host), log, fs).journal, ip),
                  RecordsFor(OfferAll(App(env2, p, host), log, fs).journal, ip),
                  LoggedFor(p, fs, ip), NextSeq(env1, log, host, ip));
  }

  lemma {:induction false} SameExtension(before: seq<Record>, a: seq<Record>, b: seq<Record>, ds: seq<Decoded>,
                                         next: Option<int>)
    requires Extends(before, a, ds, next) && Extends(before, b, ds, next)
    ensures SameButTime(a, b)
  {
    if next.Some? {
      forall i | 0 <= i < |a| ensures a[i] == b[i].(time := a[i].time) {
        if i < |before| {
          assert a[i] == before[i] && b[i] == before[i];
        } else {
          var k := i - |before|;
          assert a[|before| + k] == RecordOf(ds[k], a[|before| + k].time, next.value + k);
          assert b[|before| + k] == RecordOf(ds[k], b[|before| + k].time, next.value + k);
        }
      }
    }
  }

  // ---- frames that do not reach the log ----

  /** Frames that raise, that give no result, or that are of types 4, 5 and 6. */
  predicate Silent(p: Parsers, f: Frame) {
    var o := ConsumeOutcome(p, f.msgType, f.body);
    o.Results? ==> !Logged(o.decoded)
  }

  /** The bytes of a silent frame of any length, at a frame boundary of any stream, can
      be taken out: memory, disk, clock and journal stay the same in every detail. */
  lemma {:induction false} SilentFrameIsHarmless(env: Env, p: Parsers, host: string, log: State,
                                                 before: bytes, f: Frame, raw: bytes, after: bytes)
    requires Drain(before).rest == []
    requires raw != [] && Look(raw + after) == Offer(f, |raw|) && Silent(p, f)
    ensures AtOnce(env, p, host, log, before + raw + after).log == AtOnce(env, p, host, log, before + after).log
  {
    var app := App(env, p, host);
    var t := OfferAll(app, log, Frames(Drain(before).cuts));
    assert app(t, f) == OfferFrame(env, p, host, t, f) == t;
    FailingFrameLosesOnlyItself(app, log, before, f, raw, after);
  }

  /** An empty body leads to nothing that is logged, whatever the type. */
  lemma {:induction false} EmptyBodyIsSilent(p: Parsers, msgType: byte)
    ensures Silent(p, Frame(msgType, []))
  {
    assert Slice([], 0, PER_PEER_LEN) == [];
    assert UnpackB(Slice([], 0, 1)).Raise?;
    assert ParsePerPeerHeader([]).Raise?;
  }

  /** Also a loop that never ends does to the log only what the frames before the zero
      length do: after any number of passes that covers these frames, the log is that
      of the fold, and the further passes change nothing. */
  lemma {:induction false} HangLogsNothing(env: Env, p: Parsers, host: string, log: State, buf: bytes, n: nat)
    requires ReachesZeroLength(buf) && n >= |Drain(buf).cuts|
    ensures AfterOffers(App(env, p, host), log, buf, n) == AtOnce(env, p, host, log, buf).log
  {
    var app := App(env, p, host);
    forall s: State, t: byte ensures app(s, Frame(t, [])) == s {
      EmptyBodyIsSilent(p, t);
      assert app(s, Frame(t, [])) == OfferFrame(env, p, host, s, Frame(t, []));
    }
    HangOffersEmptyBodies(app, log, buf, n);
  }
}
