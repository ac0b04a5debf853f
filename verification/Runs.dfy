/** The message log over whole runs: messages from any hosts and peers, in any
    order, with restarts that lose the memory and keep the disk. */
module Runs {
  import opened Bytes
  import opened LogFile
  import opened PeerHeader
  import opened Message
  import opened Handler

  datatype Event = Arrival(host: string, d: Decoded) | Restart

  function Step(env: Env, s: State, e: Event): State {
    match e
    case Arrival(host, d) => OnMessage(env, s, host, d)
    case Restart => s.(peers := map[])
  }

  function Run(env: Env, s: State, es: seq<Event>): State {
    if es == [] then s else Step(env, Run(env, s, es[..|es| - 1]), es[|es| - 1])
  }

  const FRESH := State(map[], map[], 0, [])

  lemma {:induction false} RunAppend(env: Env, s: State, es: seq<Event>, e: Event)
    ensures Run(env, s, es + [e]) == Step(env, Run(env, s, es), e)
  {
    assert (es + [e])[..|es|] == es;
  }

  /** The records written to a directory, in order. */
  function RecordsIn(journal: seq<Line>, dir: Path): seq<Record> {
    if journal == [] then []
    else
      var front, last := RecordsIn(journal[..|journal| - 1], dir), journal[|journal| - 1];
      if last.dir == dir then front + [last.record] else front
  }

  lemma {:induction false} RecordsInAppend(journal: seq<Line>, line: Line, dir: Path)
    ensures RecordsIn(journal + [line], dir) ==
            if line.dir == dir then RecordsIn(journal, dir) + [line.record] else RecordsIn(journal, dir)
  {
    assert (journal + [line])[..|journal|] == journal;
  }

  /** The file content that a list of records amounts to. */
  function Render(env: Env, rs: seq<Record>): bytes {
    if rs == [] then [] else Render(env, rs[..|rs| - 1]) + (env.str(rs[|rs| - 1]) + [NEWLINE])
  }

  lemma {:induction false} RenderAppend(env: Env, rs: seq<Record>, r: Record)
    ensures Render(env, rs + [r]) == Render(env, rs) + (env.str(r) + [NEWLINE])
  {
    assert (rs + [r])[..|rs|] == rs;
  }

  lemma {:induction false} RenderConcat(env: Env, a: seq<Record>, b: seq<Record>)
    ensures Render(env, a + b) == Render(env, a) + Render(env, b)
    decreases |b|
  {
    if b == [] {
      assert a + b == a;
    } else {
      var front, r := b[..|b| - 1], b[|b| - 1];
      assert a + b == (a + front) + [r] && b == front + [r];
      RenderAppend(env, a + front, r);
      RenderAppend(env, front, r);
      RenderConcat(env, a, front);
    }
  }

  // ---- what every run keeps ----

  /** Every peer directory holds one file with exactly the records written there,
      at least one of them. */
  ghost predicate DiskMatches(env: Env, s: State) {
    forall dir :: dir in s.disk ==> FileMatches(env, s, dir)
  }

  predicate FileMatches(env: Env, s: State, dir: Path)
    requires dir in s.disk
  {
    && |s.disk[dir]| == 1
    && RecordsIn(s.journal, dir) != []
    && s.disk[dir][0].content == Render(env, RecordsIn(s.journal, dir))
  }

  ghost predicate NothingElsewhere(s: State) {
    forall dir :: dir !in s.disk ==> RecordsIn(s.journal, dir) == []
  }

  /** A peer entry is filled and writes to a file of its own address, so distinct
      entries never share a file. */
  predicate Attached(s: State, ip: Address)
    requires ip in s.peers
  {
    var e := s.peers[ip];
    && e.Ready() && e.file.value.dir.ip == ip
    && e.file.value.dir in s.disk && |s.disk[e.file.value.dir]| == 1
    && s.disk[e.file.value.dir][0].name == e.file.value.name
  }

  ghost predicate Consistent(env: Env, s: State) {
    DiskMatches(env, s) && NothingElsewhere(s) && forall ip :: ip in s.peers ==> Attached(s, ip)
  }

  /** The step from s to t appended `line` to the file of peer ip. */
  ghost predicate Wrote(env: Env, s: State, t: State, ip: Address, line: Line) {
    && ip in s.peers && Attached(s, ip)
    && var Entry(msgSeq, file) := s.peers[ip];
    && line.dir == file.value.dir && line.record.seqNo == msgSeq.value
    && t.peers == s.peers[ip := Entry(Some(msgSeq.value + 1), file)]
    && t.disk == s.disk[line.dir :=
         [NamedFile(file.value.name, s.disk[line.dir][0].content + (env.str(line.record) + [NEWLINE]))]]
    && t.journal == s.journal + [line]
  }

  function LineOf(env: Env, s: State, host: string, d: Decoded): Line
    requires Logged(d) && d.header.addr in s.peers && s.peers[d.header.addr].Ready()
  {
    var e := s.peers[d.header.addr];
    Line(host, e.file.value.dir, RecordOf(d, env.clock(s.ticks), e.msgSeq.value))
  }

  lemma {:induction false} WriteLineWrites(env: Env, s: State, host: string, d: Decoded)
    requires Logged(d) && d.header.addr in s.peers && Attached(s, d.header.addr)
    ensures Wrote(env, s, WriteLine(env, s, host, d), d.header.addr, LineOf(env, s, host, d))
  {
    var e := s.peers[d.header.addr];
    var data := env.str(LineOf(env, s, host, d).record) + [NEWLINE];
    AppendToOne(s.disk[e.file.value.dir], e.file.value.name, data);
  }

  lemma {:induction false} AppendToOne(dir: Directory, name: string, data: bytes)
    requires |dir| == 1 && dir[0].name == name
    ensures Append(dir, name, data) == [NamedFile(name, dir[0].content + data)]
  {
    assert dir[1..] == [];
  }

  /** All but the file the next line goes to holds a record. */
  ghost predicate ConsistentBut(env: Env, s: State, except: Path) {
    && (forall dir :: dir in s.disk ==>
          && |s.disk[dir]| == 1 && s.disk[dir][0].content == Render(env, RecordsIn(s.journal, dir))
          && (dir != except ==> RecordsIn(s.journal, dir) != []))
    && NothingElsewhere(s)
    && forall ip :: ip in s.peers ==> Attached(s, ip)
  }

  lemma {:induction false} WroteRecords(env: Env, s: State, t: State, ip: Address, line: Line)
    requires Wrote(env, s, t, ip, line)
    ensures forall dir :: RecordsIn(t.journal, dir) ==
              if line.dir == dir then RecordsIn(s.journal, dir) + [line.record] else RecordsIn(s.journal, dir)
  {
    forall dir ensures RecordsIn(t.journal, dir) ==
                       if line.dir == dir then RecordsIn(s.journal, dir) + [line.record] else RecordsIn(s.journal, dir)
    {
      RecordsInAppend(s.journal, line, dir);
    }
  }

  lemma {:induction false} WroteKeepsConsistent(env: Env, s: State, t: State, ip: Address, line: Line)
    requires Wrote(env, s, t, ip, line) && ConsistentBut(env, s, line.dir)
    ensures Consistent(env, t)
  {
    forall dir | dir in t.disk ensures FileMatches(env, t, dir) {
      RecordsInAppend(s.journal, line, dir);
      if dir == line.dir {
        RenderAppend(env, RecordsIn(s.journal, dir), line.record);
      } else {
        assert FileMatches(env, s, dir);
      }
    }
    forall dir | dir !in t.disk ensures RecordsIn(t.journal, dir) == [] {
      RecordsInAppend(s.journal, line, dir);
    }
    WroteKeepsAttached(env, s, t, ip, line);
  }

  lemma {:induction false} WroteKeepsAttached(env: Env, s: State, t: State, ip: Address, line: Line)
    requires Wrote(env, s, t, ip, line) && forall other :: other in s.peers ==> Attached(s, other)
    ensures forall other :: other in t.peers ==> Attached(t, other)
  {
    forall other | other in t.peers ensures Attached(t, other) {
      assert Attached(s, other);
    }
  }

  /** Opening a peer in a consistent state fills its entry. */
  ghost predicate Started(env: Env, s: State, t: State, host: string, ip: Address) {
    && t.peers.Keys == s.peers.Keys + {ip}
    && (forall other :: other in s.peers && other != ip ==> t.peers[other] == s.peers[other])
    && t.journal == s.journal
    && t.peers[ip].Ready() && t.peers[ip].file.value.dir == Path(host, ip)
    && FirstSeq(env, s, Path(host, ip)) == Ok(t.peers[ip].msgSeq.value)
    && ConsistentBut(env, t, Path(host, ip))
  }

  lemma {:induction false} LatestOfOne(dir: Directory)
    requires |dir| == 1
    ensures Latest(dir) == dir[0]
  {
  }

  lemma {:induction false} OpenKeeps(env: Env, s: State, host: string, ip: Address)
    requires ip !in s.peers && Path(host, ip) in s.disk && |s.disk[Path(host, ip)]| == 1
    requires s.disk[Path(host, ip)][0].content != []
    ensures var t, dir := OpenPeer(env, s, host, ip), Path(host, ip);
      && FirstSeq(env, s, dir).Ok?
      && var e := Entry(Some(FirstSeq(env, s, dir).value), Some(FileRef(dir, s.disk[dir][0].name)));
         t == s.(peers := s.peers[ip := e])
  {
    LatestOfOne(s.disk[Path(host, ip)]);
  }

  lemma {:induction false} RenderNotEmpty(env: Env, rs: seq<Record>)
    requires rs != []
    ensures Render(env, rs) != [] && Render(env, rs)[|Render(env, rs)| - 1] == NEWLINE
  {
  }

  lemma {:induction false} OpenStartsNew(env: Env, s: State, host: string, ip: Address)
    requires Consistent(env, s) && ip !in s.peers && Path(host, ip) !in s.disk
    ensures Started(env, s, OpenPeer(env, s, host, ip), host, ip)
  {
    var t := OpenPeer(env, s, host, ip);
    forall other | other in t.peers ensures Attached(t, other) {
      assert other != ip ==> Attached(s, other);
    }
  }

  lemma {:induction false} OpenStartsOld(env: Env, s: State, host: string, ip: Address)
    requires Consistent(env, s) && ip !in s.peers && Path(host, ip) in s.disk
    ensures Started(env, s, OpenPeer(env, s, host, ip), host, ip)
  {
    var dir := Path(host, ip);
    RenderNotEmpty(env, RecordsIn(s.journal, dir));
    OpenKeeps(env, s, host, ip);
    var e := Entry(Some(FirstSeq(env, s, dir).value), Some(FileRef(dir, s.disk[dir][0].name)));
    EntryAdded(env, s, ip, e);
  }

  lemma {:induction false} EntryAdded(env: Env, s: State, ip: Address, e: Entry)
    requires Consistent(env, s) && ip !in s.peers && e.Ready()
    requires e.file.value.dir.ip == ip && e.file.value.dir in s.disk
    requires e.file.value.name == s.disk[e.file.value.dir][0].name
    ensures ConsistentBut(env, s.(peers := s.peers[ip := e]), e.file.value.dir)
  {
    var t := s.(peers := s.peers[ip := e]);
    forall other | other in t.peers ensures Attached(t, other) {
      assert other != ip ==> Attached(s, other);
    }
  }

  lemma {:induction false} OpenStarts(env: Env, s: State, host: string, ip: Address)
    requires Consistent(env, s) && ip !in s.peers
    ensures Started(env, s, OpenPeer(env, s, host, ip), host, ip)
  {
    if Path(host, ip) in s.disk {
      OpenStartsOld(env, s, host, ip);
    } else {
      OpenStartsNew(env, s, host, ip);
    }
  }

  /** What a logged message does in a consistent state: the entry is filled if it
      is not there yet, then exactly one line is written. */
  lemma {:induction false} ArrivalWrites(env: Env, s: State, host: string, d: Decoded) returns (mid: State, line: Line)
    requires Consistent(env, s) && Logged(d)
    ensures var ip := d.header.addr;
      && (if ip in s.peers then mid == s else Started(env, s, mid, host, ip))
      && Wrote(env, mid, OnMessage(env, s, host, d), ip, line)
      && ConsistentBut(env, mid, line.dir)
      && line == LineOf(env, mid, host, d)
  {
    var ip := d.header.addr;
    if ip in s.peers {
      mid := s;
    } else {
      mid := OpenPeer(env, s, host, ip);
      OpenStarts(env, s, host, ip);
    }
    assert Attached(mid, ip);
    line := LineOf(env, mid, host, d);
    WriteLineWrites(env, mid, host, d);
  }

  lemma {:induction false} OnMessageKeepsConsistent(env: Env, s: State, host: string, d: Decoded)
    requires Consistent(env, s)
    ensures Consistent(env, OnMessage(env, s, host, d))
  {
    if Logged(d) {
      var mid, line := ArrivalWrites(env, s, host, d);
      WroteKeepsConsistent(env, mid, OnMessage(env, s, host, d), d.header.addr, line);
    }
  }

  /** From an empty write directory, whatever arrives and however often the process
      restarts: one file per peer directory, made of exactly the lines written. */
  lemma {:induction false} RunsAreConsistent(env: Env, es: seq<Event>)
    ensures Consistent(env, Run(env, FRESH, es))
  {
    if es != [] {
      var front, e := es[..|es| - 1], es[|es| - 1];
      RunsAreConsistent(env, front);
      if e.Arrival? {
        OnMessageKeepsConsistent(env, Run(env, FRESH, front), e.host, e.d);
      }
    }
  }

  /** In every such run two peer entries never write to the same file. */
  lemma {:induction false} EntriesNeverShareFiles(env: Env, es: seq<Event>, ip1: Address, ip2: Address)
    requires ip1 != ip2
    ensures var s := Run(env, FRESH, es);
      ip1 in s.peers && ip2 in s.peers ==>
        && s.peers[ip1].Ready() && s.peers[ip2].Ready()
        && s.peers[ip1].file.value.dir != s.peers[ip2].file.value.dir
  {
    var s := Run(env, FRESH, es);
    RunsAreConsistent(env, es);
    if ip1 in s.peers && ip2 in s.peers {
      assert Attached(s, ip1) && Attached(s, ip2);
    }
  }

  // ---- nothing is lost ----

  /** The arrivals that are to be logged, in order. */
  function LoggedArrivals(es: seq<Event>): (sent: seq<Event>)
    ensures forall e :: e in sent ==> e.Arrival? && Logged(e.d)
  {
    if es == [] then []
    else
      var front, e := LoggedArrivals(es[..|es| - 1]), es[|es| - 1];
      if e.Arrival? && Logged(e.d) then front + [e] else front
  }

  /** The line a message leads to: its sender, a directory of its address, and the
      record of its content, whatever time and number it got. */
  predicate LineFor(line: Line, e: Event) {
    && e.Arrival? && Logged(e.d)
    && line.sender == e.host && line.dir.ip == e.d.header.addr
    && line.record == RecordOf(e.d, line.record.time, line.record.seqNo)
  }

  /** From an empty write directory, over every run with restarts and for any str,
      eval and clock: one line for each arrival that is to be logged, in order. */
  lemma {:induction false} NothingIsLost(env: Env, es: seq<Event>)
    ensures var journal, sent := Run(env, FRESH, es).journal, LoggedArrivals(es);
      |journal| == |sent| && forall i :: 0 <= i < |sent| ==> LineFor(journal[i], sent[i])
  {
    if es != [] {
      var front, e := es[..|es| - 1], es[|es| - 1];
      NothingIsLost(env, front);
      RunsAreConsistent(env, front);
      if e.Arrival? && Logged(e.d) {
        ArrivalIsWritten(env, Run(env, FRESH, front), e.host, e.d);
      }
    }
  }

  lemma {:induction false} ArrivalIsWritten(env: Env, s: State, host: string, d: Decoded)
    requires Consistent(env, s) && Logged(d)
    ensures var t := OnMessage(env, s, host, d);
      |t.journal| == |s.journal| + 1 && s.journal <= t.journal && LineFor(t.journal[|s.journal|], Arrival(host, d))
  {
    var mid, line := ArrivalWrites(env, s, host, d);
  }

  // ---- whose directory a line lands in ----

  /** Which host first reported each address since the last restart. */
  function Owners(es: seq<Event>): map<Address, string> {
    if es == [] then map[]
    else
      var before, e := Owners(es[..|es| - 1]), es[|es| - 1];
      match e
      case Restart => map[]
      case Arrival(host, d) =>
        if Logged(d) && d.header.addr !in before then before[d.header.addr := host] else before
  }

  /** Between two restarts no two hosts report the same peer address. */
  predicate NoSharedAddress(es: seq<Event>) {
    es == [] ||
    var before, e := Owners(es[..|es| - 1]), es[|es| - 1];
    && NoSharedAddress(es[..|es| - 1])
    && (e.Arrival? && Logged(e.d) && e.d.header.addr in before ==> before[e.d.header.addr] == e.host)
  }

  predicate InOwnDirectory(journal: seq<Line>) {
    forall i :: 0 <= i < |journal| ==> journal[i].dir.host == journal[i].sender
  }

  ghost predicate FilesFollowOwners(s: State, owners: map<Address, string>) {
    && s.peers.Keys == owners.Keys
    && forall ip :: ip in s.peers ==> Attached(s, ip) && s.peers[ip].file.value.dir == Path(owners[ip], ip)
  }

  /** Entries are keyed by address alone. Every line is written under the host that
      sent it exactly when no address is shared between hosts. */
  lemma {:induction false} OwnDirectoryExactly(env: Env, es: seq<Event>)
    ensures InOwnDirectory(Run(env, FRESH, es).journal) <==> NoSharedAddress(es)
    ensures FilesFollowOwners(Run(env, FRESH, es), Owners(es))
  {
    if es != [] {
      var front, e := es[..|es| - 1], es[|es| - 1];
      OwnDirectoryExactly(env, front);
      RunsAreConsistent(env, front);
      var s, t := Run(env, FRESH, front), Run(env, FRESH, es);
      if e.Arrival? && Logged(e.d) {
        OwnDirectoryStep(env, s, e.host, e.d, Owners(front));
      }
    }
  }

  lemma {:induction false} OwnDirectoryStep(env: Env, s: State, host: string, d: Decoded, owners: map<Address, string>)
    requires Consistent(env, s) && Logged(d) && FilesFollowOwners(s, owners)
    ensures var t, ip := OnMessage(env, s, host, d), d.header.addr;
      && FilesFollowOwners(t, if ip in owners then owners else owners[ip := host])
      && (InOwnDirectory(t.journal) <==> InOwnDirectory(s.journal) && (ip in owners ==> owners[ip] == host))
  {
    var ip := d.header.addr;
    var mid, line := ArrivalWrites(env, s, host, d);
    if ip !in s.peers {
      StartedFollows(env, s, mid, host, ip, owners);
    }
    WroteFollows(env, mid, OnMessage(env, s, host, d), ip, line, if ip in owners then owners else owners[ip := host]);
    JournalOwnDirectory(s.journal, line);
  }

  lemma {:induction false} StartedFollows(env: Env, s: State, mid: State, host: string, ip: Address,
                                          owners: map<Address, string>)
    requires FilesFollowOwners(s, owners) && ip !in s.peers && Started(env, s, mid, host, ip)
    ensures FilesFollowOwners(mid, owners[ip := host])
  {
  }

  lemma {:induction false} WroteFollows(env: Env, s: State, t: State, ip: Address, line: Line,
                                        owners: map<Address, string>)
    requires FilesFollowOwners(s, owners) && Wrote(env, s, t, ip, line)
    ensures FilesFollowOwners(t, owners)
  {
    WroteKeepsAttached(env, s, t, ip, line);
  }

  lemma {:induction false} JournalOwnDirectory(journal: seq<Line>, line: Line)
    ensures InOwnDirectory(journal + [line]) <==> InOwnDirectory(journal) && line.dir.host == line.sender
  {
    var t := journal + [line];
    assert t[|journal|] == line;
    assert forall i :: 0 <= i < |journal| ==> t[i] == journal[i];
  }

  /** Two hosts reporting one address: the second host's line lands with the first. */
  lemma {:induction false} SharedAddressMisfiles(env: Env, d: Decoded)
    requires Logged(d)
    ensures var es := [Arrival("a", d), Arrival("b", d)];
      !InOwnDirectory(Run(env, FRESH, es).journal)
  {
    var es := [Arrival("a", d), Arrival("b", d)];
    OwnDirectoryExactly(env, es);
    assert es[..1] == [Arrival("a", d)];
    assert Owners(es[..1]) == map[d.header.addr := "a"] by {
      assert es[..1][..0] == [];
    }
    assert "a"[0] != "b"[0];
  }

  // ---- half-initialised peers ----

  /** A message leaves a peer without number or file exactly when its directory
      exists but has no file, or its latest file is empty. */
  lemma {:induction false} HalfInitialisedExactly(env: Env, s: State, host: string, d: Decoded)
    requires Logged(d) && d.header.addr !in s.peers
    ensures var ip, dir, t := d.header.addr, Path(host, d.header.addr), OnMessage(env, s, host, d);
      && ip in t.peers
      && (!t.peers[ip].Ready() <==> dir in s.disk && (s.disk[dir] == [] || Latest(s.disk[dir]).content == []))
  {
  }

  /** On any disk, a peer with a directory goes on in the file whose name is the
      greatest, with the number after that file's last line, or 1 if that line does
      not evaluate; the other files stay as they are. */
  lemma {:induction false} ResumesAfterLatest(env: Env, s: State, host: string, d: Decoded, i: nat)
    requires Logged(d) && d.header.addr !in s.peers && Path(host, d.header.addr) in s.disk
    requires var files := s.disk[Path(host, d.header.addr)];
      && DistinctNames(files) && i < |files| && files[i].content != []
      && forall g :: g in files ==> Leq(g.name, files[i].name)
    ensures var dir, t := Path(host, d.header.addr), OnMessage(env, s, host, d);
      var f := s.disk[dir][i];
      var n := match env.eval(LastLine(f.content)) case Some(v) => v + 1 case None => 1;
      var r := RecordOf(d, env.clock(s.ticks), n);
      && t.journal == s.journal + [Line(host, dir, r)]
      && t.disk == s.disk[dir := s.disk[dir][i := NamedFile(f.name, f.content + (env.str(r) + [NEWLINE]))]]
      && t.peers == s.peers[d.header.addr := Entry(Some(n + 1), Some(FileRef(dir, f.name)))]
  {
    var dir := Path(host, d.header.addr);
    var files := s.disk[dir];
    LatestIsUnique(files, files[i]);
    var n := FirstSeq(env, s, dir).value;
    AppendIsUpdate(files, i, env.str(RecordOf(d, env.clock(s.ticks), n)) + [NEWLINE]);
  }

  lemma {:induction false} AppendIsUpdate(files: Directory, i: nat, data: bytes)
    requires DistinctNames(files) && i < |files|
    ensures Append(files, files[i].name, data) == files[i := NamedFile(files[i].name, files[i].content + data)]
  {
    AppendGrowsOneFile(files, files[i].name, data);
  }

  /** The same for two names as texts, in whatever order the directory lists them: the
      one with the greater character at the first difference goes on. */
  lemma {:induction false} GreaterNameGoesOn(env: Env, s: State, host: string, d: Decoded, older: NamedFile,
                                             newer: NamedFile, prefix: string, c: char, x: string, e: char, y: string)
    requires Logged(d) && d.header.addr !in s.peers && Path(host, d.header.addr) in s.disk
    requires older.name == prefix + [c] + x && newer.name == prefix + [e] + y && c < e && newer.content != []
    requires s.disk[Path(host, d.header.addr)] == [older, newer] || s.disk[Path(host, d.header.addr)] == [newer, older]
    ensures var dir, t := Path(host, d.header.addr), OnMessage(env, s, host, d);
      var n := match env.eval(LastLine(newer.content)) case Some(v) => v + 1 case None => 1;
      var grown := NamedFile(newer.name, newer.content + (env.str(RecordOf(d, env.clock(s.ticks), n)) + [10]));
      && t.disk[dir] == (if s.disk[dir] == [older, newer] then [older, grown] else [grown, older])
      && t.peers[dir.ip] == Entry(Some(n + 1), Some(FileRef(dir, newer.name)))
  {
    var files := s.disk[Path(host, d.header.addr)];
    FirstDifferenceDecides(prefix, c, x, e, y);
    LeqTotal(newer.name, newer.name);
    ResumesAfterLatest(env, s, host, d, if files[1] == newer then 1 else 0);
  }

  /** A peer in memory: one line at the end of its file, with its number and the time. */
  lemma {:induction false} KnownPeerGoesOn(env: Env, s: State, host: string, d: Decoded, dir: Path, i: nat, n: int)
    requires Logged(d) && d.header.addr in s.peers && dir in s.disk && i < |s.disk[dir]| && DistinctNames(s.disk[dir])
    requires s.peers[d.header.addr] == Entry(Some(n), Some(FileRef(dir, s.disk[dir][i].name)))
    ensures var f, r := s.disk[dir][i], RecordOf(d, env.clock(s.ticks), n);
      OnMessage(env, s, host, d) == State(
        s.peers[d.header.addr := Entry(Some(n + 1), Some(FileRef(dir, f.name)))],
        s.disk[dir := s.disk[dir][i := NamedFile(f.name, f.content + (env.str(r) + [10]))]],
        s.ticks + 1,
        s.journal + [Line(host, dir, r)])
  {
    AppendIsUpdate(s.disk[dir], i, env.str(RecordOf(d, env.clock(s.ticks), n)) + [10]);
  }

  /** A half-initialised peer: the clock is read, then the missing number raises. */
  lemma {:induction false} HalfInitialisedReadsClock(env: Env, s: State, host: string, d: Decoded)
    requires Logged(d) && d.header.addr in s.peers && !s.peers[d.header.addr].Ready()
    ensures OnMessage(env, s, host, d) == State(s.peers, s.disk, s.ticks + 1, s.journal)
  {
  }

  /** The first message of a peer without a directory: one file, named by the clock,
      with one line, which has number 1 and a later reading of the clock. */
  lemma {:induction false} StartsNewFile(env: Env, s: State, host: string, d: Decoded)
    requires Logged(d) && d.header.addr !in s.peers && Path(host, d.header.addr) !in s.disk
    ensures var dir := Path(host, d.header.addr);
      var name, r := env.clock(s.ticks) + ".msg", RecordOf(d, env.clock(s.ticks + 1), 1);
      OnMessage(env, s, host, d) == State(
        s.peers[dir.ip := Entry(Some(2), Some(FileRef(dir, name)))],
        s.disk[dir := [NamedFile(name, env.str(r) + [10])]],
        s.ticks + 2,
        s.journal + [Line(host, dir, r)])
  {
    var dir, name := Path(host, d.header.addr), env.clock(s.ticks) + ".msg";
    var r := RecordOf(d, env.clock(s.ticks + 1), 1);
    AppendToOne([NamedFile(name, [])], name, env.str(r) + [NEWLINE]);
    assert [] + (env.str(r) + [NEWLINE]) == env.str(r) + [10];
  }

  /** The records written for an address, under whatever host. */
  function RecordsFor(journal: seq<Line>, ip: Address): seq<Record> {
    if journal == [] then []
    else
      var front, last := RecordsFor(journal[..|journal| - 1], ip), journal[|journal| - 1];
      if last.dir.ip == ip then front + [last.record] else front
  }

  lemma {:induction false} RecordsForAppend(journal: seq<Line>, line: Line, ip: Address)
    ensures RecordsFor(journal + [line], ip) ==
            if line.dir.ip == ip then RecordsFor(journal, ip) + [line.record] else RecordsFor(journal, ip)
  {
    assert (journal + [line])[..|journal|] == journal;
  }

  /** Every entry that has a file has one of its own address. */
  predicate OwnFiles(s: State) {
    forall ip :: ip in s.peers && s.peers[ip].file.Some? ==> s.peers[ip].file.value.dir.ip == ip
  }

  /** One message touches nothing of another address. */
  predicate Untouched(s: State, t: State, ip: Address) {
    && (ip in t.peers <==> ip in s.peers) && (ip in s.peers ==> t.peers[ip] == s.peers[ip])
    && t.disk.Keys >= s.disk.Keys
    && (forall dir :: dir in t.disk && dir.ip == ip ==> dir in s.disk && t.disk[dir] == s.disk[dir])
  }

  lemma {:induction false} OpenUntouched(env: Env, s: State, host: string, other: Address, ip: Address)
    requires OwnFiles(s) && other != ip
    ensures var t := OpenPeer(env, s, host, other);
      OwnFiles(t) && Untouched(s, t, ip) && t.journal == s.journal && other in t.peers
  {
  }

  lemma {:induction false} WriteUntouched(env: Env, s: State, host: string, d: Decoded, ip: Address)
    requires OwnFiles(s) && Logged(d) && d.header.addr != ip && d.header.addr in s.peers
    ensures var t := WriteLine(env, s, host, d);
      OwnFiles(t) && RecordsFor(t.journal, ip) == RecordsFor(s.journal, ip) && Untouched(s, t, ip)
  {
    if s.peers[d.header.addr].Ready() {
      RecordsForAppend(s.journal, LineOf(env, s, host, d), ip);
    }
  }

  lemma {:induction false} OtherPeersUntouched(env: Env, s: State, host: string, d: Decoded, ip: Address)
    requires OwnFiles(s) && (Logged(d) ==> d.header.addr != ip)
    ensures var t := OnMessage(env, s, host, d);
      OwnFiles(t) && RecordsFor(t.journal, ip) == RecordsFor(s.journal, ip) && Untouched(s, t, ip)
  {
    if Logged(d) {
      if d.header.addr in s.peers {
        WriteUntouched(env, s, host, d, ip);
      } else {
        var mid := OpenPeer(env, s, host, d.header.addr);
        OpenUntouched(env, s, host, d.header.addr, ip);
        if mid.peers[d.header.addr].Ready() {
          WriteUntouched(env, mid, host, d, ip);
        }
      }
    }
  }

  /** From any state, on any disk: a half-initialised peer writes nothing and stays
      half-initialised, whatever arrives, until the process restarts. */
  lemma {:induction false} HalfInitialisedNeverWrites(env: Env, s: State, es: seq<Event>, ip: Address)
    requires OwnFiles(s) && ip in s.peers && !s.peers[ip].Ready()
    requires Restart !in es
    ensures var t := Run(env, s, es);
      OwnFiles(t) && RecordsFor(t.journal, ip) == RecordsFor(s.journal, ip) && Untouched(s, t, ip)
  {
    if es != [] {
      var front, e := es[..|es| - 1], es[|es| - 1];
      assert e in es;
      HalfInitialisedNeverWrites(env, s, front, ip);
      var before := Run(env, s, front);
      if Logged(e.d) && e.d.header.addr == ip {
        assert OnMessage(env, before, e.host, e.d) == before.(ticks := before.ticks + 1);
      } else {
        OtherPeersUntouched(env, before, e.host, e.d, ip);
      }
    }
  }
}
