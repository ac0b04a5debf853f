/** The message log: `DefaultHandler.on_message_received` numbers the messages of
    every peer and appends them to that peer's file. */
module Handler {
  import opened Bytes
  import opened LogFile
  import opened PeerHeader
  import opened Message
  import Statistics

  // ---- what is written ----

  datatype Body =
    | RouteBody(route: Option<Route>)
    | CountersBody(counters: Statistics.Counters)
    | ReasonBody(reason: nat)
    | OpenBody(open: string)

  /** The list written as one line. */
  datatype Record = Record(time: string, seqNo: int, code: nat, body: Body, tail: (nat, nat))

  /** The outside world: str() of a record, eval() of a line down to its second
      element (None if that raises), and the readings of the clock. */
  datatype Env = Env(str: Record -> bytes, eval: bytes -> Option<int>, clock: nat -> string)

  predicate Logged(d: Decoded) {
    MessageType(d) !in [4, 5, 6]
  }

  /** Route monitoring always takes the branch for post-policy routes: the flag it
      tests is a text of one character, '0' or '1', and such a text is true. */
  function RecordOf(d: Decoded, time: string, seqNo: int): Record
    requires Logged(d)
  {
    match d
    case RouteMonitoring(_, route) => Record(time, seqNo, 130, RouteBody(route), (1, 1))
    case StatisticsReport(_, counters) => Record(time, seqNo, 129, CountersBody(counters), (0, 0))
    case PeerDown(_, reason) => Record(time, seqNo, 3, ReasonBody(reason), (0, 0))
    case PeerIsUp(_, up) => Record(time, seqNo, 1, OpenBody(up.receivedOpen), (0, 0))
  }

  // ---- the disk ----

  datatype NamedFile = NamedFile(name: string, content: bytes)
  type Directory = seq<NamedFile>

  /** The directory of a peer: write_dir/host/ip. */
  datatype Path = Path(host: string, ip: Address)
  datatype FileRef = FileRef(dir: Path, name: string)

  /** Order of Python strings. */
  predicate Leq(a: string, b: string) {
    a == "" || (b != "" && (a[0] < b[0] || (a[0] == b[0] && Leq(a[1..], b[1..]))))
  }

  lemma {:induction false} LeqTotal(a: string, b: string)
    ensures Leq(a, b) || Leq(b, a)
    decreases |a|
  {
    if a != "" && b != "" && a[0] == b[0] {
      LeqTotal(a[1..], b[1..]);
    }
  }

  lemma {:induction false} LeqTransitive(a: string, b: string, c: string)
    requires Leq(a, b) && Leq(b, c)
    ensures Leq(a, c)
    decreases |a|
  {
    if a != "" && a[0] == b[0] && b[0] == c[0] {
      LeqTransitive(a[1..], b[1..], c[1..]);
    }
  }

  /** Dictionary order by character: a beginning comes first, else the first
      difference decides. */
  lemma {:induction false} LeqExactly(a: string, b: string)
    ensures Leq(a, b) <==> a <= b || exists i :: 0 <= i < |a| && i < |b| && a[..i] == b[..i] && a[i] < b[i]
    decreases |a|
  {
    if a != "" && b != "" {
      LeqExactly(a[1..], b[1..]);
      if a[0] == b[0] {
        LaterDifference(a, b);
      }
    }
  }

  /** Equal first characters move the first difference by one. */
  lemma {:induction false} LaterDifference(a: string, b: string)
    requires a != "" && b != "" && a[0] == b[0]
    ensures a <= b <==> a[1..] <= b[1..]
    ensures (exists i :: 0 <= i < |a| && i < |b| && a[..i] == b[..i] && a[i] < b[i]) <==>
            exists i :: 0 <= i < |a[1..]| && i < |b[1..]| && a[1..][..i] == b[1..][..i] && a[1..][i] < b[1..][i]
  {
    var c, d := a[1..], b[1..];
    assert a == [a[0]] + c && b == [b[0]] + d;
    if i :| 0 <= i < |a| && i < |b| && a[..i] == b[..i] && a[i] < b[i] {
      assert a[..i] == [a[0]] + c[..i - 1] && b[..i] == [b[0]] + d[..i - 1];
      assert c[..i - 1] == a[..i][1..] && d[..i - 1] == b[..i][1..];
      assert c[i - 1] < d[i - 1];
    }
    if i :| 0 <= i < |c| && i < |d| && c[..i] == d[..i] && c[i] < d[i] {
      assert a[..i + 1] == [a[0]] + c[..i] && b[..i + 1] == [b[0]] + d[..i];
      assert a[i + 1] < b[i + 1];
    }
  }

  /** Of two names that first differ in one character, the one with the greater
      character there is strictly later. */
  lemma FirstDifferenceDecides(s: string, c: char, x: string, d: char, y: string)
    requires c < d
    ensures Leq(s + [c] + x, s + [d] + y) && !Leq(s + [d] + y, s + [c] + x)
  {
    var a, b := s + [c] + x, s + [d] + y;
    assert a[..|s|] == b[..|s|] && a[|s|] < b[|s|];
    LeqExactly(a, b);
    if Leq(b, a) {
      LeqAntisymmetric(a, b);
    }
  }

  /** file_list.sort(); file_list[-1] */
  function Latest(dir: Directory): (f: NamedFile)
    requires dir != []
    ensures f in dir && forall g :: g in dir ==> Leq(g.name, f.name)
    decreases |dir|
  {
    if |dir| == 1 then
      LeqTotal(dir[0].name, dir[0].name);
      dir[0]
    else
      var f, g := dir[0], Latest(dir[1..]);
      assert dir == [f] + dir[1..];
      LeqTotal(f.name, g.name);
      LeqTotal(f.name, f.name);
      assert Leq(g.name, f.name) ==> forall h :: h in dir[1..] ==> Leq(h.name, f.name) by {
        if Leq(g.name, f.name) {
          forall h | h in dir[1..] ensures Leq(h.name, f.name) {
            LeqTransitive(h.name, g.name, f.name);
          }
        }
      }
      if Leq(f.name, g.name) then g else f
  }

  /** Appending to a file through its handle. */
  function Append(dir: Directory, name: string, data: bytes): Directory {
    if dir == [] then []
    else if dir[0].name == name then [NamedFile(name, dir[0].content + data)] + dir[1..]
    else [dir[0]] + Append(dir[1..], name, data)
  }

  predicate DistinctNames(dir: Directory) {
    forall i, j :: 0 <= i < j < |dir| ==> dir[i].name != dir[j].name
  }

  /** Only the named file grows, by exactly the data, at its end. */
  lemma {:induction false} AppendGrowsOneFile(dir: Directory, name: string, data: bytes)
    requires DistinctNames(dir)
    ensures var after := Append(dir, name, data);
      && |after| == |dir|
      && forall i :: 0 <= i < |dir| ==>
           after[i] == if dir[i].name == name then NamedFile(name, dir[i].content + data) else dir[i]
  {
    if dir != [] && dir[0].name != name {
      AppendGrowsOneFile(dir[1..], name, data);
      assert forall i :: 1 <= i < |dir| ==> dir[i] == dir[1..][i - 1];
    }
  }

  lemma {:induction false} LeqAntisymmetric(a: string, b: string)
    requires Leq(a, b) && Leq(b, a)
    ensures a == b
    decreases |a|
  {
    if a != "" && b != "" {
      LeqAntisymmetric(a[1..], b[1..]);
      assert a == [a[0]] + a[1..] && b == [b[0]] + b[1..];
    }
  }

  /** The latest file is the one whose name no other exceeds. */
  lemma {:induction false} LatestIsUnique(dir: Directory, f: NamedFile)
    requires DistinctNames(dir) && f in dir
    requires forall g :: g in dir ==> Leq(g.name, f.name)
    ensures Latest(dir) == f
  {
    LeqAntisymmetric(f.name, Latest(dir).name);
    var i :| 0 <= i < |dir| && dir[i] == f;
    var j :| 0 <= j < |dir| && dir[j] == Latest(dir);
    assert i == j;
  }

  // ---- the handler as a function ----

  /** A peer's dictionary; keys may be missing. */
  datatype Entry = Entry(msgSeq: Option<int>, file: Option<FileRef>) {
    predicate Ready() {
      msgSeq.Some? && file.Some?
    }
  }

  /** A line that was written: who sent the message, and where it went. */
  datatype Line = Line(sender: string, dir: Path, record: Record)

  /** `journal` is the history of all lines written. */
  datatype State = State(peers: map<Address, Entry>, disk: map<Path, Directory>, ticks: nat, journal: seq<Line>)

  /** `get_last_seq` on a file with this content. */
  function LastSeq(env: Env, content: bytes): Result<int> {
    if content == [] then Raise
    else
      match env.eval(LastLine(content))
      case Some(v) => Ok(v + 1)
      case None => Ok(1)
  }

  /** Where numbering starts for a peer that is not in memory; Raise leaves a peer
      entry without number and file. */
  function FirstSeq(env: Env, s: State, dir: Path): Result<int> {
    if dir !in s.disk then Ok(1)
    else if s.disk[dir] == [] then Raise
    else LastSeq(env, Latest(s.disk[dir]).content)
  }

  function OpenPeer(env: Env, s: State, host: string, ip: Address): State {
    var dir := Path(host, ip);
    var first := FirstSeq(env, s, dir);
    if dir !in s.disk then
      var name := env.clock(s.ticks) + ".msg";
      s.(peers := s.peers[ip := Entry(Some(1), Some(FileRef(dir, name)))],
         disk := s.disk[dir := [NamedFile(name, [])]],
         ticks := s.ticks + 1)
    else if first.Raise? || s.disk[dir] == [] then
      s.(peers := s.peers[ip := Entry(None, None)])
    else
      s.(peers := s.peers[ip := Entry(Some(first.value), Some(FileRef(dir, Latest(s.disk[dir]).name)))])
  }

  /** Numbering and writing; a missing key raises after the clock was read. */
  function WriteLine(env: Env, s: State, host: string, d: Decoded): State
    requires Logged(d) && d.header.addr in s.peers
  {
    var ip := d.header.addr;
    var e := s.peers[ip];
    if !e.Ready() then s.(ticks := s.ticks + 1)
    else
      var FileRef(dir, name) := e.file.value;
      var record := RecordOf(d, env.clock(s.ticks), e.msgSeq.value);
      s.(peers := s.peers[ip := e.(msgSeq := Some(e.msgSeq.value + 1))],
         disk := if dir in s.disk
                 then s.disk[dir := Append(s.disk[dir], name, env.str(record) + [NEWLINE])] else s.disk,
         ticks := s.ticks + 1,
         journal := s.journal + [Line(host, dir, record)])
  }

  function OnMessage(env: Env, s: State, host: string, d: Decoded): State {
    if !Logged(d) then s
    else
      var ip := d.header.addr;
      if ip in s.peers then WriteLine(env, s, host, d)
      else
        var started := OpenPeer(env, s, host, ip);
        if started.peers[ip].Ready() then WriteLine(env, started, host, d) else started
  }

  // ---- the handler as an object ----

  class Disk {
    var tree: map<Path, Directory>
  }

  class DefaultHandler {
    const env: Env
    const disk: Disk
    var bgpPeerDict: map<Address, Entry>
    var ticks: nat
    ghost var journal: seq<Line>

    ghost function Current(): State
      reads this, disk
    {
      State(bgpPeerDict, disk.tree, ticks, journal)
    }

    /** A process start: empty memory on the disk as it is. The clock and the
        history go on. */
    constructor (env: Env, disk: Disk, ticks: nat, ghost journal: seq<Line>)
      ensures this.env == env && this.disk == disk
      ensures Current() == State(map[], disk.tree, ticks, journal)
    {
      this.env, this.disk := env, disk;
      bgpPeerDict, this.ticks, this.journal := map[], ticks, journal;
    }

    /** time.time() */
    method Time() returns (t: string)
      modifies `ticks
      ensures t == env.clock(old(ticks)) && ticks == old(ticks) + 1
    {
      t := env.clock(ticks);
      ticks := ticks + 1;
    }

    method GetLastSeq(content: bytes) returns (r: Result<int>)
      ensures r == LastSeq(env, content)
    {
      var lastLine := ScanLastLine(content);
      if lastLine.Raise? {
        return Raise;
      }
      match env.eval(lastLine.value)
      case Some(v) => r := Ok(v + 1);
      case None => r := Ok(1);
    }

    method OnMessageReceived(peerHost: string, msg: Decoded) returns (raised: bool)
      modifies this, disk
      ensures Current() == OnMessage(env, old(Current()), peerHost, msg)
    {
      if MessageType(msg) in [4, 5, 6] {
        return false;
      }
      var peerIp := msg.header.addr;
      if peerIp !in bgpPeerDict {
        raised := StartPeer(peerHost, peerIp);
        if raised {
          return;
        }
      }
      raised := Write(peerHost, msg);
    }

    /** The latest message file of a known peer, and the number to go on with. */
    method FindLatest(fileList: Directory) returns (r: Result<(string, int)>)
      ensures r == if fileList == [] || LastSeq(env, Latest(fileList).content).Raise? then Raise
                   else Ok((Latest(fileList).name, LastSeq(env, Latest(fileList).content).value))
    {
      if fileList == [] {
        return Raise;
      }
      var msgFile := Latest(fileList);
      var lastSeq := GetLastSeq(msgFile.content);
      if lastSeq.Raise? {
        return Raise;
      }
      r := Ok((msgFile.name, lastSeq.value));
    }

    /** The entry is made empty and then filled, so an exception leaves it half done. */
    method StartPeer(peerHost: string, peerIp: Address) returns (raised: bool)
      requires peerIp !in bgpPeerDict
      modifies this, disk
      ensures Current() == OpenPeer(env, old(Current()), peerHost, peerIp)
      ensures peerIp in bgpPeerDict && raised == !bgpPeerDict[peerIp].Ready()
    {
      if Path(peerHost, peerIp) !in disk.tree {
        StartNewPeer(peerHost, peerIp);
        raised := false;
      } else {
        raised := StartKnownPeer(peerHost, peerIp);
      }
    }

    /** The first message of a peer: a directory, a file named by the time, number 1. */
    method StartNewPeer(peerHost: string, peerIp: Address)
      requires Path(peerHost, peerIp) !in disk.tree
      modifies this, disk
      ensures Current() == OpenPeer(env, old(Current()), peerHost, peerIp)
    {
      var peerMsgPath := Path(peerHost, peerIp);
      bgpPeerDict := bgpPeerDict[peerIp := Entry(None, None)];
      disk.tree := disk.tree[peerMsgPath := []];
      var now := Time();
      var msgFile := FileRef(peerMsgPath, now + ".msg");
      bgpPeerDict := bgpPeerDict[peerIp := Entry(Some(1), None)];
      disk.tree := disk.tree[peerMsgPath := [NamedFile(msgFile.name, [])]];
      bgpPeerDict := bgpPeerDict[peerIp := Entry(Some(1), Some(msgFile))];
    }

    /** A peer with a directory: the latest file, and the number after its last line. */
    method StartKnownPeer(peerHost: string, peerIp: Address) returns (raised: bool)
      requires Path(peerHost, peerIp) in disk.tree
      modifies this
      ensures Current() == OpenPeer(env, old(Current()), peerHost, peerIp)
      ensures peerIp in bgpPeerDict && raised == !bgpPeerDict[peerIp].Ready()
    {
      var peerMsgPath := Path(peerHost, peerIp);
      bgpPeerDict := bgpPeerDict[peerIp := Entry(None, None)];
      var found := FindLatest(disk.tree[peerMsgPath]);
      if found.Raise? {
        return true;
      }
      var (msgFileName, msgSeq) := found.value;
      bgpPeerDict := bgpPeerDict[peerIp := Entry(Some(msgSeq), None)];
      bgpPeerDict := bgpPeerDict[peerIp := Entry(Some(msgSeq), Some(FileRef(peerMsgPath, msgFileName)))];
      raised := false;
    }

    method Write(peerHost: string, msg: Decoded) returns (raised: bool)
      requires Logged(msg) && msg.header.addr in bgpPeerDict
      modifies this, disk
      ensures Current() == WriteLine(env, old(Current()), peerHost, msg)
    {
      var peerIp := msg.header.addr;
      var now := Time();
      var e := bgpPeerDict[peerIp];
      if e.msgSeq.None? || e.file.None? {
        return true;
      }
      var FileRef(dir, name) := e.file.value;
      var record := RecordOf(msg, now, e.msgSeq.value);
      if dir in disk.tree {
        disk.tree := disk.tree[dir := Append(disk.tree[dir], name, env.str(record) + [NEWLINE])];
      }
      journal := journal + [Line(peerHost, dir, record)];
      bgpPeerDict := bgpPeerDict[peerIp := e.(msgSeq := Some(e.msgSeq.value + 1))];
      raised := false;
    }
  }
}
