/** Runs from any disk: several files in a directory, left by earlier processes or by
    other programs. What holds is said for one peer directory at a time, whatever the
    rest of the disk and of the memory looks like. */
module Continuation {
  import opened Bytes
  import opened LogFile
  import opened PeerHeader
  import opened Message
  import opened Handler
  import opened Runs
  import opened Numbering

  predicate WritesTo(s: State, dir: Path) {
    dir.ip in s.peers && s.peers[dir.ip].Ready() && s.peers[dir.ip].file.value.dir == dir
  }

  /** The directory is new, or has a latest file with something in it; an entry that
      writes to the directory writes to its latest file. */
  predicate Followed(s: State, dir: Path) {
    && (dir in s.disk ==>
          s.disk[dir] != [] && DistinctNames(s.disk[dir]) && Latest(s.disk[dir]).content != [])
    && (WritesTo(s, dir) ==> dir in s.disk && s.peers[dir.ip].file.value.name == Latest(s.disk[dir]).name)
  }

  function LatestContent(s: State, dir: Path): bytes {
    if dir in s.disk && s.disk[dir] != [] then Latest(s.disk[dir]).content else []
  }

  /** The same files by name, the same of them the latest, and all others untouched. */
  predicate OnlyLatestGrows(before: Directory, after: Directory)
    requires before != []
  {
    && |after| == |before|
    && Latest(after).name == Latest(before).name
    && forall i :: 0 <= i < |before| ==>
         && after[i].name == before[i].name
         && (before[i].name != Latest(before).name ==> after[i] == before[i])
  }

  /** The records written to the directory between two states. */
  function Added(s: State, t: State, dir: Path): seq<Record> {
    if |s.journal| <= |t.journal| then RecordsIn(t.journal[|s.journal|..], dir) else []
  }

  /** Between the states the latest file grew, at its end, by the added records. */
  ghost predicate Grew(env: Env, s: State, t: State, dir: Path) {
    && Followed(t, dir) && s.journal <= t.journal
    && (dir in s.disk && s.disk[dir] != [] ==> dir in t.disk && OnlyLatestGrows(s.disk[dir], t.disk[dir]))
    && LatestContent(t, dir) == LatestContent(s, dir) + Render(env, Added(s, t, dir))
  }

  // ---- one message ----

  lemma {:induction false} RenderOne(env: Env, r: Record)
    ensures Render(env, [r]) == env.str(r) + [NEWLINE]
  {
    RenderAppend(env, [], r);
    assert [] + [r] == [r];
    assert [] + (env.str(r) + [NEWLINE]) == env.str(r) + [NEWLINE];
  }

  lemma {:induction false} AddedOne(env: Env, s: State, t: State, line: Line)
    requires t.journal == s.journal + [line]
    ensures Added(s, t, line.dir) == [line.record]
    ensures Render(env, Added(s, t, line.dir)) == env.str(line.record) + [NEWLINE]
    ensures forall dir :: dir != line.dir ==> Added(s, t, dir) == []
  {
    assert t.journal[|s.journal|..] == [] + [line];
    forall dir ensures Added(s, t, dir) == if dir == line.dir then [line.record] else [] {
      RecordsInAppend([], line, dir);
    }
    RenderOne(env, line.record);
  }

  /** A file that is the latest stays so with any other content. */
  lemma {:induction false} StaysLatest(files: Directory, i: nat, content: bytes)
    requires DistinctNames(files) && i < |files| && files[i] == Latest(files)
    ensures var after := files[i := NamedFile(files[i].name, content)];
      DistinctNames(after) && Latest(after) == after[i]
  {
    var after := files[i := NamedFile(files[i].name, content)];
    forall g | g in after ensures Leq(g.name, after[i].name) {
      var k :| 0 <= k < |after| && after[k] == g;
      assert files[k] in files && files[k].name == g.name;
    }
    LatestIsUnique(after, after[i]);
  }

  lemma {:induction false} LatestGrows(files: Directory, data: bytes)
    requires files != [] && DistinctNames(files)
    ensures var after := Append(files, Latest(files).name, data);
      && after != [] && DistinctNames(after) && OnlyLatestGrows(files, after)
      && Latest(after).content == Latest(files).content + data
  {
    var i :| 0 <= i < |files| && files[i] == Latest(files);
    AppendIsUpdate(files, i, data);
    StaysLatest(files, i, files[i].content + data);
    OneGrows(files, i, NamedFile(files[i].name, files[i].content + data));
  }

  lemma {:induction false} OneGrows(files: Directory, i: nat, grown: NamedFile)
    requires DistinctNames(files) && i < |files| && files[i] == Latest(files) && grown.name == files[i].name
    requires Latest(files[i := grown]) == grown
    ensures OnlyLatestGrows(files, files[i := grown])
  {
    var after := files[i := grown];
    forall k | 0 <= k < |files| && files[k].name != Latest(files).name ensures after[k] == files[k] {
    }
  }

  lemma {:induction false} WriteGrows(env: Env, s: State, host: string, d: Decoded, dir: Path)
    requires Logged(d) && d.header.addr == dir.ip && WritesTo(s, dir) && Followed(s, dir)
    ensures Grew(env, s, WriteLine(env, s, host, d), dir)
  {
    var t, line := WriteLine(env, s, host, d), LineOf(env, s, host, d);
    LatestGrows(s.disk[dir], env.str(line.record) + [NEWLINE]);
    AddedOne(env, s, t, line);
  }

  /** A new directory: one file with one line. */
  lemma {:induction false} NewGrows(env: Env, s: State, host: string, d: Decoded)
    requires Logged(d) && d.header.addr !in s.peers && Path(host, d.header.addr) !in s.disk
    ensures var dir, t := Path(host, d.header.addr), OnMessage(env, s, host, d);
      Grew(env, s, t, dir) && t.peers[dir.ip].msgSeq == Some(2)
      && |Added(s, t, dir)| == 1 && Added(s, t, dir)[0].seqNo == 1
  {
    var dir, t := Path(host, d.header.addr), OnMessage(env, s, host, d);
    var mid := OpenPeer(env, s, host, dir.ip);
    var name, line := env.clock(s.ticks) + ".msg", LineOf(env, mid, host, d);
    AppendToOne([NamedFile(name, [])], name, env.str(line.record) + [NEWLINE]);
    LatestOfOne(t.disk[dir]);
    AddedOne(env, s, t, line);
  }

  /** Opening a directory again: its latest file goes on. */
  lemma {:induction false} ReopenFollows(env: Env, s: State, host: string, ip: Address)
    requires ip !in s.peers && Path(host, ip) in s.disk && Followed(s, Path(host, ip))
    ensures var dir, mid := Path(host, ip), OpenPeer(env, s, host, ip);
      && mid == s.(peers := s.peers[ip := mid.peers[ip]])
      && WritesTo(mid, dir) && Followed(mid, dir)
      && LastSeq(env, LatestContent(s, dir)) == Ok(mid.peers[ip].msgSeq.value)
  {
  }

  /** A message that does not go to the directory. */
  predicate GoesElsewhere(s: State, host: string, d: Decoded, dir: Path) {
    Logged(d) && d.header.addr == dir.ip ==> if dir.ip in s.peers then !WritesTo(s, dir) else Path(host, dir.ip) != dir
  }

  lemma {:induction false} ElsewhereKeeps(env: Env, s: State, host: string, d: Decoded, dir: Path)
    requires OwnFiles(s) && Followed(s, dir) && GoesElsewhere(s, host, d, dir)
    ensures var t := OnMessage(env, s, host, d);
      && Grew(env, s, t, dir) && Added(s, t, dir) == []
      && (WritesTo(t, dir) <==> WritesTo(s, dir))
      && (WritesTo(t, dir) ==> t.peers[dir.ip].msgSeq == s.peers[dir.ip].msgSeq)
  {
    var t := OnMessage(env, s, host, d);
    if Logged(d) && d.header.addr != dir.ip {
      OtherPeersUntouched(env, s, host, d, dir.ip);
    }
    ElsewhereAddsNothing(env, s, host, d, dir);
    assert LatestContent(s, dir) + [] == LatestContent(s, dir);
  }

  lemma {:induction false} WriteElsewhere(env: Env, s: State, host: string, d: Decoded, dir: Path)
    requires Logged(d) && d.header.addr in s.peers
    requires s.peers[d.header.addr].Ready() ==> s.peers[d.header.addr].file.value.dir != dir
    ensures var t := WriteLine(env, s, host, d);
      && s.journal <= t.journal && Added(s, t, dir) == []
      && (dir in t.disk <==> dir in s.disk) && (dir in s.disk ==> t.disk[dir] == s.disk[dir])
  {
    var t := WriteLine(env, s, host, d);
    if s.peers[d.header.addr].Ready() {
      AddedOne(env, s, t, LineOf(env, s, host, d));
    } else {
      assert t.journal[|s.journal|..] == [];
    }
  }

  lemma {:induction false} ElsewhereAddsNothing(env: Env, s: State, host: string, d: Decoded, dir: Path)
    requires OwnFiles(s) && GoesElsewhere(s, host, d, dir)
    ensures var t := OnMessage(env, s, host, d);
      && s.journal <= t.journal && Added(s, t, dir) == []
      && (dir in t.disk <==> dir in s.disk) && (dir in s.disk ==> t.disk[dir] == s.disk[dir])
  {
    if !Logged(d) {
      assert s.journal[|s.journal|..] == [];
    } else if d.header.addr in s.peers {
      WriteElsewhere(env, s, host, d, dir);
    } else {
      OpenElsewhere(env, s, host, d.header.addr, dir);
      var mid := OpenPeer(env, s, host, d.header.addr);
      if mid.peers[d.header.addr].Ready() {
        WriteElsewhere(env, mid, host, d, dir);
      } else {
        assert s.journal[|s.journal|..] == [];
      }
    }
  }

  lemma {:induction false} OpenElsewhere(env: Env, s: State, host: string, ip: Address, dir: Path)
    requires ip !in s.peers && Path(host, ip) != dir
    ensures var mid := OpenPeer(env, s, host, ip);
      && mid.journal == s.journal && ip in mid.peers
      && (mid.peers[ip].Ready() ==> mid.peers[ip].file.value.dir == Path(host, ip))
      && (dir in mid.disk <==> dir in s.disk) && (dir in s.disk ==> mid.disk[dir] == s.disk[dir])
  {
  }

  lemma {:induction false} ArrivalKeepsOwnFiles(env: Env, s: State, host: string, d: Decoded)
    requires OwnFiles(s)
    ensures OwnFiles(OnMessage(env, s, host, d))
  {
    if Logged(d) && d.header.addr !in s.peers {
      var mid := OpenPeer(env, s, host, d.header.addr);
      assert OwnFiles(mid);
    }
  }

  lemma {:induction false} ArrivalGrows(env: Env, s: State, host: string, d: Decoded, dir: Path)
    requires OwnFiles(s) && Followed(s, dir)
    ensures Grew(env, s, OnMessage(env, s, host, d), dir)
  {
    if GoesElsewhere(s, host, d, dir) {
      ElsewhereKeeps(env, s, host, d, dir);
    } else if dir.ip in s.peers {
      WriteGrows(env, s, host, d, dir);
    } else if dir in s.disk {
      ReopenFollows(env, s, host, dir.ip);
      WriteGrows(env, OpenPeer(env, s, host, dir.ip), host, d, dir);
    } else {
      NewGrows(env, s, host, d);
    }
  }

  // ---- whole runs ----

  lemma {:induction false} RecordsInConcat(a: seq<Line>, b: seq<Line>, dir: Path)
    ensures RecordsIn(a + b, dir) == RecordsIn(a, dir) + RecordsIn(b, dir)
    decreases |b|
  {
    if b == [] {
      assert a + b == a;
    } else {
      assert (a + b)[..|a + b| - 1] == a + b[..|b| - 1];
      RecordsInConcat(a, b[..|b| - 1], dir);
    }
  }

  lemma {:induction false} AddedCompose(s: State, mid: State, t: State, dir: Path)
    requires s.journal <= mid.journal <= t.journal
    ensures Added(s, t, dir) == Added(s, mid, dir) + Added(mid, t, dir)
  {
    var a, b := mid.journal[|s.journal|..], t.journal[|mid.journal|..];
    assert t.journal[|s.journal|..] == a + b;
    RecordsInConcat(a, b, dir);
  }

  lemma {:induction false} OnlyLatestComposes(a: Directory, b: Directory, c: Directory)
    requires a != [] && b != [] && OnlyLatestGrows(a, b) && OnlyLatestGrows(b, c)
    ensures OnlyLatestGrows(a, c)
  {
    assert forall i :: 0 <= i < |a| && a[i].name != Latest(a).name ==> b[i] == a[i] && c[i] == b[i];
  }

  lemma {:induction false} ContentComposes(env: Env, a: bytes, b: bytes, c: bytes, rs: seq<Record>, qs: seq<Record>)
    requires b == a + Render(env, rs) && c == b + Render(env, qs)
    ensures c == a + Render(env, rs + qs)
  {
    RenderConcat(env, rs, qs);
  }

  lemma {:induction false} GrowthComposes(env: Env, s: State, mid: State, t: State, dir: Path)
    requires Followed(s, dir) && Grew(env, s, mid, dir) && Grew(env, mid, t, dir)
    ensures Grew(env, s, t, dir)
  {
    AddedCompose(s, mid, t, dir);
    ContentComposes(env, LatestContent(s, dir), LatestContent(mid, dir), LatestContent(t, dir),
                    Added(s, mid, dir), Added(mid, t, dir));
    if dir in s.disk {
      OnlyLatestComposes(s.disk[dir], mid.disk[dir], t.disk[dir]);
    }
  }

  lemma {:induction false} NothingGrew(env: Env, s: State, t: State, dir: Path)
    requires Followed(s, dir) && Followed(t, dir) && t.disk == s.disk && t.journal == s.journal
    ensures Grew(env, s, t, dir) && Added(s, t, dir) == []
  {
    assert t.journal[|s.journal|..] == [];
    assert LatestContent(s, dir) + [] == LatestContent(s, dir);
  }

  lemma {:induction false} StepGrows(env: Env, s: State, e: Event, dir: Path)
    requires OwnFiles(s) && Followed(s, dir)
    ensures OwnFiles(Step(env, s, e)) && Grew(env, s, Step(env, s, e), dir)
  {
    match e
    case Arrival(host, d) =>
      ArrivalKeepsOwnFiles(env, s, host, d);
      ArrivalGrows(env, s, host, d, dir);
    case Restart =>
      NothingGrew(env, s, Step(env, s, e), dir);
  }

  /** From any state, on any disk, over every run with restarts, for any str, eval and
      clock: in a directory that is new or has a latest file with something in it, all
      files but the latest stay as they are, the latest stays the latest, and it grows
      by exactly the records of the run that go to the directory. */
  lemma {:induction false} RunsGrowLatest(env: Env, s: State, es: seq<Event>, dir: Path)
    requires OwnFiles(s) && Followed(s, dir)
    ensures OwnFiles(Run(env, s, es)) && Grew(env, s, Run(env, s, es), dir)
  {
    if es == [] {
      NothingGrew(env, s, s, dir);
    } else {
      var mid := Run(env, s, es[..|es| - 1]);
      RunsGrowLatest(env, s, es[..|es| - 1], dir);
      StepGrows(env, mid, es[|es| - 1], dir);
      GrowthComposes(env, s, mid, Run(env, s, es), dir);
    }
  }

  // ---- numbers ----

  /** Complete lines. */
  predicate Complete(content: bytes) {
    content == [] || content[|content| - 1] == NEWLINE
  }

  /** Complete lines that evaluate to 1, 2, ..., n. */
  ghost predicate Numbered(env: Env, content: bytes) {
    Complete(content) && ReadsNumbered(env, content, |Lines(content)|)
  }

  /** The latest file is numbered and the entry, if there is one, counts its lines. */
  ghost predicate InStep(env: Env, s: State, dir: Path) {
    && Followed(s, dir) && Numbered(env, LatestContent(s, dir))
    && (WritesTo(s, dir) ==> s.peers[dir.ip].msgSeq.value == |Lines(LatestContent(s, dir))| + 1)
  }

  predicate Single(env: Env, rs: seq<Record>) {
    forall r :: r in rs ==> NEWLINE !in env.str(r)
  }

  predicate Good(env: Env, rs: seq<Record>) {
    forall r :: r in rs ==> GoodLine(env, r)
  }

  lemma {:induction false} NextOfNumbered(env: Env, content: bytes)
    requires content != [] && Numbered(env, content)
    ensures LastSeq(env, content) == Ok(|Lines(content)| + 1)
  {
    var lines := Lines(content);
    assert env.eval(lines[|lines| - 1]) == Some(|lines|);
  }

  /** One more single line with the next number: numbered before and the line good,
      exactly if numbered after. */
  lemma {:induction false} OneMoreNumbered(env: Env, content: bytes, r: Record)
    requires Complete(content) && NEWLINE !in env.str(r)
    ensures var after := content + (env.str(r) + [NEWLINE]);
      && Complete(after) && |Lines(after)| == |Lines(content)| + 1
      && (Numbered(env, after) <==>
          Numbered(env, content) && env.eval(env.str(r) + [NEWLINE]) == Some(|Lines(content)| + 1))
  {
    var line := env.str(r) + [NEWLINE];
    var after := content + line;
    LinesAppend(content, line);
    assert after[|after| - 1] == line[|line| - 1];
    assert Lines(after)[|Lines(content)|] == line;
    assert forall i :: 0 <= i < |Lines(content)| ==> Lines(after)[i] == Lines(content)[i];
  }

  /** In step, a message adds at most one line, with the next number, and the entry
      goes on counting. */
  ghost predicate AddsNext(s: State, t: State, dir: Path) {
    var n, added := |Lines(LatestContent(s, dir))|, Added(s, t, dir);
    && |added| <= 1
    && (added != [] ==> added[0].seqNo == n + 1)
    && (WritesTo(t, dir) ==> t.peers[dir.ip].msgSeq.value == n + |added| + 1)
  }

  lemma {:induction false} WriteAddsNext(env: Env, s: State, host: string, d: Decoded, dir: Path)
    requires Logged(d) && d.header.addr == dir.ip && WritesTo(s, dir)
    requires s.peers[dir.ip].msgSeq.value == |Lines(LatestContent(s, dir))| + 1
    ensures AddsNext(s, WriteLine(env, s, host, d), dir)
  {
    AddedOne(env, s, WriteLine(env, s, host, d), LineOf(env, s, host, d));
  }

  lemma {:induction false} ArrivalAddsNext(env: Env, s: State, host: string, d: Decoded, dir: Path)
    requires OwnFiles(s) && InStep(env, s, dir)
    ensures AddsNext(s, OnMessage(env, s, host, d), dir)
  {
    if GoesElsewhere(s, host, d, dir) {
      ElsewhereKeeps(env, s, host, d, dir);
    } else if dir.ip in s.peers {
      WriteAddsNext(env, s, host, d, dir);
    } else if dir in s.disk {
      ReopenFollows(env, s, host, dir.ip);
      NextOfNumbered(env, LatestContent(s, dir));
      WriteAddsNext(env, OpenPeer(env, s, host, dir.ip), host, d, dir);
    } else {
      NewGrows(env, s, host, d);
    }
  }

  lemma {:induction false} StepAddsNext(env: Env, s: State, e: Event, dir: Path)
    requires OwnFiles(s) && InStep(env, s, dir)
    ensures AddsNext(s, Step(env, s, e), dir)
  {
    match e
    case Arrival(host, d) => ArrivalAddsNext(env, s, host, d, dir);
    case Restart => NothingGrew(env, s, Step(env, s, e), dir);
  }

  lemma {:induction false} AtMostOneNumbered(env: Env, content: bytes, added: seq<Record>)
    requires Numbered(env, content) && Single(env, added) && |added| <= 1
    requires added != [] ==> added[0].seqNo == |Lines(content)| + 1
    ensures var after := content + Render(env, added);
      (Numbered(env, after) <==> Good(env, added)) && |Lines(after)| == |Lines(content)| + |added|
  {
    if added == [] {
      assert content + [] == content;
    } else {
      assert added == [added[0]];
      RenderOne(env, added[0]);
      OneMoreNumbered(env, content, added[0]);
    }
  }

  lemma {:induction false} AddedIsNumbered(env: Env, s: State, t: State, dir: Path)
    requires InStep(env, s, dir) && Grew(env, s, t, dir) && AddsNext(s, t, dir)
    requires Single(env, Added(s, t, dir))
    ensures Numbered(env, LatestContent(t, dir)) <==> Good(env, Added(s, t, dir))
    ensures Numbered(env, LatestContent(t, dir)) ==> InStep(env, t, dir)
  {
    AtMostOneNumbered(env, LatestContent(s, dir), Added(s, t, dir));
  }

  lemma {:induction false} RenderBehind(env: Env, content: bytes, rs: seq<Record>)
    requires rs != []
    ensures content + Render(env, rs)
         == content + Render(env, rs[..|rs| - 1]) + (env.str(rs[|rs| - 1]) + [NEWLINE])
  {
  }

  lemma {:induction false} RenderedNumberedBefore(env: Env, content: bytes, rs: seq<Record>)
    requires Complete(content) && Single(env, rs)
    ensures Complete(content + Render(env, rs))
    ensures Numbered(env, content + Render(env, rs)) ==> Numbered(env, content)
    decreases |rs|
  {
    if rs == [] {
      assert content + [] == content;
    } else {
      var front, r := rs[..|rs| - 1], rs[|rs| - 1];
      RenderedNumberedBefore(env, content, front);
      assert r in rs;
      OneMoreNumbered(env, content + Render(env, front), r);
      RenderBehind(env, content, rs);
    }
  }

  /** From any state in step with a directory, on any disk, over every run with
      restarts: if the lines added to the directory have no breaks, its latest file
      stays numbered 1, 2, ..., n, earlier lines included, if and only if every line
      added evaluates back to its number; and then the entry is in step again. */
  lemma {:induction false} RunsContinueExactly(env: Env, s: State, es: seq<Event>, dir: Path)
    requires OwnFiles(s) && InStep(env, s, dir)
    requires Single(env, Added(s, Run(env, s, es), dir))
    ensures var t := Run(env, s, es);
      && (Numbered(env, LatestContent(t, dir)) <==> Good(env, Added(s, t, dir)))
      && (Numbered(env, LatestContent(t, dir)) ==> InStep(env, t, dir))
  {
    if es == [] {
      NothingGrew(env, s, s, dir);
    } else {
      var front, e := es[..|es| - 1], es[|es| - 1];
      var mid, t := Run(env, s, front), Run(env, s, es);
      RunsGrowLatest(env, s, front, dir);
      StepGrows(env, mid, e, dir);
      AddedCompose(s, mid, t, dir);
      RunsContinueExactly(env, s, front, dir);
      RenderedNumberedBefore(env, LatestContent(s, dir), Added(s, mid, dir));
      RenderedNumberedBefore(env, LatestContent(mid, dir), Added(mid, t, dir));
      if Numbered(env, LatestContent(mid, dir)) {
        StepAddsNext(env, mid, e, dir);
        AddedIsNumbered(env, mid, t, dir);
      }
    }
  }

  // ---- the whole disk ----

  /** Distinct names and a numbered latest file with something in it. */
  ghost predicate GoodDirectory(env: Env, files: Directory) {
    && files != [] && DistinctNames(files)
    && Latest(files).content != [] && Numbered(env, Latest(files).content)
  }

  ghost predicate GoodDisk(env: Env, s: State) {
    forall dir :: dir in s.disk ==> GoodDirectory(env, s.disk[dir])
  }

  /** The lines added between two states. */
  function AddedLines(s: State, t: State): seq<Line> {
    if |s.journal| <= |t.journal| then t.journal[|s.journal|..] else []
  }

  lemma {:induction false} AddedAreLines(s: State, t: State, dir: Path)
    ensures forall r :: r in Added(s, t, dir) ==>
              exists i :: 0 <= i < |AddedLines(s, t)| && AddedLines(s, t)[i].record == r
  {
    RecordsAreWritten(AddedLines(s, t), dir);
  }

  /** A process start on a disk with several files per directory, left by whatever
      runs: if no line written has breaks, the disk is numbered in the latest files
      again, after any further run, if and only if every line written evaluates back. */
  lemma {:induction false} DiskContinuesExactly(env: Env, s: State, es: seq<Event>)
    requires s.peers == map[] && GoodDisk(env, s)
    requires forall i :: 0 <= i < |AddedLines(s, Run(env, s, es))| ==>
               NEWLINE !in env.str(AddedLines(s, Run(env, s, es))[i].record)
    ensures var t := Run(env, s, es);
      GoodDisk(env, t) <==> forall i :: 0 <= i < |AddedLines(s, t)| ==> GoodLine(env, AddedLines(s, t)[i].record)
  {
    var t := Run(env, s, es);
    var lines := AddedLines(s, t);
    forall dir ensures Followed(t, dir)
      && (Numbered(env, LatestContent(t, dir)) <==> Good(env, Added(s, t, dir)))
    {
      AddedAreLines(s, t, dir);
      RunsGrowLatest(env, s, es, dir);
      RunsContinueExactly(env, s, es, dir);
    }
    if GoodDisk(env, t) {
      forall i | 0 <= i < |lines| ensures GoodLine(env, lines[i].record) {
        EveryLineIsInItsDirectory(lines, i);
        assert Good(env, Added(s, t, lines[i].dir));
      }
    }
    if forall i :: 0 <= i < |lines| ==> GoodLine(env, lines[i].record) {
      forall dir | dir in t.disk ensures GoodDirectory(env, t.disk[dir]) {
        AddedAreLines(s, t, dir);
        assert Followed(t, dir) && LatestContent(t, dir) == Latest(t.disk[dir]).content;
      }
    }
  }
}
