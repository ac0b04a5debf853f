/** The numbers in the log files: when a run is numbered 1, 2, ..., n in every file. */
module Numbering {
  import opened Bytes
  import opened Bgp
  import opened LogFile
  import opened PeerHeader
  import opened Message
  import opened Handler
  import opened Runs
  import Framing

  predicate NumberedFromOne(rs: seq<Record>) {
    forall i :: 0 <= i < |rs| ==> rs[i].seqNo == i + 1
  }

  /** Every file's lines carry 1, 2, ..., n. */
  ghost predicate AllNumbered(s: State) {
    forall dir :: NumberedFromOne(RecordsIn(s.journal, dir))
  }

  /** Every filled entry counts one more than the lines in its file. */
  ghost predicate CountersMatch(s: State) {
    forall ip :: ip in s.peers && s.peers[ip].Ready() ==>
      s.peers[ip].msgSeq.value == |RecordsIn(s.journal, s.peers[ip].file.value.dir)| + 1
  }

  // ---- one run ----

  /** If the message makes the handler read a number off the disk, it reads one more
      than the lines there. */
  predicate ReadsRight(env: Env, s: State, e: Event) {
    e.Arrival? && Logged(e.d) && e.d.header.addr !in s.peers && Path(e.host, e.d.header.addr) in s.disk ==>
      var dir := Path(e.host, e.d.header.addr);
      FirstSeq(env, s, dir) == Ok(|RecordsIn(s.journal, dir)| + 1)
  }

  predicate AlwaysReadsRight(env: Env, es: seq<Event>) {
    es == [] ||
    (AlwaysReadsRight(env, es[..|es| - 1]) && ReadsRight(env, Run(env, FRESH, es[..|es| - 1]), es[|es| - 1]))
  }

  lemma {:induction false} NumberedBefore(env: Env, s: State, t: State, ip: Address, line: Line)
    requires Wrote(env, s, t, ip, line) && AllNumbered(t)
    ensures AllNumbered(s)
  {
    WroteRecords(env, s, t, ip, line);
    forall dir ensures NumberedFromOne(RecordsIn(s.journal, dir)) {
      var before, after := RecordsIn(s.journal, dir), RecordsIn(t.journal, dir);
      assert NumberedFromOne(after) && forall i :: 0 <= i < |before| ==> before[i] == after[i];
    }
  }

  lemma {:induction false} WroteNumbers(env: Env, s: State, t: State, ip: Address, line: Line)
    requires Wrote(env, s, t, ip, line) && AllNumbered(s)
    ensures AllNumbered(t) <==> line.record.seqNo == |RecordsIn(s.journal, line.dir)| + 1
  {
    WroteRecords(env, s, t, ip, line);
    forall dir ensures dir != line.dir ==> NumberedFromOne(RecordsIn(t.journal, dir)) {
      assert NumberedFromOne(RecordsIn(s.journal, dir));
    }
    var rs := RecordsIn(s.journal, line.dir);
    assert NumberedFromOne(rs);
    assert NumberedFromOne(rs + [line.record]) <==> line.record.seqNo == |rs| + 1 by {
      assert (rs + [line.record])[|rs|] == line.record;
    }
  }

  lemma {:induction false} WroteCounts(env: Env, s: State, t: State, ip: Address, line: Line)
    requires Wrote(env, s, t, ip, line) && CountersMatch(s)
    requires forall other :: other in s.peers ==> Attached(s, other)
    ensures CountersMatch(t)
  {
    WroteRecords(env, s, t, ip, line);
    forall other | other in t.peers && t.peers[other].Ready()
      ensures t.peers[other].msgSeq.value == |RecordsIn(t.journal, t.peers[other].file.value.dir)| + 1
    {
      assert Attached(s, other);
    }
  }

  /** Opening takes the right number from a new directory, and from an old one if it
      reads right. */
  lemma {:induction false} StartedCounts(env: Env, s: State, mid: State, host: string, d: Decoded)
    requires Consistent(env, s) && CountersMatch(s) && Logged(d) && d.header.addr !in s.peers
    requires Started(env, s, mid, host, d.header.addr)
    ensures var dir := Path(host, d.header.addr);
      ReadsRight(env, s, Arrival(host, d)) <==>
      mid.peers[d.header.addr].msgSeq.value == |RecordsIn(s.journal, dir)| + 1
    ensures ReadsRight(env, s, Arrival(host, d)) ==> CountersMatch(mid)
  {
  }

  lemma {:induction false} ArrivalNumbersExactly(env: Env, s: State, host: string, d: Decoded)
    requires Consistent(env, s) && Logged(d) && AllNumbered(s) && CountersMatch(s)
    ensures var t := OnMessage(env, s, host, d);
      && (AllNumbered(t) <==> ReadsRight(env, s, Arrival(host, d)))
      && (AllNumbered(t) ==> CountersMatch(t))
  {
    var ip, t := d.header.addr, OnMessage(env, s, host, d);
    var mid, line := ArrivalWrites(env, s, host, d);
    if ip !in s.peers {
      StartedCounts(env, s, mid, host, d);
    }
    WroteNumbers(env, mid, t, ip, line);
    if AllNumbered(t) {
      WroteCounts(env, mid, t, ip, line);
    }
  }

  lemma {:induction false} ArrivalNumberedBefore(env: Env, s: State, host: string, d: Decoded)
    requires Consistent(env, s) && AllNumbered(OnMessage(env, s, host, d))
    ensures AllNumbered(s)
  {
    if Logged(d) {
      var mid, line := ArrivalWrites(env, s, host, d);
      NumberedBefore(env, mid, OnMessage(env, s, host, d), d.header.addr, line);
    }
  }

  /** A run from an empty write directory is numbered 1, 2, ..., n in every file if
      and only if each number the handler read off the disk was one more than the
      lines there; then every entry counts on correctly. Nothing is assumed of str,
      eval or the clock. */
  lemma {:induction false} NumberedExactly(env: Env, es: seq<Event>)
    ensures AllNumbered(Run(env, FRESH, es)) <==> AlwaysReadsRight(env, es)
    ensures AllNumbered(Run(env, FRESH, es)) ==> CountersMatch(Run(env, FRESH, es))
  {
    if es != [] {
      var front, e := es[..|es| - 1], es[|es| - 1];
      var s := Run(env, FRESH, front);
      NumberedExactly(env, front);
      RunsAreConsistent(env, front);
      if e.Arrival? {
        if AllNumbered(Run(env, FRESH, es)) {
          ArrivalNumberedBefore(env, s, e.host, e.d);
        }
        if AllNumbered(s) && Logged(e.d) {
          ArrivalNumbersExactly(env, s, e.host, e.d);
        }
      }
    }
  }

  // ---- what is read off the disk ----

  /** Reading a file back as lines gives one line per record. */
  lemma {:induction false} LinesOfRender(env: Env, rs: seq<Record>)
    requires forall r :: r in rs ==> NEWLINE !in env.str(r)
    ensures |Lines(Render(env, rs))| == |rs|
    ensures forall i :: 0 <= i < |rs| ==> Lines(Render(env, rs))[i] == env.str(rs[i]) + [NEWLINE]
  {
    if rs != [] {
      LinesOfRender(env, rs[..|rs| - 1]);
      assert rs[|rs| - 1] in rs;
      LinesOfLonger(env, rs);
    }
  }

  lemma {:induction false} LinesOfLonger(env: Env, rs: seq<Record>)
    requires rs != [] && NEWLINE !in env.str(rs[|rs| - 1])
    ensures Lines(Render(env, rs)) == Lines(Render(env, rs[..|rs| - 1])) + [env.str(rs[|rs| - 1]) + [NEWLINE]]
  {
    RenderEnds(env, rs[..|rs| - 1]);
    LinesAppend(Render(env, rs[..|rs| - 1]), env.str(rs[|rs| - 1]) + [NEWLINE]);
  }

  lemma {:induction false} RenderEnds(env: Env, rs: seq<Record>)
    ensures var b := Render(env, rs); b == [] || b[|b| - 1] == NEWLINE
  {
    if rs != [] {
      RenderNotEmpty(env, rs);
    }
  }

  /** The last line of a file is that of its last record, if that is a single line. */
  lemma {:induction false} LastLineOfRender(env: Env, rs: seq<Record>)
    requires rs != [] && NEWLINE !in env.str(rs[|rs| - 1])
    ensures Render(env, rs) != [] && LastLine(Render(env, rs)) == env.str(rs[|rs| - 1]) + [NEWLINE]
  {
    RenderNotEmpty(env, rs);
    LinesOfLonger(env, rs);
  }

  /** The guard that decides: a number is read right exactly when the last line of
      the file evaluates to the number of lines written there. */
  lemma {:induction false} ReadsRightExactly(env: Env, s: State, dir: Path)
    requires Consistent(env, s) && dir in s.disk
    ensures var content := s.disk[dir][0].content;
      && content != []
      && (FirstSeq(env, s, dir) == Ok(|RecordsIn(s.journal, dir)| + 1)
          <==> env.eval(LastLine(content)) == Some(|RecordsIn(s.journal, dir)|))
  {
    RenderNotEmpty(env, RecordsIn(s.journal, dir));
    LatestOfOne(s.disk[dir]);
  }

  // ---- lines that evaluate back ----

  /** The text of the record is a single line that evaluates to its number. */
  predicate GoodLine(env: Env, r: Record) {
    NEWLINE !in env.str(r) && env.eval(env.str(r) + [NEWLINE]) == Some(r.seqNo)
  }

  predicate GoodLines(env: Env, s: State) {
    forall i :: 0 <= i < |s.journal| ==> GoodLine(env, s.journal[i].record)
  }

  /** No line written has a line break of its own. */
  predicate SingleLines(env: Env, s: State) {
    forall i :: 0 <= i < |s.journal| ==> NEWLINE !in env.str(s.journal[i].record)
  }

  lemma {:induction false} RecordsAreWritten(journal: seq<Line>, dir: Path)
    ensures forall r :: r in RecordsIn(journal, dir) ==> exists i :: 0 <= i < |journal| && journal[i].record == r
  {
    if journal != [] {
      RecordsAreWritten(journal[..|journal| - 1], dir);
      forall r | r in RecordsIn(journal, dir) ensures exists i :: 0 <= i < |journal| && journal[i].record == r {
        if r in RecordsIn(journal[..|journal| - 1], dir) {
          var i :| 0 <= i < |journal| - 1 && journal[..|journal| - 1][i].record == r;
          assert journal[i].record == r;
        } else {
          assert journal[|journal| - 1].record == r;
        }
      }
    }
  }

  lemma {:induction false} RecordsInPrefix(a: seq<Line>, b: seq<Line>, dir: Path)
    requires a <= b
    ensures RecordsIn(a, dir) <= RecordsIn(b, dir)
    decreases |b|
  {
    if a != b {
      assert a <= b[..|b| - 1];
      RecordsInPrefix(a, b[..|b| - 1], dir);
    }
  }

  /** A step only adds to the history. */
  lemma {:induction false} JournalGrows(env: Env, es: seq<Event>)
    requires es != []
    ensures Run(env, FRESH, es[..|es| - 1]).journal <= Run(env, FRESH, es).journal
  {
    var front, e := es[..|es| - 1], es[|es| - 1];
    RunsAreConsistent(env, front);
    if e.Arrival? && Logged(e.d) {
      ArrivalIsWritten(env, Run(env, FRESH, front), e.host, e.d);
    }
  }

  lemma {:induction false} GoodReadsRight(env: Env, s: State, e: Event)
    requires Consistent(env, s) && GoodLines(env, s) && AllNumbered(s)
    ensures ReadsRight(env, s, e)
  {
    if e.Arrival? && Logged(e.d) && e.d.header.addr !in s.peers && Path(e.host, e.d.header.addr) in s.disk {
      var dir := Path(e.host, e.d.header.addr);
      var rs := RecordsIn(s.journal, dir);
      RecordsAreWritten(s.journal, dir);
      assert NumberedFromOne(rs) && rs[|rs| - 1] in rs && GoodLine(env, rs[|rs| - 1]);
      LastLineOfRender(env, rs);
      ReadsRightExactly(env, s, dir);
    }
  }

  /** A run all of whose lines evaluate back is numbered. */
  lemma {:induction false} RunsAreNumbered(env: Env, es: seq<Event>)
    requires GoodLines(env, Run(env, FRESH, es))
    ensures AllNumbered(Run(env, FRESH, es)) && CountersMatch(Run(env, FRESH, es))
  {
    if es != [] {
      var front := es[..|es| - 1];
      JournalGrows(env, es);
      RunsAreNumbered(env, front);
      RunsAreConsistent(env, front);
      GoodReadsRight(env, Run(env, FRESH, front), es[|es| - 1]);
      NumberedExactly(env, front);
    }
    NumberedExactly(env, es);
  }

  // ---- the files on disk ----

  /** A file that reads back as lines evaluating to 1, 2, ..., n. */
  ghost predicate ReadsNumbered(env: Env, content: bytes, n: nat) {
    && |Lines(content)| == n
    && forall i :: 0 <= i < n ==> env.eval(Lines(content)[i]) == Some(i + 1)
  }

  /** Every file on the disk is numbered, and every entry will write the next number. */
  ghost predicate DiskNumbered(env: Env, s: State) {
    && (forall dir :: dir in s.disk ==>
          |s.disk[dir]| == 1 && exists n: nat :: n > 0 && ReadsNumbered(env, s.disk[dir][0].content, n))
    && (forall ip :: ip in s.peers ==>
          && Attached(s, ip) && s.peers[ip].msgSeq.value > 0
          && ReadsNumbered(env, s.disk[s.peers[ip].file.value.dir][0].content, s.peers[ip].msgSeq.value - 1))
  }

  lemma {:induction false} RenderReadsNumbered(env: Env, rs: seq<Record>)
    requires NumberedFromOne(rs) && forall r :: r in rs ==> GoodLine(env, r)
    ensures ReadsNumbered(env, Render(env, rs), |rs|)
  {
    LinesOfRender(env, rs);
    forall i | 0 <= i < |rs| ensures env.eval(Lines(Render(env, rs))[i]) == Some(i + 1) {
      assert rs[i] in rs;
    }
  }

  /** The same as seen on the disk: every file reads back as lines that evaluate to
      1, 2, ..., n, and every filled entry will write number n + 1. */
  lemma {:induction false} FilesAreNumbered(env: Env, es: seq<Event>)
    requires GoodLines(env, Run(env, FRESH, es))
    ensures DiskNumbered(env, Run(env, FRESH, es))
  {
    var s := Run(env, FRESH, es);
    RunsAreConsistent(env, es);
    RunsAreNumbered(env, es);
    forall dir | dir in s.disk
      ensures ReadsNumbered(env, s.disk[dir][0].content, |RecordsIn(s.journal, dir)|)
    {
      RecordsAreWritten(s.journal, dir);
      assert NumberedFromOne(RecordsIn(s.journal, dir));
      RenderReadsNumbered(env, RecordsIn(s.journal, dir));
    }
  }

  /** In every directory, line i evaluates to i + 1, whatever number it was given. */
  ghost predicate LinesEvaluateInOrder(env: Env, s: State) {
    forall dir, i :: 0 <= i < |RecordsIn(s.journal, dir)| ==>
      env.eval(env.str(RecordsIn(s.journal, dir)[i]) + [NEWLINE]) == Some(i + 1)
  }

  lemma {:induction false} EvaluationReadsRight(env: Env, s: State, e: Event)
    requires Consistent(env, s) && SingleLines(env, s) && LinesEvaluateInOrder(env, s)
    ensures ReadsRight(env, s, e)
  {
    if e.Arrival? && Logged(e.d) && e.d.header.addr !in s.peers && Path(e.host, e.d.header.addr) in s.disk {
      var dir := Path(e.host, e.d.header.addr);
      var rs := RecordsIn(s.journal, dir);
      RecordsAreWritten(s.journal, dir);
      assert rs[|rs| - 1] in rs;
      LastLineOfRender(env, rs);
      ReadsRightExactly(env, s, dir);
    }
  }

  lemma {:induction false} EvaluationAlwaysReadsRight(env: Env, es: seq<Event>)
    requires SingleLines(env, Run(env, FRESH, es)) && LinesEvaluateInOrder(env, Run(env, FRESH, es))
    ensures AlwaysReadsRight(env, es)
  {
    if es != [] {
      var front := es[..|es| - 1];
      var s, t := Run(env, FRESH, front), Run(env, FRESH, es);
      JournalGrows(env, es);
      forall dir, i | 0 <= i < |RecordsIn(s.journal, dir)|
        ensures env.eval(env.str(RecordsIn(s.journal, dir)[i]) + [NEWLINE]) == Some(i + 1)
      {
        RecordsInPrefix(s.journal, t.journal, dir);
        assert RecordsIn(s.journal, dir)[i] == RecordsIn(t.journal, dir)[i];
      }
      EvaluationAlwaysReadsRight(env, front);
      RunsAreConsistent(env, front);
      EvaluationReadsRight(env, s, es[|es| - 1]);
    }
  }

  lemma {:induction false} NumberedDiskEvaluates(env: Env, s: State)
    requires Consistent(env, s) && SingleLines(env, s) && DiskNumbered(env, s)
    ensures LinesEvaluateInOrder(env, s)
  {
    forall dir, i | 0 <= i < |RecordsIn(s.journal, dir)|
      ensures env.eval(env.str(RecordsIn(s.journal, dir)[i]) + [NEWLINE]) == Some(i + 1)
    {
      RecordsAreWritten(s.journal, dir);
      LinesOfRender(env, RecordsIn(s.journal, dir));
      assert dir in s.disk;
      var n: nat :| n > 0 && ReadsNumbered(env, s.disk[dir][0].content, n);
    }
  }

  lemma {:induction false} EveryLineIsInItsDirectory(journal: seq<Line>, i: nat)
    requires i < |journal|
    ensures journal[i].record in RecordsIn(journal, journal[i].dir)
    decreases |journal|
  {
    if i < |journal| - 1 {
      EveryLineIsInItsDirectory(journal[..|journal| - 1], i);
    }
  }

  /** Exactly: if no line written in a run has a line break of its own, the files on
      disk read back as 1, 2, ..., n if and only if every line written evaluates back
      to its own number. */
  lemma {:induction false} FilesNumberedExactly(env: Env, es: seq<Event>)
    requires SingleLines(env, Run(env, FRESH, es))
    ensures DiskNumbered(env, Run(env, FRESH, es)) <==> GoodLines(env, Run(env, FRESH, es))
  {
    var s := Run(env, FRESH, es);
    if GoodLines(env, s) {
      FilesAreNumbered(env, es);
    }
    if DiskNumbered(env, s) {
      RunsAreConsistent(env, es);
      NumberedDiskEvaluates(env, s);
      EvaluationAlwaysReadsRight(env, es);
      NumberedExactly(env, es);
      forall i | 0 <= i < |s.journal| ensures GoodLine(env, s.journal[i].record) {
        var dir := s.journal[i].dir;
        EveryLineIsInItsDirectory(s.journal, i);
        assert NumberedFromOne(RecordsIn(s.journal, dir));
        var k :| 0 <= k < |RecordsIn(s.journal, dir)| && RecordsIn(s.journal, dir)[k] == s.journal[i].record;
      }
    }
  }

  // ---- all runs of messages that can be received ----

  /** A message that the bytes of some frame decode to. */
  ghost predicate Receivable(p: Parsers, d: Decoded) {
    exists f: Framing.Frame :: Framing.Encodable(f) && ConsumeOutcome(p, f.msgType, f.body) == Results(d)
  }

  ghost predicate AllReceivable(p: Parsers, es: seq<Event>) {
    forall e :: e in es && e.Arrival? ==> Receivable(p, e.d)
  }

  /** A record that a message which can be received leads to at one of the times. */
  ghost predicate Producible(p: Parsers, times: iset<string>, r: Record) {
    r.time in times && r.seqNo >= 1 &&
    exists d: Decoded :: Receivable(p, d) && Logged(d) && r == RecordOf(d, r.time, r.seqNo)
  }

  /** The text of every line that can come to be written is a single line. */
  ghost predicate SingleLine(p: Parsers, times: iset<string>, str: Record -> bytes) {
    forall r :: Producible(p, times, r) ==> NEWLINE !in str(r)
  }

  /** Every line that can come to be written evaluates back to its number. */
  ghost predicate EvaluatesBack(p: Parsers, times: iset<string>, str: Record -> bytes, eval: bytes -> Option<int>) {
    forall r :: Producible(p, times, r) ==> eval(str(r) + [NEWLINE]) == Some(r.seqNo)
  }

  /** A clock that only shows these times. */
  ghost predicate Shows(clock: nat -> string, times: iset<string>) {
    forall n: nat :: clock(n) in times
  }

  /** The record of a receivable message, at a time of the clock. */
  ghost predicate FromReceivable(env: Env, p: Parsers, r: Record) {
    && (exists k: nat :: r.time == env.clock(k))
    && exists d: Decoded :: Receivable(p, d) && Logged(d) && r == RecordOf(d, r.time, r.seqNo)
  }

  ghost predicate OfReceivable(env: Env, p: Parsers, s: State) {
    forall i :: 0 <= i < |s.journal| ==> FromReceivable(env, p, s.journal[i].record)
  }

  lemma {:induction false} RecordIsFromReceivable(env: Env, p: Parsers, d: Decoded, k: nat, n: int)
    requires Logged(d) && Receivable(p, d)
    ensures FromReceivable(env, p, RecordOf(d, env.clock(k), n))
  {
    var r := RecordOf(d, env.clock(k), n);
    assert r.time == env.clock(k) && r == RecordOf(d, r.time, r.seqNo);
  }

  lemma {:induction false} LineIsOfReceivable(env: Env, p: Parsers, s: State, host: string, d: Decoded)
    requires Consistent(env, s) && Logged(d) && Receivable(p, d) && OfReceivable(env, p, s)
    ensures OfReceivable(env, p, OnMessage(env, s, host, d))
  {
    var mid, line := ArrivalWrites(env, s, host, d);
    RecordIsFromReceivable(env, p, d, mid.ticks, line.record.seqNo);
    OneMoreOfReceivable(env, p, s, OnMessage(env, s, host, d), line);
  }

  lemma {:induction false} OneMoreOfReceivable(env: Env, p: Parsers, s: State, t: State, line: Line)
    requires OfReceivable(env, p, s) && t.journal == s.journal + [line] && FromReceivable(env, p, line.record)
    ensures OfReceivable(env, p, t)
  {
    forall i | 0 <= i < |t.journal| ensures FromReceivable(env, p, t.journal[i].record) {
      if i < |s.journal| {
        assert t.journal[i] == s.journal[i];
      } else {
        assert t.journal[i] == line;
      }
    }
  }

  lemma {:induction false} RunsAreOfReceivable(env: Env, p: Parsers, es: seq<Event>)
    requires AllReceivable(p, es)
    ensures OfReceivable(env, p, Run(env, FRESH, es))
  {
    if es != [] {
      var front, e := es[..|es| - 1], es[|es| - 1];
      RunsAreOfReceivable(env, p, front);
      RunsAreConsistent(env, front);
      assert e in es;
      if e.Arrival? && Logged(e.d) {
        LineIsOfReceivable(env, p, Run(env, FRESH, front), e.host, e.d);
      }
    }
  }

  /** Numbers stay positive as long as the files are numbered. */
  lemma {:induction false} NumberedArePositive(s: State)
    requires AllNumbered(s)
    ensures forall i :: 0 <= i < |s.journal| ==> s.journal[i].record.seqNo >= 1
  {
    forall i | 0 <= i < |s.journal| ensures s.journal[i].record.seqNo >= 1 {
      var dir := s.journal[i].dir;
      EveryLineIsInItsDirectory(s.journal, i);
      assert NumberedFromOne(RecordsIn(s.journal, dir));
    }
  }

  lemma {:induction false} NumberedLinesAreGood(env: Env, p: Parsers, times: iset<string>, s: State)
    requires OfReceivable(env, p, s) && AllNumbered(s) && Shows(env.clock, times)
    requires SingleLine(p, times, env.str) && EvaluatesBack(p, times, env.str, env.eval)
    ensures GoodLines(env, s)
  {
    NumberedArePositive(s);
    forall i | 0 <= i < |s.journal| ensures GoodLine(env, s.journal[i].record) {
      assert Producible(p, times, s.journal[i].record);
    }
  }

  /** Runs of receivable messages are numbered if every line they can lead to is a
      single line and evaluates back. */
  lemma {:induction false} ReceivableRunsAreNumbered(env: Env, p: Parsers, times: iset<string>, es: seq<Event>)
    requires AllReceivable(p, es) && Shows(env.clock, times)
    requires SingleLine(p, times, env.str) && EvaluatesBack(p, times, env.str, env.eval)
    ensures AllNumbered(Run(env, FRESH, es)) && GoodLines(env, Run(env, FRESH, es))
  {
    if es != [] {
      var front := es[..|es| - 1];
      ReceivableRunsAreNumbered(env, p, times, front);
      RunsAreConsistent(env, front);
      GoodReadsRight(env, Run(env, FRESH, front), es[|es| - 1]);
      NumberedExactly(env, front);
    }
    NumberedExactly(env, es);
    RunsAreOfReceivable(env, p, es);
    NumberedLinesAreGood(env, p, times, Run(env, FRESH, es));
  }

  // ---- the condition is exact ----

  function Copies(e: Event, n: nat): seq<Event> {
    if n == 0 then [] else Copies(e, n - 1) + [e]
  }

  lemma {:induction false} CopiesAre(e: Event, n: nat)
    ensures forall x :: x in Copies(e, n) ==> x == e
  {
    if n > 0 {
      CopiesAre(e, n - 1);
    }
  }

  /** The same message n times in one process: n numbered lines in one directory. */
  ghost predicate Repeated(env: Env, s: State, host: string, d: Decoded, n: nat)
    requires Logged(d) && n > 0
  {
    var ip, rs := d.header.addr, RecordsIn(s.journal, Path(host, d.header.addr));
    && Consistent(env, s)
    && |rs| == n
    && ip in s.peers && s.peers[ip].msgSeq == Some(n + 1)
    && s.peers[ip].file.Some? && s.peers[ip].file.value.dir == Path(host, ip)
    && exists k :: rs[n - 1] == RecordOf(d, env.clock(k), n)
  }

  lemma {:induction false} RepeatedFirst(env: Env, host: string, d: Decoded)
    requires Logged(d)
    ensures Repeated(env, OnMessage(env, FRESH, host, d), host, d, 1)
  {
    var t := OnMessage(env, FRESH, host, d);
    var mid, line := ArrivalWrites(env, FRESH, host, d);
    WroteRecords(env, mid, t, d.header.addr, line);
    OnMessageKeepsConsistent(env, FRESH, host, d);
    assert line.record == RecordOf(d, env.clock(mid.ticks), 1);
  }

  lemma {:induction false} RepeatedNext(env: Env, s: State, host: string, d: Decoded, n: nat)
    requires Logged(d) && n > 0 && Repeated(env, s, host, d, n)
    ensures Repeated(env, OnMessage(env, s, host, d), host, d, n + 1)
  {
    var t := OnMessage(env, s, host, d);
    var mid, line := ArrivalWrites(env, s, host, d);
    WroteRecords(env, mid, t, d.header.addr, line);
    OnMessageKeepsConsistent(env, s, host, d);
    assert line.record == RecordOf(d, env.clock(mid.ticks), n + 1);
  }

  lemma {:induction false} RepeatedArrival(env: Env, host: string, d: Decoded, n: nat)
    requires Logged(d) && n > 0
    ensures Repeated(env, Run(env, FRESH, Copies(Arrival(host, d), n)), host, d, n)
  {
    var e := Arrival(host, d);
    RunAppend(env, FRESH, Copies(e, n - 1), e);
    if n == 1 {
      RepeatedFirst(env, host, d);
    } else {
      RepeatedArrival(env, host, d, n - 1);
      RepeatedNext(env, Run(env, FRESH, Copies(e, n - 1)), host, d, n - 1);
    }
  }

  /** A line that does not evaluate back breaks the numbering: restart after it. */
  lemma {:induction false} BadLineBreaksNumbering(p: Parsers, times: iset<string>, str: Record -> bytes,
                                                  eval: bytes -> Option<int>, r: Record)
    returns (env: Env, es: seq<Event>)
    requires Producible(p, times, r) && NEWLINE !in str(r) && eval(str(r) + [NEWLINE]) != Some(r.seqNo)
    ensures env.str == str && env.eval == eval && Shows(env.clock, times)
    ensures AllReceivable(p, es) && !AllNumbered(Run(env, FRESH, es))
  {
    var d: Decoded :| Receivable(p, d) && Logged(d) && r == RecordOf(d, r.time, r.seqNo);
    var e := Arrival("h", d);
    env := Env(str, eval, (k: nat) => r.time);
    es := Copies(e, r.seqNo) + [Restart] + [e];
    CopiesAreReceivable(p, e, r.seqNo);
    RestartAfterCopies(env, "h", d, r);
  }

  lemma {:induction false} CopiesAreReceivable(p: Parsers, e: Event, n: nat)
    requires e.Arrival? && Receivable(p, e.d)
    ensures AllReceivable(p, Copies(e, n) + [Restart] + [e])
  {
    CopiesAre(e, n);
  }

  lemma {:induction false} RestartAfterCopies(env: Env, host: string, d: Decoded, r: Record)
    requires Logged(d) && r.seqNo > 0 && NEWLINE !in env.str(r)
    requires env.eval(env.str(r) + [NEWLINE]) != Some(r.seqNo)
    requires forall k: nat :: env.clock(k) == r.time
    requires r == RecordOf(d, r.time, r.seqNo)
    ensures !AllNumbered(Run(env, FRESH, Copies(Arrival(host, d), r.seqNo) + [Restart] + [Arrival(host, d)]))
  {
    var e, once := Arrival(host, d), Copies(Arrival(host, d), r.seqNo);
    var before := Run(env, FRESH, once);
    RepeatedArrival(env, host, d, r.seqNo);
    RestartKeeps(env, before, host, d, r);
    RestartMisnumbers(env, Step(env, before, Restart), host, d, r);
    RunAppend(env, FRESH, once, Restart);
    RunAppend(env, FRESH, once + [Restart], e);
  }

  lemma {:induction false} RestartKeeps(env: Env, s: State, host: string, d: Decoded, r: Record)
    requires Logged(d) && r.seqNo > 0 && Repeated(env, s, host, d, r.seqNo)
    requires forall k: nat :: env.clock(k) == r.time
    requires r == RecordOf(d, r.time, r.seqNo)
    ensures var t, rs := Step(env, s, Restart), RecordsIn(s.journal, Path(host, d.header.addr));
      && Consistent(env, t) && t.peers == map[] && t.journal == s.journal
      && |rs| == r.seqNo && rs[|rs| - 1] == r
  {
  }

  lemma {:induction false} RestartMisnumbers(env: Env, s: State, host: string, d: Decoded, r: Record)
    requires Logged(d) && Consistent(env, s) && s.peers == map[] && NEWLINE !in env.str(r)
    requires var rs := RecordsIn(s.journal, Path(host, d.header.addr));
      rs != [] && rs[|rs| - 1] == r && r.seqNo == |rs|
    requires env.eval(env.str(r) + [NEWLINE]) != Some(r.seqNo)
    ensures !AllNumbered(OnMessage(env, s, host, d))
  {
    var dir := Path(host, d.header.addr);
    var n := |RecordsIn(s.journal, dir)|;
    LastLineOfRender(env, RecordsIn(s.journal, dir));
    ReadsRightExactly(env, s, dir);
    var mid, line := ArrivalWrites(env, s, host, d);
    var t := OnMessage(env, s, host, d);
    WroteRecords(env, mid, t, d.header.addr, line);
    assert RecordsIn(t.journal, dir)[n].seqNo != n + 1;
    assert !NumberedFromOne(RecordsIn(t.journal, dir));
  }

  /** For any set of times: given single lines, all runs of receivable messages are
      numbered under every clock that shows these times, if and only if every line
      that can come to be written at them evaluates back to its number. */
  lemma {:induction false} NumberedExactlyWhenLinesEvaluate(p: Parsers, times: iset<string>, str: Record -> bytes,
                                                            eval: bytes -> Option<int>)
    requires SingleLine(p, times, str)
    ensures (forall clock: nat -> string, es :: Shows(clock, times) && AllReceivable(p, es) ==>
               AllNumbered(Run(Env(str, eval, clock), FRESH, es)))
            <==> EvaluatesBack(p, times, str, eval)
  {
    if EvaluatesBack(p, times, str, eval) {
      forall clock: nat -> string, es | Shows(clock, times) && AllReceivable(p, es)
        ensures AllNumbered(Run(Env(str, eval, clock), FRESH, es))
      {
        ReceivableRunsAreNumbered(Env(str, eval, clock), p, times, es);
      }
    } else {
      var r :| Producible(p, times, r) && eval(str(r) + [NEWLINE]) != Some(r.seqNo);
      var env, es := BadLineBreaksNumbering(p, times, str, eval, r);
      assert env == Env(str, eval, env.clock);
    }
  }
}
