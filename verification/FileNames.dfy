/** Message files are named by the time, and the handler takes the greatest name for the
    latest file. When is that the latest time? */
module FileNames {
  import opened Bytes
  import opened LogFile
  import opened RouteDistinguisher
  import opened PeerHeader
  import opened Message
  import opened Handler
  import opened Runs

  /** The text of a time: digits, a point, digits. */
  datatype Time = Time(whole: string, fraction: string)

  predicate IsTime(t: Time) {
    t.whole != "" && t.fraction != "" && AllDigits(t.whole) && AllDigits(t.fraction)
  }

  function FileOf(t: Time): string {
    t.whole + ['.'] + t.fraction + ".msg"
  }

  predicate Earlier(a: string, b: string) {
    Leq(a, b) && !Leq(b, a)
  }

  /** Digits with zeros behind them, n in all. */
  function Padded(digits: string, n: nat): (t: string)
    requires AllDigits(digits) && |digits| <= n
    ensures |t| == n && AllDigits(t) && digits <= t
    ensures forall i :: |digits| <= i < n ==> t[i] == '0'
  {
    digits + seq(n - |digits|, _ => '0')
  }

  function Longer(a: string, b: string): nat {
    if |a| <= |b| then |b| else |a|
  }

  /** Order of the times as numbers. */
  predicate Before(a: Time, b: Time)
    requires IsTime(a) && IsTime(b)
  {
    || ParseDec(a.whole) < ParseDec(b.whole)
    || (ParseDec(a.whole) == ParseDec(b.whole)
        && var n := Longer(a.fraction, b.fraction);
           ParseDec(Padded(a.fraction, n)) < ParseDec(Padded(b.fraction, n)))
  }

  /** Numbers of equally many digits compare as their first different digits. */
  lemma {:induction false} FirstDifference(a: string, b: string) returns (i: nat)
    requires AllDigits(a) && AllDigits(b) && |a| == |b|
    ensures i <= |a| && a[..i] == b[..i]
    ensures i < |a| ==> a[i] != b[i] && (ParseDec(a) < ParseDec(b) <==> a[i] < b[i])
    ensures ParseDec(a) == ParseDec(b) <==> a == b
    ensures i == |a| <==> a == b
  {
    if a == "" {
      i := 0;
    } else {
      var n := |a| - 1;
      i := FirstDifference(a[..n], b[..n]);
      assert a == a[..n] + [a[n]] && b == b[..n] + [b[n]];
      if i == n {
        assert a[..n] == b[..n];
        i := if a[n] == b[n] then n + 1 else n;
      } else {
        assert a[..n][..i] == a[..i] && b[..n][..i] == b[..i];
        assert a[..n][i] == a[i] && b[..n][i] == b[i];
      }
    }
  }

  /** Names that agree up to a position and there have a smaller and a greater character. */
  lemma {:induction false} DifferAt(a: string, b: string, i: nat)
    requires i < |a| && i < |b| && a[..i] == b[..i] && a[i] < b[i]
    ensures Earlier(a, b)
  {
    assert a == a[..i] + [a[i]] + a[i + 1..] && b == a[..i] + [b[i]] + b[i + 1..];
    FirstDifferenceDecides(a[..i], a[i], a[i + 1..], b[i], b[i + 1..]);
  }

  lemma {:induction false} WholeDecides(a: Time, b: Time)
    requires IsTime(a) && IsTime(b) && |a.whole| == |b.whole| && ParseDec(a.whole) < ParseDec(b.whole)
    ensures Earlier(FileOf(a), FileOf(b))
  {
    var i := FirstDifference(a.whole, b.whole);
    var m, n := FileOf(a), FileOf(b);
    assert m[..i] == a.whole[..i] && n[..i] == b.whole[..i];
    DifferAt(m, n, i);
  }

  lemma {:induction false} FractionDecides(a: Time, b: Time)
    requires IsTime(a) && IsTime(b) && a.whole == b.whole && Before(a, b)
    ensures Earlier(FileOf(a), FileOf(b))
  {
    var n := Longer(a.fraction, b.fraction);
    var x, y := Padded(a.fraction, n), Padded(b.fraction, n);
    var i := FirstDifference(x, y);
    assert i < |b.fraction|;
    var k := if i < |a.fraction| then i else |a.fraction|;
    assert a.fraction[..k] == x[..i][..k] && b.fraction[..k] == y[..i][..k];
    FractionDiffers(a, b, k);
  }

  lemma {:induction false} FractionDiffers(a: Time, b: Time, k: nat)
    requires IsTime(a) && IsTime(b) && a.whole == b.whole
    requires k <= |a.fraction| && k < |b.fraction| && a.fraction[..k] == b.fraction[..k]
    requires k < |a.fraction| ==> a.fraction[k] < b.fraction[k]
    ensures Earlier(FileOf(a), FileOf(b))
  {
    var m, n, at := FileOf(a), FileOf(b), |a.whole| + 1 + k;
    assert m[..at] == a.whole + ['.'] + a.fraction[..k] && n[..at] == b.whole + ['.'] + b.fraction[..k];
    assert n[at] == b.fraction[k] && m[at] == if k < |a.fraction| then a.fraction[k] else '.';
    DifferAt(m, n, at);
  }

  /** Among times with equally many digits before the point, the names follow the times. */
  lemma {:induction false} NamesFollowTimes(a: Time, b: Time)
    requires IsTime(a) && IsTime(b) && |a.whole| == |b.whole| && Before(a, b)
    ensures Earlier(FileOf(a), FileOf(b))
  {
    if ParseDec(a.whole) < ParseDec(b.whole) {
      WholeDecides(a, b);
    } else {
      var _ := FirstDifference(a.whole, b.whole);
      FractionDecides(a, b);
    }
  }

  /** Otherwise exactly if the shorter number is not above the leading digits of the
      longer one: 9.5 is named behind 10.5. */
  lemma {:induction false} NamesFollowTimesExactly(a: Time, b: Time)
    requires IsTime(a) && IsTime(b) && |a.whole| < |b.whole|
    ensures Earlier(FileOf(a), FileOf(b)) <==> ParseDec(a.whole) <= ParseDec(b.whole[..|a.whole|])
  {
    var m, n, lead := FileOf(a), FileOf(b), b.whole[..|a.whole|];
    var i := FirstDifference(a.whole, lead);
    assert m[..i] == a.whole[..i] && n[..i] == lead[..i];
    if i == |a.whole| {
      assert m[i] == '.' && n[i] == b.whole[i];
      DifferAt(m, n, i);
    } else if a.whole[i] < lead[i] {
      DifferAt(m, n, i);
    } else {
      DifferAt(n, m, i);
    }
  }

  lemma {:induction false} NineBehindTen()
    ensures Earlier(FileOf(Time("10", "5")), FileOf(Time("9", "5")))
  {
    DifferAt(FileOf(Time("10", "5")), FileOf(Time("9", "5")), 0);
  }

  /** A directory of files that are named by times with equally many digits before the
      point: the peer goes on in the file with the latest time. */
  lemma {:induction false} ResumesAtLatestTime(env: Env, s: State, host: string, d: Decoded, times: seq<Time>, i: nat)
    requires Logged(d) && d.header.addr !in s.peers && Path(host, d.header.addr) in s.disk
    requires var files := s.disk[Path(host, d.header.addr)];
      && |times| == |files| && i < |files| && DistinctNames(files) && files[i].content != []
      && IsTime(times[i])
      && forall k :: 0 <= k < |files| ==>
           && IsTime(times[k]) && files[k].name == FileOf(times[k]) && |times[k].whole| == |times[i].whole|
           && (k != i ==> Before(times[k], times[i]))
    ensures var dir, t := Path(host, d.header.addr), OnMessage(env, s, host, d);
      var f := s.disk[dir][i];
      var n := match env.eval(LastLine(f.content)) case Some(v) => v + 1 case None => 1;
      && t.journal == s.journal + [Line(host, dir, RecordOf(d, env.clock(s.ticks), n))]
      && t.peers[dir.ip] == Entry(Some(n + 1), Some(FileRef(dir, FileOf(times[i]))))
      && |t.disk[dir]| == |s.disk[dir]|
      && forall k :: 0 <= k < |times| && k != i ==> t.disk[dir][k] == s.disk[dir][k]
  {
    var files := s.disk[Path(host, d.header.addr)];
    forall g | g in files ensures Leq(g.name, files[i].name) {
      var k :| 0 <= k < |files| && files[k] == g;
      if k == i {
        LeqTotal(g.name, g.name);
      } else {
        NamesFollowTimes(times[k], times[i]);
      }
    }
    ResumesAfterLatest(env, s, host, d, i);
  }
}
