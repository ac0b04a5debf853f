/** Statistics reports: a counter count, then that many TLVs of big-endian values. */
module Statistics {
  import opened Bytes
  import opened Tlv

  type Counters = map<nat, nat>

  /** Exactly n TLVs with data in front of anything. */
  function CutCounters(n: nat, msg: bytes): Result<seq<Tlv>> {
    if n == 0 then Ok([])
    else if |msg| < 4 || Head(msg).value == [] then Raise
    else
      var more :- CutCounters(n - 1, Tail(msg));
      Ok([Head(msg)] + more)
  }

  function Fill(ts: seq<Tlv>): Counters {
    if ts == [] then map[]
    else Fill(ts[..|ts| - 1])[ts[|ts| - 1].kind := Be(ts[|ts| - 1].value)]
  }

  function Report(msg: bytes): Result<Counters> {
    var count :- HexInt(Slice(msg, 0, 4));
    var ts :- CutCounters(count, From(msg, 4));
    Ok(Fill(ts))
  }

  lemma {:induction false} CountersStep(n: nat, msg: bytes)
    requires n > 0 && |msg| >= 4
    ensures CutCounters(n, msg) ==
            if Head(msg).value == [] then Raise
            else if CutCounters(n - 1, Tail(msg)).Raise? then Raise
            else Ok([Head(msg)] + CutCounters(n - 1, Tail(msg)).value)
  {
  }

  lemma {:induction false} FillAppend(ts: seq<Tlv>, t: Tlv)
    ensures Fill(ts + [t]) == Fill(ts)[t.kind := Be(t.value)]
  {
    assert (ts + [t])[..|ts|] == ts;
  }

  /** The loop's state: `done` counters are recorded, `count` are left in `msg`. */
  ghost predicate Recorded(whole: Result<seq<Tlv>>, done: seq<Tlv>, count: nat, msg: bytes, d: Counters) {
    var more := CutCounters(count, msg);
    && whole == (if more.Raise? then Raise else Ok(done + more.value))
    && d == Fill(done)
  }

  lemma {:induction false} RecordStep(whole: Result<seq<Tlv>>, done: seq<Tlv>, count: nat, msg: bytes, d: Counters)
    requires Recorded(whole, done, count, msg, d) && count > 0 && |msg| >= 4
    ensures var t := Head(msg);
      if t.value == [] then whole.Raise?
      else Recorded(whole, done + [t], count - 1, Tail(msg), d[t.kind := Be(t.value)])
  {
    FillAppend(done, Head(msg));
    WholeStep(whole, done, count, msg);
  }

  lemma {:induction false} WholeStep(whole: Result<seq<Tlv>>, done: seq<Tlv>, count: nat, msg: bytes)
    requires count > 0 && |msg| >= 4
    requires var more := CutCounters(count, msg); whole == if more.Raise? then Raise else Ok(done + more.value)
    ensures var more := CutCounters(count - 1, Tail(msg));
      whole == if Head(msg).value == [] || more.Raise? then Raise else Ok(done + [Head(msg)] + more.value)
  {
    CountersStep(count, msg);
    var more := CutCounters(count - 1, Tail(msg));
    if more.Ok? {
      assert done + ([Head(msg)] + more.value) == (done + [Head(msg)]) + more.value;
    }
  }

  lemma RecordShort(whole: Result<seq<Tlv>>, done: seq<Tlv>, count: nat, msg: bytes, d: Counters)
    requires Recorded(whole, done, count, msg, d) && count > 0 && |msg| < 4
    ensures whole.Raise?
  {
  }

  lemma RecordEnd(whole: Result<seq<Tlv>>, done: seq<Tlv>, msg: bytes, d: Counters)
    requires Recorded(whole, done, 0, msg, d)
    ensures whole.Ok? && d == Fill(whole.value)
  {
    assert done + [] == done;
  }

  lemma RecordStart(count: nat, msg: bytes)
    ensures Recorded(CutCounters(count, msg), [], count, msg, map[])
  {
    var whole := CutCounters(count, msg);
    assert whole.Ok? ==> [] + whole.value == whole.value;
  }

  /** The counted loop of `parse_statistic_report_msg` */
  method ReadCounters(count: nat, body: bytes) returns (r: Result<Counters>)
    ensures r == if CutCounters(count, body).Raise? then Raise else Ok(Fill(CutCounters(count, body).value))
  {
    var countNum, msg := count, body;
    var countDict: Counters := map[];
    ghost var whole := CutCounters(count, body);
    ghost var done: seq<Tlv> := [];
    RecordStart(count, body);
    while countNum != 0
      invariant Recorded(whole, done, countNum, msg, countDict)
      decreases countNum
    {
      var taken := TakeTlv(msg);
      if taken.Raise? {
        RecordShort(whole, done, countNum, msg, countDict);
        return Raise;
      }
      RecordStep(whole, done, countNum, msg, countDict);
      done := done + [Head(msg)];
      var (stat, rest) := taken.value;
      msg := rest;
      var statValue := ReadNumber(stat.value);
      if statValue.Raise? {
        return Raise;
      }
      countDict := countDict[stat.kind := statValue.value];
      countNum := countNum - 1;
    }
    RecordEnd(whole, done, msg, countDict);
    r := Ok(countDict);
  }

  /** `parse_statistic_report_msg` */
  method ParseStatisticReport(msg: bytes) returns (r: Result<Counters>)
    ensures r == Report(msg)
  {
    var countNum := HexInt(Slice(msg, 0, 4));
    if countNum.Raise? {
      return Raise;
    }
    r := ReadCounters(countNum.value, From(msg, 4));
  }

  /** The dictionary holds the value of the last counter of every type present. */
  ghost predicate HoldsLast(d: Counters, ts: seq<Tlv>) {
    && (forall kind: nat :: kind in d <==> LastValue(ts, kind).Some?)
    && (forall kind: nat :: kind in d ==> d[kind] == Be(LastValue(ts, kind).value))
  }

  lemma {:induction false} FillHoldsLast(ts: seq<Tlv>)
    ensures HoldsLast(Fill(ts), ts) && |Fill(ts)| <= |ts|
  {
    if ts != [] {
      FillHoldsLast(ts[..|ts| - 1]);
    }
  }

  /** The first n TLVs are there and all have data. */
  predicate HaveData(ts: seq<Tlv>, n: nat) {
    n <= |ts| && forall i :: 0 <= i < n ==> ts[i].value != []
  }

  lemma HaveDataCons(t: Tlv, ts: seq<Tlv>, n: nat)
    requires n > 0
    ensures HaveData([t] + ts, n) <==> t.value != [] && HaveData(ts, n - 1)
  {
    var us := [t] + ts;
    if HaveData(us, n) {
      assert us[0] == t;
      forall i | 0 <= i < n - 1 ensures ts[i].value != [] {
        assert ts[i] == us[i + 1];
      }
    }
  }

  /** Counting TLVs off is taking a prefix of the plain TLV list. */
  lemma {:induction false} CountersArePrefix(n: nat, msg: bytes)
    ensures var ts := CutTlvs(msg).tlvs; var r := CutCounters(n, msg);
      && (r.Ok? <==> HaveData(ts, n))
      && (r.Ok? ==> r.value == ts[..n] && 5 * n <= |msg|)
  {
    if n > 0 && |msg| >= 4 {
      CountersArePrefix(n - 1, Tail(msg));
      HaveDataCons(Head(msg), CutTlvs(Tail(msg)).tlvs, n);
      CountersStep(n, msg);
    }
  }

  /** When a report decodes at all: the count is there, that many TLVs follow, each
      with data. Then at least five bytes per counter follow the count field, and
      the result has at most that many keys and holds the last value of each. */
  lemma ReportSucceedsExactly(msg: bytes)
    ensures var count, ts := Be(Slice(msg, 0, 4)), CutTlvs(From(msg, 4)).tlvs;
      && (Report(msg).Ok? <==> msg != [] && HaveData(ts, count))
      && (Report(msg).Ok? ==> && 5 * count <= |From(msg, 4)|
                              && |Report(msg).value| <= count
                              && HoldsLast(Report(msg).value, ts[..count]))
  {
    var count := Be(Slice(msg, 0, 4));
    HexIntIsBe(Slice(msg, 0, 4));
    CountersArePrefix(count, From(msg, 4));
    if Report(msg).Ok? {
      FillHoldsLast(CutTlvs(From(msg, 4)).tlvs[..count]);
    }
  }

  lemma CountField(n: nat, body: bytes)
    requires n < 0x1_0000_0000
    ensures var msg := Encode(n, 4) + body;
      Slice(msg, 0, 4) == Encode(n, 4) && Be(Slice(msg, 0, 4)) == n && From(msg, 4) == body
  {
    assert Pow256(4) == 0x1_0000_0000;
    BeEncode(n, 4);
    assert (Encode(n, 4) + body)[..4] == Encode(n, 4);
  }

  /** Encoded counters decode to the last value of each type, whatever trails them. */
  lemma ReportRoundTrip(ts: seq<Tlv>, trailing: bytes)
    requires |ts| < 0x1_0000_0000
    requires forall t :: t in ts ==> Encodable(t) && t.value != []
    ensures var r := Report(Encode(|ts|, 4) + (EncodeTlvs(ts) + trailing)); r.Ok? && HoldsLast(r.value, ts)
  {
    CountField(|ts|, EncodeTlvs(ts) + trailing);
    CutEncoded(ts, trailing);
    AllHaveData(ts, CutTlvs(trailing).tlvs);
    ReportSucceedsExactly(Encode(|ts|, 4) + (EncodeTlvs(ts) + trailing));
  }

  lemma AllHaveData(ts: seq<Tlv>, more: seq<Tlv>)
    requires forall t :: t in ts ==> t.value != []
    ensures HaveData(ts + more, |ts|) && (ts + more)[..|ts|] == ts
  {
    forall i | 0 <= i < |ts| ensures (ts + more)[i].value != [] {
      assert ts[i] in ts;
    }
  }
}
