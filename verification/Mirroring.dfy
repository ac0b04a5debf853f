/** Route mirroring: mirrored BGP messages are sorted into four lists. */
module Mirroring {
  import opened Bytes
  import opened Tlv
  import opened Bgp

  datatype Value =
    | Messages(update: seq<Update>, refresh: seq<Refresh>, open: seq<string>, notification: seq<string>)
    | Info(code: nat)
    | Raw(value: bytes)

  type Dict = map<Key, Value>

  /** The BGP type byte inside a mirrored message, if the value reaches that far. */
  function InnerType(t: Tlv): Option<byte> {
    if t.kind == 0 && |t.value| > 18 then Some(t.value[18]) else None
  }

  function Body(t: Tlv): bytes {
    From(t.value, HDR_LEN)
  }

  /** A mirrored BGP message is its 19-byte header, ending in the type, and its body. */
  lemma MirroredLayout(header: bytes, kind: byte, body: bytes)
    requires |header| == HDR_LEN - 1
    ensures var t := Tlv(0, header + [kind] + body); InnerType(t) == Some(kind) && Body(t) == body
    ensures InnerType(Tlv(0, header)) == None
  {
    assert From(header + [kind] + body, HDR_LEN) == body;
  }

  // ---- what each list is meant to hold ----

  function UpdateOf(p: Parsers, t: Tlv): Option<Update> {
    if InnerType(t) == Some(2) && p.update(Body(t)).Ok? && !p.update(Body(t)).value.subError
    then Some(p.update(Body(t)).value) else None
  }

  function RefreshOf(p: Parsers, t: Tlv): Option<Refresh> {
    if InnerType(t) == Some(5) && p.refresh(Body(t)).Ok? then Some(p.refresh(Body(t)).value) else None
  }

  function OpenOf(p: Parsers, t: Tlv): Option<string> {
    if InnerType(t) == Some(1) && p.open(Body(t)).Ok? then Some(p.open(Body(t)).value) else None
  }

  function NotificationOf(p: Parsers, t: Tlv): Option<string> {
    if InnerType(t) == Some(3) && p.notification(Body(t)).Ok? then Some(p.notification(Body(t)).value) else None
  }

  function Listed<T>(o: Option<T>): seq<T> {
    match o case None => [] case Some(v) => [v]
  }

  /** The lists m with what t contributes. */
  function Add(p: Parsers, t: Tlv, m: Value): (r: Value)
    requires m.Messages?
    ensures r.Messages?
  {
    Messages(m.update + Listed(UpdateOf(p, t)), m.refresh + Listed(RefreshOf(p, t)),
             m.open + Listed(OpenOf(p, t)), m.notification + Listed(NotificationOf(p, t)))
  }

  const EMPTY: Value := Messages([], [], [], [])

  /** The four lists: filter-map over the TLVs, in order. */
  function Sorted(p: Parsers, ts: seq<Tlv>): (m: Value)
    ensures m.Messages?
  {
    if ts == [] then EMPTY else Add(p, ts[|ts| - 1], Sorted(p, ts[..|ts| - 1]))
  }

  /** A TLV that raises: no BGP type byte, a failing parser, or an information
      code that is not two bytes. */
  predicate Acceptable(p: Parsers, t: Tlv) {
    if t.kind == 0 then
      match InnerType(t)
      case None => false
      case Some(inner) =>
        if inner == 2 then p.update(Body(t)).Ok?
        else if inner == 5 then p.refresh(Body(t)).Ok?
        else if inner == 1 then p.open(Body(t)).Ok?
        else if inner == 3 then p.notification(Body(t)).Ok?
        else true
    else t.kind == 1 ==> |t.value| == 2
  }

  function Put(t: Tlv, d: Dict): Dict {
    if t.kind == 0 then d
    else if t.kind == 1 then d[Name("1") := Info(Be(t.value))]
    else d[Code(t.kind) := Raw(t.value)]
  }

  /** Everything except key '0'. */
  function Others(ts: seq<Tlv>): Dict {
    if ts == [] then map[] else Put(ts[|ts| - 1], Others(ts[..|ts| - 1]))
  }

  function Mirror(p: Parsers, msg: bytes): Result<Dict> {
    var c := CutTlvs(msg);
    if c.rest == [] && forall t :: t in c.tlvs ==> Acceptable(p, t)
    then Ok(Others(c.tlvs)[Name("0") := Sorted(p, c.tlvs)])
    else Raise
  }

  lemma SortedAppend(p: Parsers, ts: seq<Tlv>, t: Tlv)
    ensures Sorted(p, ts + [t]) == Add(p, t, Sorted(p, ts))
    ensures Others(ts + [t]) == Put(t, Others(ts))
  {
    assert (ts + [t])[..|ts|] == ts;
  }

  /** The loop's state: `done` TLVs were accepted and recorded. */
  ghost predicate Recorded(p: Parsers, raw: bytes, done: seq<Tlv>, msg: bytes, lists: Value, d: Dict) {
    && Progress(raw, done, msg)
    && (forall t :: t in done ==> Acceptable(p, t))
    && lists == Sorted(p, done)
    && d == Others(done)
  }

  lemma RecordStep(p: Parsers, raw: bytes, done: seq<Tlv>, msg: bytes, lists: Value, d: Dict)
    requires Recorded(p, raw, done, msg, lists, d) && |msg| >= 4 && lists.Messages?
    ensures Acceptable(p, Head(msg)) ==>
              Recorded(p, raw, done + [Head(msg)], Tail(msg), Add(p, Head(msg), lists), Put(Head(msg), d))
    ensures !Acceptable(p, Head(msg)) ==> Mirror(p, raw).Raise?
  {
    ProgressStep(raw, done, msg);
    SortedAppend(p, done, Head(msg));
    assert CutTlvs(raw).tlvs[|done|] == Head(msg);
  }

  lemma RecordEnd(p: Parsers, raw: bytes, done: seq<Tlv>, msg: bytes, lists: Value, d: Dict)
    requires Recorded(p, raw, done, msg, lists, d) && |msg| < 4
    ensures Mirror(p, raw) == if msg == [] then Ok(d[Name("0") := lists]) else Raise
  {
    assert done + [] == done;
  }

  /** One mirrored BGP message: the lists it extends, or an exception. */
  method ParseMirrored(p: Parsers, t: Tlv, m: Value) returns (r: Result<Value>)
    requires t.kind == 0 && m.Messages?
    ensures r == if Acceptable(p, t) then Ok(Add(p, t, m)) else Raise
  {
    var bgpMsgType := UnpackB(Slice(t.value, 18, 19));
    if bgpMsgType.Raise? {
      return Raise;
    }
    var bgpMsgBody := From(t.value, HDR_LEN);
    r := Ok(m);
    assert m.update + [] == m.update && m.refresh + [] == m.refresh;
    assert m.open + [] == m.open && m.notification + [] == m.notification;
    if bgpMsgType.value == 2 {
      var update := p.update(bgpMsgBody);
      if update.Raise? { return Raise; }
      if !update.value.subError {
        r := Ok(m.(update := m.update + [update.value]));
      }
    } else if bgpMsgType.value == 5 {
      var refresh := p.refresh(bgpMsgBody);
      if refresh.Raise? { return Raise; }
      r := Ok(m.(refresh := m.refresh + [refresh.value]));
    } else if bgpMsgType.value == 1 {
      var open := p.open(bgpMsgBody);
      if open.Raise? { return Raise; }
      r := Ok(m.(open := m.open + [open.value]));
    } else if bgpMsgType.value == 3 {
      var notification := p.notification(bgpMsgBody);
      if notification.Raise? { return Raise; }
      r := Ok(m.(notification := m.notification + [notification.value]));
    }
  }

  /** One pass of the loop: a mirrored message, an information code, or a value of
      unknown type. */
  method ParseOne(p: Parsers, t: Tlv, lists: Value, msgDict: Dict) returns (r: Result<(Value, Dict)>)
    requires lists.Messages?
    ensures r == if !Acceptable(p, t) then Raise
                 else Ok((if t.kind == 0 then Add(p, t, lists) else lists, Put(t, msgDict)))
  {
    if t.kind == 0 {
      var parsed := ParseMirrored(p, t, lists);
      if parsed.Raise? {
        return Raise;
      }
      r := Ok((parsed.value, msgDict));
    } else if t.kind == 1 {
      var infoCodeType := UnpackH(t.value);
      if infoCodeType.Raise? {
        return Raise;
      }
      r := Ok((lists, msgDict[Name("1") := Info(infoCodeType.value)]));
    } else {
      var value := CopyThroughHex(t.value);
      r := Ok((lists, msgDict[Code(t.kind) := Raw(value)]));
    }
  }

  lemma OtherKindsAddNothing(p: Parsers, t: Tlv, lists: Value)
    requires t.kind != 0 && lists.Messages?
    ensures Add(p, t, lists) == lists
  {
    assert lists.update + [] == lists.update && lists.refresh + [] == lists.refresh;
    assert lists.open + [] == lists.open && lists.notification + [] == lists.notification;
  }

  /** `parse_route_mirroring_msg` */
  method ParseRouteMirroring(p: Parsers, raw: bytes) returns (r: Result<Dict>)
    ensures r == Mirror(p, raw)
  {
    var msg := raw;
    var msgDict: Dict := map[];
    var lists := EMPTY;
    ghost var done: seq<Tlv> := [];
    while msg != []
      invariant lists.Messages? && Recorded(p, raw, done, msg, lists, msgDict)
      decreases |msg|
    {
      var taken := TakeTlv(msg);
      if taken.Raise? {
        RecordEnd(p, raw, done, msg, lists, msgDict);
        return Raise;
      }
      RecordStep(p, raw, done, msg, lists, msgDict);
      done := done + [Head(msg)];
      var (t, rest) := taken.value;
      msg := rest;
      if t.kind != 0 {
        OtherKindsAddNothing(p, t, lists);
      }
      var parsed := ParseOne(p, t, lists, msgDict);
      if parsed.Raise? {
        return Raise;
      }
      lists, msgDict := parsed.value.0, parsed.value.1;
    }
    RecordEnd(p, raw, done, msg, lists, msgDict);
    r := Ok(msgDict[Name("0") := lists]);
  }

  // ---- what the lists mean ----

  lemma Associates<T>(a: seq<T>, b: seq<T>, c: seq<T>)
    ensures (a + b) + c == a + (b + c)
  {
  }

  lemma {:induction false} SortedConcat(p: Parsers, a: seq<Tlv>, b: seq<Tlv>)
    ensures var m, n := Sorted(p, a), Sorted(p, b);
      Sorted(p, a + b) == Messages(m.update + n.update, m.refresh + n.refresh,
                                   m.open + n.open, m.notification + n.notification)
    decreases |b|
  {
    if b == [] {
      assert a + b == a;
    } else {
      var front, t := b[..|b| - 1], b[|b| - 1];
      assert a + b == (a + front) + [t] && b == front + [t];
      SortedAppend(p, a + front, t);
      SortedAppend(p, front, t);
      SortedConcat(p, a, front);
      Associates(Sorted(p, a).update, Sorted(p, front).update, Listed(UpdateOf(p, t)));
      Associates(Sorted(p, a).refresh, Sorted(p, front).refresh, Listed(RefreshOf(p, t)));
      Associates(Sorted(p, a).open, Sorted(p, front).open, Listed(OpenOf(p, t)));
      Associates(Sorted(p, a).notification, Sorted(p, front).notification, Listed(NotificationOf(p, t)));
    }
  }

  /** How many lists a TLV goes into. */
  function Places(p: Parsers, t: Tlv): nat {
    |Listed(UpdateOf(p, t))| + |Listed(RefreshOf(p, t))| + |Listed(OpenOf(p, t))| + |Listed(NotificationOf(p, t))|
  }

  /** Kept by one of the lists: a mirrored message of the four types, unless it is
      an update in error. */
  predicate Kept(p: Parsers, t: Tlv) {
    match InnerType(t)
    case None => false
    case Some(inner) => inner == 1 || inner == 3 || inner == 5 || (inner == 2 && UpdateOf(p, t).Some?)
  }

  function CountKept(p: Parsers, ts: seq<Tlv>): nat {
    if ts == [] then 0 else CountKept(p, ts[..|ts| - 1]) + if Kept(p, ts[|ts| - 1]) then 1 else 0
  }

  /** The lists partition the kept TLVs: each is in one list, once. */
  lemma {:induction false} ListsPartition(p: Parsers, ts: seq<Tlv>)
    requires forall t :: t in ts ==> Acceptable(p, t)
    ensures var m := Sorted(p, ts);
      |m.update| + |m.refresh| + |m.open| + |m.notification| == CountKept(p, ts)
    ensures forall t :: t in ts ==> Places(p, t) == if Kept(p, t) then 1 else 0
  {
    forall t | t in ts ensures Places(p, t) == if Kept(p, t) then 1 else 0 {
      assert Acceptable(p, t);
    }
    if ts != [] {
      assert ts[|ts| - 1] in ts;
      ListsPartition(p, ts[..|ts| - 1]);
    }
  }

  /** The other entries: '1' holds the last information code, a bare number the
      last value of that unknown type; '0' is never among them. */
  ghost predicate HoldsOthers(d: Dict, ts: seq<Tlv>) {
    && (Name("1") in d <==> LastValue(ts, 1).Some?)
    && (Name("1") in d ==> d[Name("1")] == Info(Be(LastValue(ts, 1).value)))
    && (forall kind: nat :: Code(kind) in d <==> kind >= 2 && LastValue(ts, kind).Some?)
    && (forall kind: nat :: Code(kind) in d ==> d[Code(kind)] == Raw(LastValue(ts, kind).value))
    && (forall k :: k in d && k.Name? ==> k == Name("1"))
  }

  lemma {:induction false} OthersHold(ts: seq<Tlv>)
    ensures HoldsOthers(Others(ts), ts)
  {
    if ts != [] {
      OthersHold(ts[..|ts| - 1]);
    }
  }

  /** What a dictionary with the lists m and the other entries of ts looks like. */
  ghost predicate Describes(d: Dict, m: Value, ts: seq<Tlv>) {
    Name("0") in d && d[Name("0")] == m && HoldsOthers(d - {Name("0")}, ts)
  }

  lemma SuccessDescribes(p: Parsers, msg: bytes)
    requires Mirror(p, msg).Ok?
    ensures Describes(Mirror(p, msg).value, Sorted(p, CutTlvs(msg).tlvs), CutTlvs(msg).tlvs)
  {
    var ts := CutTlvs(msg).tlvs;
    OthersHold(ts);
    assert "0"[0] != "1"[0];
    assert Mirror(p, msg).value - {Name("0")} == Others(ts);
  }

  /** Encoded TLVs that are all acceptable come back: the lists of their messages
      under '0', the last information code, the last value of each unknown type. */
  lemma MirrorRoundTrip(p: Parsers, ts: seq<Tlv>)
    requires forall t :: t in ts ==> Encodable(t) && Acceptable(p, t)
    ensures var r := Mirror(p, EncodeTlvs(ts)); r.Ok? && Describes(r.value, Sorted(p, ts), ts)
  {
    CutEncoded(ts, []);
    assert EncodeTlvs(ts) + [] == EncodeTlvs(ts) && ts + [] == ts;
    SuccessDescribes(p, EncodeTlvs(ts));
  }

  /** Decoding fails exactly on one to three stray bytes behind complete TLVs, or on
      an unacceptable TLV, the last of which may be cut short. */
  lemma MirrorFailsExactly(p: Parsers, msg: bytes)
    ensures Mirror(p, msg).Raise? <==>
            || (exists ts, tail :: (forall t :: t in ts ==> Encodable(t))
                                && msg == EncodeTlvs(ts) + tail && 1 <= |tail| <= 3)
            || exists t :: t in CutTlvs(msg).tlvs && !Acceptable(p, t)
  {
    LeftOver(msg);
  }

  /** Which TLVs pass: a mirrored message that has its type byte and whose parser
      does not raise, an information code of two bytes, and every other type. */
  lemma AcceptableExactly(p: Parsers, kind: nat, value: bytes)
    ensures Acceptable(p, Tlv(kind, value)) <==>
            if kind == 0 then
              && |value| >= 19
              && (value[18] == 1 ==> p.open(value[19..]).Ok?)
              && (value[18] == 2 ==> p.update(value[19..]).Ok?)
              && (value[18] == 3 ==> p.notification(value[19..]).Ok?)
              && (value[18] == 5 ==> p.refresh(value[19..]).Ok?)
            else kind == 1 ==> |value| == 2
  {
    if kind == 0 && |value| >= 19 {
      MirroredLayout(value[..18], value[18], value[19..]);
      assert value == value[..18] + [value[18]] + value[19..];
    }
  }

  /** A mirrored message of any type: where its TLV stands, exactly the list of its
      type has its parsed body; the other lists have nothing of it. */
  lemma MirroredMessageIsListed(p: Parsers, before: seq<Tlv>, header: bytes, inner: byte, body: bytes, after: seq<Tlv>)
    requires |header| == 18 && Acceptable(p, Tlv(0, header + [inner] + body))
    ensures var m, x, y := Sorted(p, before + [Tlv(0, header + [inner] + body)] + after), Sorted(p, before),
              Sorted(p, after);
      && m.open == x.open + (if inner == 1 then [p.open(body).value] else []) + y.open
      && m.update == x.update + (if inner == 2 && !p.update(body).value.subError
                                 then [p.update(body).value] else []) + y.update
      && m.notification == x.notification + (if inner == 3 then [p.notification(body).value] else []) + y.notification
      && m.refresh == x.refresh + (if inner == 5 then [p.refresh(body).value] else []) + y.refresh
  {
    var t := Tlv(0, header + [inner] + body);
    MirroredLayout(header, inner, body);
    SortedConcat(p, before + [t], after);
    SortedAppend(p, before, t);
  }

  /** Other TLVs put nothing into a list. */
  lemma OtherTlvIsNotListed(p: Parsers, before: seq<Tlv>, t: Tlv, after: seq<Tlv>)
    requires t.kind != 0
    ensures Sorted(p, before + [t] + after) == Sorted(p, before + after)
  {
    SortedConcat(p, before + [t], after);
    SortedConcat(p, before, after);
    SortedAppend(p, before, t);
    OtherKindsAddNothing(p, t, Sorted(p, before));
  }

  /** A mirrored update without error stands in the list where its TLV stands. */
  lemma MirroredUpdateIsListed(p: Parsers, before: seq<Tlv>, header: bytes, body: bytes, after: seq<Tlv>)
    requires |header| == HDR_LEN - 1 && p.update(body).Ok? && !p.update(body).value.subError
    ensures var t := Tlv(0, header + [2] + body);
      && Acceptable(p, t)
      && Sorted(p, before + [t] + after).update ==
         Sorted(p, before).update + [p.update(body).value] + Sorted(p, after).update
  {
    var t := Tlv(0, header + [2] + body);
    MirroredLayout(header, 2, body);
    SortedConcat(p, before + [t], after);
    SortedAppend(p, before, t);
  }
}
