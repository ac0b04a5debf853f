/** Type-length-value lists, and the initiation and termination messages that
    consist of nothing else. */
module Tlv {
  import opened Bytes

  datatype Tlv = Tlv(kind: nat, value: bytes)

  /** TLVs cut off the front, and the up to three bytes no header fits into. */
  datatype CutUp = CutUp(tlvs: seq<Tlv>, rest: bytes)

  /** The TLV at the front; its value is clipped by the end of the message. */
  function Head(msg: bytes): Tlv
    requires |msg| >= 4
  {
    Tlv(Be(msg[..2]), Slice(msg, 4, 4 + Be(msg[2..4])))
  }

  function Tail(msg: bytes): (r: bytes)
    requires |msg| >= 4
    ensures |r| < |msg|
  {
    From(msg, 4 + Be(msg[2..4]))
  }

  function CutTlvs(msg: bytes): (c: CutUp)
    ensures |c.rest| < 4
    decreases |msg|
  {
    if |msg| < 4 then CutUp([], msg)
    else
      var c := CutTlvs(Tail(msg));
      CutUp([Head(msg)] + c.tlvs, c.rest)
  }

  // ---- the grammar of TLV strings ----

  predicate Encodable(t: Tlv) {
    t.kind < 0x1_0000 && |t.value| < 0x1_0000
  }

  function EncodeHeader(kind: nat, length: nat): (b: bytes)
    ensures |b| == 4
  {
    Encode(kind, 2) + Encode(length, 2)
  }

  function EncodeTlv(t: Tlv): bytes {
    EncodeHeader(t.kind, |t.value|) + t.value
  }

  function EncodeTlvs(ts: seq<Tlv>): bytes {
    if ts == [] then [] else EncodeTlv(ts[0]) + EncodeTlvs(ts[1..])
  }

  lemma HeaderFields(kind: nat, length: nat, tail: bytes)
    requires kind < 0x1_0000 && length < 0x1_0000
    ensures var msg := EncodeHeader(kind, length) + tail;
      Be(msg[..2]) == kind && Be(msg[2..4]) == length
  {
    var msg := EncodeHeader(kind, length) + tail;
    assert msg[..2] == Encode(kind, 2) && msg[2..4] == Encode(length, 2);
    assert Pow256(2) == 0x1_0000;
    BeEncode(kind, 2);
    BeEncode(length, 2);
  }

  lemma HeadOfEncoded(t: Tlv, more: bytes)
    requires Encodable(t)
    ensures var msg := EncodeTlv(t) + more; Head(msg) == t && Tail(msg) == more
  {
    var msg := EncodeTlv(t) + more;
    assert msg == EncodeHeader(t.kind, |t.value|) + (t.value + more);
    HeaderFields(t.kind, |t.value|, t.value + more);
    assert msg[4..4 + |t.value|] == t.value;
  }

  lemma CutEncodedOne(t: Tlv, more: bytes)
    requires Encodable(t)
    ensures CutTlvs(EncodeTlv(t) + more) == CutUp([t] + CutTlvs(more).tlvs, CutTlvs(more).rest)
  {
    HeadOfEncoded(t, more);
  }

  lemma EncodeTlvsCons(ts: seq<Tlv>, tail: bytes)
    requires ts != []
    ensures EncodeTlvs(ts) + tail == EncodeTlv(ts[0]) + (EncodeTlvs(ts[1..]) + tail)
  {
  }

  lemma ConsConcat(ts: seq<Tlv>, us: seq<Tlv>)
    requires ts != []
    ensures [ts[0]] + (ts[1..] + us) == ts + us
  {
  }

  lemma {:induction false} CutEncoded(ts: seq<Tlv>, tail: bytes)
    requires forall t :: t in ts ==> Encodable(t)
    ensures CutTlvs(EncodeTlvs(ts) + tail) == CutUp(ts + CutTlvs(tail).tlvs, CutTlvs(tail).rest)
    decreases |ts|
  {
    if ts == [] {
      assert EncodeTlvs(ts) + tail == tail;
    } else {
      EncodeTlvsCons(ts, tail);
      assert Encodable(ts[0]);
      CutEncodedOne(ts[0], EncodeTlvs(ts[1..]) + tail);
      CutEncoded(ts[1..], tail);
      ConsConcat(ts, CutTlvs(tail).tlvs);
    }
  }

  /** Every byte string is a list of encoded TLVs followed by a tail that holds no
      complete TLV: nothing, one to three bytes, or a header whose value is cut
      short by the end of the message. */
  predicate IncompleteTail(tail: bytes) {
    |tail| < 4 || 4 + Be(tail[2..4]) > |tail|
  }

  lemma {:induction false} Grammar(msg: bytes) returns (ts: seq<Tlv>, tail: bytes)
    ensures forall t :: t in ts ==> Encodable(t)
    ensures msg == EncodeTlvs(ts) + tail && IncompleteTail(tail)
    decreases |msg|
  {
    if IncompleteTail(msg) {
      ts, tail := [], msg;
    } else {
      var t := Head(msg);
      var more;
      more, tail := Grammar(Tail(msg));
      ts := [t] + more;
      EncodeBe(msg[..2]);
      EncodeBe(msg[2..4]);
      assert Pow256(2) == 0x1_0000;
      assert msg == msg[..2] + msg[2..4] + t.value + Tail(msg);
      assert ts[1..] == more;
    }
  }

  /** A message leaves bytes over exactly when one to three stray bytes follow
      complete TLVs; a clipped final value is accepted. */
  lemma LeftOver(msg: bytes)
    ensures CutTlvs(msg).rest != [] <==>
            exists ts, tail :: (forall t :: t in ts ==> Encodable(t))
                            && msg == EncodeTlvs(ts) + tail && 1 <= |tail| <= 3
  {
    var ts, tail := Grammar(msg);
    CutEncoded(ts, tail);
    forall us, end | (forall t :: t in us ==> Encodable(t)) && msg == EncodeTlvs(us) + end && 1 <= |end| <= 3
      ensures CutTlvs(msg).rest != []
    {
      CutEncoded(us, end);
    }
  }

  /** The layout in single bytes: two of type, two of length, the value, whatever
      follows; a last value may be shorter than its length. */
  lemma {:induction false} TlvLayout(k1: byte, k0: byte, n1: byte, n0: byte, value: bytes, more: bytes)
    requires |value| == 0x100 * n1 + n0 || (|value| < 0x100 * n1 + n0 && more == [])
    ensures var c := CutTlvs(more);
      CutTlvs([k1, k0] + [n1, n0] + value + more) == CutUp([Tlv(0x100 * k1 + k0, value)] + c.tlvs, c.rest)
    ensures |more| < 4 ==> CutTlvs(more) == CutUp([], more)
  {
    FixedNumbers(k1, k0, 0, 0);
    FixedNumbers(n1, n0, 0, 0);
    LayoutSlices([k1, k0], [n1, n0], value, more);
  }

  lemma {:induction false} LayoutSlices(kind: bytes, length: bytes, value: bytes, more: bytes)
    requires |kind| == 2 && |length| == 2
    requires |value| == Be(length) || (|value| < Be(length) && more == [])
    ensures var msg := kind + length + value + more; Head(msg) == Tlv(Be(kind), value) && Tail(msg) == more
  {
    var msg := kind + length + value + more;
    assert msg[..2] == kind && msg[2..4] == length;
  }

  // ---- dictionaries filled from TLVs ----

  /** A Python dictionary key: a name, or the bare type number. */
  datatype Key = Name(text: string) | Code(code: nat)

  /** The last value with the given type. */
  function LastValue(ts: seq<Tlv>, kind: nat): Option<bytes> {
    if ts == [] then None
    else if ts[|ts| - 1].kind == kind then Some(ts[|ts| - 1].value)
    else LastValue(ts[..|ts| - 1], kind)
  }

  lemma {:induction false} LastValueIsLast(ts: seq<Tlv>, i: nat)
    requires i < |ts|
    requires forall j :: i < j < |ts| ==> ts[j].kind != ts[i].kind
    ensures LastValue(ts, ts[i].kind) == Some(ts[i].value)
    decreases |ts|
  {
    if i < |ts| - 1 {
      LastValueIsLast(ts[..|ts| - 1], i);
    }
  }

  lemma {:induction false} NoValueExactly(ts: seq<Tlv>, kind: nat)
    ensures LastValue(ts, kind).None? <==> forall i :: 0 <= i < |ts| ==> ts[i].kind != kind
  {
    if ts != [] {
      NoValueExactly(ts[..|ts| - 1], kind);
    }
  }

  function KeyOf(names: map<nat, string>, kind: nat): Key {
    if kind in names then Name(names[kind]) else Code(kind)
  }

  predicate DistinctNames(names: map<nat, string>) {
    forall i, j :: i in names && j in names && names[i] == names[j] ==> i == j
  }

  /** The dictionary holds the last value of every type present, nothing else. */
  ghost predicate HoldsLast(d: map<Key, bytes>, names: map<nat, string>, ts: seq<Tlv>) {
    && (forall kind: nat :: KeyOf(names, kind) in d <==> LastValue(ts, kind).Some?)
    && (forall kind: nat :: KeyOf(names, kind) in d ==> LastValue(ts, kind) == Some(d[KeyOf(names, kind)]))
    && (forall k :: k in d ==> exists kind: nat :: k == KeyOf(names, kind))
  }

  lemma HoldsLastIsFunctional(d: map<Key, bytes>, e: map<Key, bytes>, names: map<nat, string>, ts: seq<Tlv>)
    requires HoldsLast(d, names, ts) && HoldsLast(e, names, ts)
    ensures d == e
  {
    forall k | k in d ensures k in e {
      var kind: nat :| k == KeyOf(names, kind);
    }
    forall k | k in e ensures k in d {
      var kind: nat :| k == KeyOf(names, kind);
    }
    forall k | k in d ensures d[k] == e[k] {
      var kind: nat :| k == KeyOf(names, kind);
    }
  }

  const INIT_NAMES: map<nat, string> := map[0 := "String", 1 := "sysDescr", 2 := "sysName"]
  const TERM_NAMES: map<nat, string> := map[0 := "String", 1 := "Reason"]

  /** The keys of both messages, spelt out. */
  lemma KeysExactly(kind: nat)
    ensures KeyOf(INIT_NAMES, kind) ==
            if kind == 0 then Name("String") else if kind == 1 then Name("sysDescr")
            else if kind == 2 then Name("sysName") else Code(kind)
    ensures KeyOf(TERM_NAMES, kind) ==
            if kind == 0 then Name("String") else if kind == 1 then Name("Reason") else Code(kind)
  {
  }

  lemma TablesAreDistinct()
    ensures DistinctNames(INIT_NAMES) && DistinctNames(TERM_NAMES)
  {
    assert |"String"| == 6 && |"sysDescr"| == 8 && |"sysName"| == 7;
    assert "Reason"[0] != "String"[0];
  }

  /** What the loop computes: an exception on stray bytes, else the last values. */
  function FillDict(names: map<nat, string>, ts: seq<Tlv>): map<Key, bytes> {
    if ts == [] then map[]
    else
      var t := ts[|ts| - 1];
      FillDict(names, ts[..|ts| - 1])[KeyOf(names, t.kind) := t.value]
  }

  lemma {:induction false} FillDictHoldsLast(names: map<nat, string>, ts: seq<Tlv>)
    requires DistinctNames(names)
    ensures HoldsLast(FillDict(names, ts), names, ts)
  {
    if ts != [] {
      var t, front := ts[|ts| - 1], ts[..|ts| - 1];
      var d, e := FillDict(names, front), FillDict(names, ts);
      FillDictHoldsLast(names, front);
      forall kind: nat
        ensures KeyOf(names, kind) in e <==> LastValue(ts, kind).Some?
        ensures KeyOf(names, kind) in e ==> LastValue(ts, kind) == Some(e[KeyOf(names, kind)])
      {
        assert KeyOf(names, kind) == KeyOf(names, t.kind) <==> kind == t.kind;
        assert KeyOf(names, kind) in d <==> LastValue(front, kind).Some?;
      }
      forall k | k in e ensures exists kind: nat :: k == KeyOf(names, kind) {
        if k != KeyOf(names, t.kind) { assert k in d; }
      }
    }
  }

  function Information(names: map<nat, string>, msg: bytes): Result<map<Key, bytes>> {
    var c := CutTlvs(msg);
    if c.rest == [] then Ok(FillDict(names, c.tlvs)) else Raise
  }

  /** `done` TLVs are cut off `raw`, `msg` is what remains. */
  ghost predicate Progress(raw: bytes, done: seq<Tlv>, msg: bytes) {
    CutTlvs(raw) == CutUp(done + CutTlvs(msg).tlvs, CutTlvs(msg).rest)
  }

  lemma ProgressStep(raw: bytes, done: seq<Tlv>, msg: bytes)
    requires Progress(raw, done, msg) && |msg| >= 4
    ensures Progress(raw, done + [Head(msg)], Tail(msg))
  {
    var more := CutTlvs(Tail(msg)).tlvs;
    assert done + ([Head(msg)] + more) == (done + [Head(msg)]) + more;
  }

  /** The three lines at the top of every TLV loop: unpack type and length, slice
      the value, slice the remainder. */
  method TakeTlv(msg: bytes) returns (r: Result<(Tlv, bytes)>)
    ensures r == if |msg| < 4 then Raise else Ok((Head(msg), Tail(msg)))
  {
    var header := UnpackHH(Slice(msg, 0, 4));
    if header.Raise? {
      return Raise;
    }
    assert msg[..4][..2] == msg[..2] && msg[..4][2..] == msg[2..4];
    var (kind, length) := header.value;
    r := Ok((Tlv(kind, Slice(msg, 4, 4 + length)), From(msg, 4 + length)));
  }

  lemma FillDictAppend(names: map<nat, string>, ts: seq<Tlv>, t: Tlv)
    ensures FillDict(names, ts + [t]) == FillDict(names, ts)[KeyOf(names, t.kind) := t.value]
  {
    assert (ts + [t])[..|ts|] == ts;
  }

  /** The loop shared by `parse_initiation_msg` and `parse_termination_msg`. */
  method ParseInformation(names: map<nat, string>, raw: bytes) returns (r: Result<map<Key, bytes>>)
    ensures r == Information(names, raw)
  {
    var msg := raw;
    var msgDict: map<Key, bytes> := map[];
    ghost var done: seq<Tlv> := [];
    while msg != []
      invariant Progress(raw, done, msg)
      invariant msgDict == FillDict(names, done)
      decreases |msg|
    {
      var taken := TakeTlv(msg);
      if taken.Raise? {
        return Raise;
      }
      ProgressStep(raw, done, msg);
      FillDictAppend(names, done, Head(msg));
      done := done + [Head(msg)];
      var (info, rest) := taken.value;
      msg := rest;
      var value := CopyThroughHex(info.value);
      msgDict := msgDict[KeyOf(names, info.kind) := value];
    }
    assert done + [] == done;
    r := Ok(msgDict);
  }

  method ParseInitiation(msg: bytes) returns (r: Result<map<Key, bytes>>)
    ensures r == Information(INIT_NAMES, msg)
  {
    r := ParseInformation(INIT_NAMES, msg);
  }

  method ParseTermination(msg: bytes) returns (r: Result<map<Key, bytes>>)
    ensures r == Information(TERM_NAMES, msg)
  {
    r := ParseInformation(TERM_NAMES, msg);
  }

  /** Encoded information decodes to the last value of each type, whether or not
      the final value is cut short; any string fails exactly on stray bytes. */
  lemma InformationRoundTrip(names: map<nat, string>, ts: seq<Tlv>)
    requires DistinctNames(names) && forall t :: t in ts ==> Encodable(t)
    ensures var r := Information(names, EncodeTlvs(ts)); r.Ok? && HoldsLast(r.value, names, ts)
  {
    CutEncoded(ts, []);
    assert EncodeTlvs(ts) + [] == EncodeTlvs(ts) && ts + [] == ts;
    FillDictHoldsLast(names, ts);
  }

  /** Both messages: encoded information decodes to the only dictionary that holds
      the last value of each type under that message's names. */
  lemma MessagesRoundTrip(ts: seq<Tlv>, names: map<nat, string>, d: map<Key, bytes>)
    requires forall t :: t in ts ==> Encodable(t)
    requires (names == INIT_NAMES || names == TERM_NAMES) && HoldsLast(d, names, ts)
    ensures Information(names, EncodeTlvs(ts)) == Ok(d)
  {
    TablesAreDistinct();
    InformationRoundTrip(names, ts);
    HoldsLastIsFunctional(d, Information(names, EncodeTlvs(ts)).value, names, ts);
  }

  lemma ClippedValueIsAccepted(names: map<nat, string>, ts: seq<Tlv>, kind: nat, length: nat, part: bytes)
    requires DistinctNames(names) && forall t :: t in ts ==> Encodable(t)
    requires kind < 0x1_0000 && |part| < length < 0x1_0000
    ensures var r := Information(names, EncodeTlvs(ts) + EncodeHeader(kind, length) + part);
      r.Ok? && HoldsLast(r.value, names, ts + [Tlv(kind, part)])
  {
    var tail := EncodeHeader(kind, length) + part;
    HeaderFields(kind, length, part);
    assert Head(tail) == Tlv(kind, part) && Tail(tail) == [];
    CutEncoded(ts, tail);
    assert EncodeTlvs(ts) + EncodeHeader(kind, length) + part == EncodeTlvs(ts) + tail;
    FillDictHoldsLast(names, ts + [Tlv(kind, part)]);
  }

  lemma InformationFailsOnStrayBytes(names: map<nat, string>, msg: bytes)
    ensures Information(names, msg).Raise? <==>
            exists ts, tail :: (forall t :: t in ts ==> Encodable(t))
                            && msg == EncodeTlvs(ts) + tail && 1 <= |tail| <= 3
  {
    LeftOver(msg);
  }
}
