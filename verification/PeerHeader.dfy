/** The per-peer header, section 4.2 of RFC 7854. */
module PeerHeader {
  import opened Bytes
  import opened RouteDistinguisher

  const PER_PEER_LEN: nat := 42

  /** An IP address as netaddr keeps it; its text form is one-to-one. */
  datatype Address = Address(version: nat, value: nat)

  /** netaddr.IPAddress(value, version), which rejects a value that is too large. */
  function IpAddress(value: nat, version: nat): Result<Address> {
    if version == 4 && value >= 0x1_0000_0000 then Raise
    else if value >= 0x1_00000000_00000000_00000000_00000000 then Raise
    else Ok(Address(version, value))
  }

  // ---- flags, by way of text ----

  /** One character '0' or '1' per flag. */
  datatype Flags = Flags(v: char, l: char, a: char)

  /** hex(n) without its prefix: no leading zeros. */
  function HexText(n: nat): string {
    if n < 16 then [HexChar(n)] else HexText(n / 16) + [HexChar(n % 16)]
  }

  function Bit(b: bool): char {
    if b then '1' else '0'
  }

  /** The four bits of a hexadecimal digit. */
  function Bits(d: nibble): string {
    [Bit(d / 8 % 2 == 1), Bit(d / 4 % 2 == 1), Bit(d / 2 % 2 == 1), Bit(d % 2 == 1)]
  }

  /** BitArray(hex).bin: four bits per digit. */
  function BinText(hex: string): string {
    if hex == "" then ""
    else
      BinText(hex[..|hex| - 1]) +
      (match HexDigit(hex[|hex| - 1]) case Ok(d) => Bits(d) case Raise => "")
  }

  /** Membership in `valid_flags`: three free bits and five zeros, or four zeros. */
  predicate ValidFlags(bin: string) {
    || bin == "0000"
    || (|bin| == 8 && (forall i :: 0 <= i < 3 ==> bin[i] in "01") && bin[3..] == "00000")
  }

  /** dict(zip(PEER_FLAGS, bin)) for a valid text */
  function FlagsOfText(bin: string): Result<Flags> {
    if ValidFlags(bin) && |bin| >= 3 then Ok(Flags(bin[0], bin[1], bin[2])) else Raise
  }

  function ParseFlags(value: nat): Result<Flags> {
    FlagsOfText(BinText(HexText(value)))
  }

  lemma BinTextOfByte(value: byte)
    ensures BinText(HexText(value)) == if value < 16 then Bits(value) else Bits(value / 16) + Bits(value % 16)
  {
    HexCharDigit(value % 16);
    if value < 16 {
      assert BinText(HexText(value)) == "" + Bits(value);
    } else {
      var hex := [HexChar(value / 16), HexChar(value % 16)];
      assert HexText(value) == hex;
      HexCharDigit(value / 16);
      assert hex[..1] == [HexChar(value / 16)];
      assert BinText(hex[..1]) == "" + Bits(value / 16);
    }
  }

  lemma NibbleBits(d: nibble)
    ensures Bits(d) == "0000" <==> d == 0
    ensures forall i :: 0 <= i < 4 ==> Bits(d)[i] in "01"
  {
    if Bits(d) == "0000" {
      assert Bits(d)[0] == '0' && Bits(d)[1] == '0' && Bits(d)[2] == '0' && Bits(d)[3] == '0';
    }
  }

  lemma TwoNibbles(hi: nibble, lo: nibble)
    ensures var bin := Bits(hi) + Bits(lo); ValidFlags(bin) <==> hi % 2 == 0 && lo == 0
  {
    var bin := Bits(hi) + Bits(lo);
    NibbleBits(hi);
    NibbleBits(lo);
    assert bin[3..] == [Bits(hi)[3]] + Bits(lo);
    assert "00000" == ['0'] + "0000";
    assert bin[3..][0] == Bits(hi)[3] && bin[3..][1..] == Bits(lo);
    assert "00000"[1..] == "0000";
  }

  lemma FlagArithmetic(value: byte)
    ensures var hi, lo := value / 16, value % 16;
      && (hi / 8 % 2 == 1 <==> value >= 128) && hi / 4 % 2 == value / 64 % 2 && hi / 2 % 2 == value / 32 % 2
      && (hi % 2 == 0 && lo == 0 <==> value % 32 == 0)
  {
  }

  /** The text route accepts a flag byte exactly when its low five bits are zero,
      although zero itself has only four bits of text. */
  lemma FlagsExactly(value: byte)
    ensures ParseFlags(value) == if value % 32 == 0 then Ok(FlagsOf(value)) else Raise
  {
    BinTextOfByte(value);
    if value < 16 {
      SmallFlags(value);
    } else {
      BigFlags(value);
    }
  }

  /** The flags a byte stands for. */
  function FlagsOf(value: byte): Flags {
    Flags(Bit(value >= 128), Bit(value / 64 % 2 == 1), Bit(value / 32 % 2 == 1))
  }

  lemma SmallFlags(value: byte)
    requires value < 16
    ensures FlagsOfText(Bits(value)) == if value % 32 == 0 then Ok(FlagsOf(value)) else Raise
  {
    NibbleBits(value);
  }

  lemma BigFlags(value: byte)
    requires value >= 16
    ensures FlagsOfText(Bits(value / 16) + Bits(value % 16)) ==
            if value % 32 == 0 then Ok(FlagsOf(value)) else Raise
  {
    FlagArithmetic(value);
    TwoNibbles(value / 16, value % 16);
  }

  // ---- the header ----

  datatype PeerHeader = PeerHeader(
    kind: byte,
    flags: Flags,
    dist: Option<Dist>,
    addr: Address,
    asn: nat,
    bgpId: Address,
    time: (nat, nat))

  function ParsePerPeerHeader(raw: bytes): Result<PeerHeader> {
    var kind :- UnpackB(Slice(raw, 0, 1));
    if kind > 2 then Raise
    else
      var flagsValue :- HexInt(Slice(raw, 1, 2));
      var flags :- ParseFlags(flagsValue);
      var dist :- ParseDist(kind, Slice(raw, 2, 10));
      var addr :- ParseAddress(flags, Slice(raw, 10, 26));
      var asn :- HexInt(Slice(raw, 26, 30));
      var bgpId :- ParseBgpId(Slice(raw, 30, 34));
      var time :- ParseTime(Slice(raw, 34, 38), Slice(raw, 38, 42));
      Ok(PeerHeader(kind, flags, dist, addr, asn, bgpId, time))
  }

  function ParseAddress(flags: Flags, raw: bytes): Result<Address> {
    var ipValue :- HexInt(raw);
    IpAddress(ipValue, if flags.v == '1' then 6 else 4)
  }

  function ParseBgpId(raw: bytes): Result<Address> {
    var idValue :- HexInt(raw);
    IpAddress(idValue, 4)
  }

  function ParseTime(seconds: bytes, microseconds: bytes): Result<(nat, nat)> {
    var s :- HexInt(seconds);
    var m :- HexInt(microseconds);
    Ok((s, m))
  }

  function ParseDist(kind: byte, rd: bytes): Result<Option<Dist>> {
    if kind == 1 || kind == 2 then
      var dist :- Rd2Str(rd);
      Ok(Some(dist))
    else Ok(None)
  }

  predicate Zeros(b: bytes) {
    forall i :: 0 <= i < |b| ==> b[i] == 0
  }

  lemma {:induction false} BeZero(b: bytes)
    ensures Be(b) == 0 <==> Zeros(b)
  {
    if b != [] {
      BeZero(b[..|b| - 1]);
      assert Zeros(b) <==> Zeros(b[..|b| - 1]) && b[|b| - 1] == 0;
    }
  }

  lemma FieldBounds(b: bytes)
    ensures |b| == 4 ==> Be(b) < 0x1_0000_0000
    ensures |b| == 16 ==> Be(b) < 0x1_00000000_00000000_00000000_00000000
    ensures |b| == 16 ==> (Be(b) < 0x1_0000_0000 <==> Zeros(b[..12]))
  {
    EncodeBe(b);
    PowersOf256();
    if |b| == 16 {
      EncodeBe(b[12..]);
      assert b == b[..12] + b[12..];
      BeConcat(b[..12], b[12..]);
      BeZero(b[..12]);
    }
  }

  lemma PowersOf256()
    ensures Pow256(4) == 0x1_0000_0000
    ensures Pow256(16) == 0x1_00000000_00000000_00000000_00000000
  {
    assert Pow256(8) == 0x1_00000000_00000000 by {
      assert Pow256(6) == 65536 * Pow256(4);
    }
    assert Pow256(12) == 0x1_00000000_00000000_00000000 by {
      assert Pow256(10) == 65536 * Pow256(8);
    }
    assert Pow256(14) == 65536 * Pow256(12);
  }

  /** rd2str always gives text or a byte-string form on eight bytes. */
  lemma DistDecodes(kind: byte, rd: bytes)
    requires |rd| == 8
    ensures ParseDist(kind, rd).Ok?
  {
    HexIntIsBe(rd[2..6]);
  }

  predicate Decodable(raw: bytes)
    requires |raw| == PER_PEER_LEN
  {
    raw[0] <= 2 && raw[1] % 32 == 0 && (raw[1] < 128 ==> Zeros(raw[10..22]))
  }

  function Fields(raw: bytes): PeerHeader
    requires |raw| == PER_PEER_LEN
  {
    PeerHeader(
      raw[0],
      FlagsOf(raw[1]),
      if raw[0] == 0 || Rd2Str(raw[2..10]).Raise? then None else Some(Rd2Str(raw[2..10]).value),
      Address(if raw[1] >= 128 then 6 else 4, Be(raw[10..26])),
      Be(raw[26..30]),
      Address(4, Be(raw[30..34])),
      (Be(raw[34..38]), Be(raw[38..42])))
  }

  lemma AddressExactly(flags: Flags, raw: bytes)
    requires |raw| == 16
    ensures ParseAddress(flags, raw) ==
            if flags.v == '1' then Ok(Address(6, Be(raw)))
            else if Zeros(raw[..12]) then Ok(Address(4, Be(raw)))
            else Raise
  {
    HexIntIsBe(raw);
    FieldBounds(raw);
  }

  lemma BgpIdExactly(raw: bytes)
    requires |raw| == 4
    ensures ParseBgpId(raw) == Ok(Address(4, Be(raw)))
  {
    HexIntIsBe(raw);
    FieldBounds(raw);
  }

  lemma TimeExactly(s: bytes, m: bytes)
    requires |s| == 4 && |m| == 4
    ensures ParseTime(s, m) == Ok((Be(s), Be(m)))
  {
    HexIntIsBe(s);
    HexIntIsBe(m);
  }

  lemma FlagByteDecodes(raw: bytes)
    requires |raw| == PER_PEER_LEN
    ensures HexInt(Slice(raw, 1, 2)) == Ok(raw[1])
  {
    assert Slice(raw, 1, 2) == [raw[1]];
    HexIntIsBe([raw[1]]);
  }

  /** A 42-byte header decodes exactly when the type is 0 to 2, the low five flag
      bits are zero and, with V clear, the top twelve address bytes are zero. */
  lemma HeaderExactly(raw: bytes)
    requires |raw| == PER_PEER_LEN
    ensures ParsePerPeerHeader(raw) == if Decodable(raw) then Ok(Fields(raw)) else Raise
  {
    FlagByteDecodes(raw);
    FlagsExactly(raw[1]);
    DistDecodes(raw[0], raw[2..10]);
    AddressExactly(FlagsOf(raw[1]), raw[10..26]);
    assert raw[10..26][..12] == raw[10..22];
    HexIntIsBe(raw[26..30]);
    BgpIdExactly(raw[30..34]);
    TimeExactly(raw[34..38], raw[38..42]);
  }

  /** Field by field, in offsets and numbers, also where the microseconds are cut short
      and read from the one to three bytes that are there. */
  lemma {:induction false} HeaderLayout(raw: bytes)
    requires 39 <= |raw| <= 42
    ensures var v6 := raw[1] >= 128;
      ParsePerPeerHeader(raw) ==
      if raw[0] > 2 || raw[1] % 32 != 0 || (!v6 && raw[10..22] != [0, 0, 0, 0, 0, 0, 0, 0, 0, 0, 0, 0]) then Raise
      else Ok(PeerHeader(
        raw[0],
        Flags(if v6 then '1' else '0', if raw[1] / 64 % 2 == 1 then '1' else '0',
              if raw[1] / 32 % 2 == 1 then '1' else '0'),
        if raw[0] == 0 || Rd2Str(raw[2..10]).Raise? then None else Some(Rd2Str(raw[2..10]).value),
        Address(if v6 then 6 else 4, Be(raw[10..26])), Be(raw[26..30]), Address(4, Be(raw[30..34])),
        (Be(raw[34..38]), Be(raw[38..]))))
  {
    HeaderOfSlices(raw, raw[0], raw[1], raw[2..10], raw[10..26], raw[26..30], raw[30..34], raw[34..38], raw[38..]);
    assert raw[10..26][..12] == raw[10..22];
    TwelveZeros(raw[10..22]);
    DistDecodes(raw[0], raw[2..10]);
  }

  lemma {:induction false} HeaderOfSlices(raw: bytes, kind: byte, flags: byte, rd: bytes, addr: bytes,
                                          asn: bytes, id: bytes, s: bytes, m: bytes)
    requires |rd| == 8 && |addr| == 16 && |asn| == 4 && |id| == 4 && |s| == 4 && 1 <= |m| <= 4
    requires Slice(raw, 0, 1) == [kind] && Slice(raw, 1, 2) == [flags] && Slice(raw, 2, 10) == rd
    requires Slice(raw, 10, 26) == addr && Slice(raw, 26, 30) == asn && Slice(raw, 30, 34) == id
    requires Slice(raw, 34, 38) == s && Slice(raw, 38, 42) == m
    ensures ParsePerPeerHeader(raw) ==
            if kind > 2 || flags % 32 != 0 || (flags < 128 && !Zeros(addr[..12])) then Raise
            else Ok(PeerHeader(
              kind, FlagsOf(flags), if ParseDist(kind, rd).Ok? then ParseDist(kind, rd).value else None,
              Address(if flags >= 128 then 6 else 4, Be(addr)), Be(asn), Address(4, Be(id)), (Be(s), Be(m))))
  {
    ByteField(flags);
    FlagsExactly(flags);
    DistDecodes(kind, rd);
    AddressExactly(FlagsOf(flags), addr);
    BgpIdExactly(id);
    NumberFields(asn, s, m);
    HeaderFromParts(raw, kind, flags, Be(asn), Address(4, Be(id)), (Be(s), Be(m)));
  }

  lemma ByteField(b: byte)
    ensures HexInt([b]) == Ok(b)
  {
    HexIntIsBe([b]);
    assert Be([b]) == b;
  }

  lemma TwelveZeros(b: bytes)
    requires |b| == 12
    ensures Zeros(b) <==> b == [0, 0, 0, 0, 0, 0, 0, 0, 0, 0, 0, 0]
  {
  }

  lemma NumberFields(asn: bytes, s: bytes, m: bytes)
    requires asn != [] && s != [] && m != []
    ensures HexInt(asn) == Ok(Be(asn)) && ParseTime(s, m) == Ok((Be(s), Be(m)))
  {
    HexIntIsBe(asn);
    HexIntIsBe(s);
    HexIntIsBe(m);
  }

  lemma {:induction false} HeaderFromParts(raw: bytes, kind: byte, flags: byte, asn: nat, bgpId: Address,
                                           time: (nat, nat))
    requires Slice(raw, 0, 1) == [kind] && HexInt(Slice(raw, 1, 2)) == Ok(flags)
    requires HexInt(Slice(raw, 26, 30)) == Ok(asn) && ParseBgpId(Slice(raw, 30, 34)) == Ok(bgpId)
    requires ParseTime(Slice(raw, 34, 38), Slice(raw, 38, 42)) == Ok(time)
    ensures var f, d := ParseFlags(flags), ParseDist(kind, Slice(raw, 2, 10));
      ParsePerPeerHeader(raw) ==
      if kind > 2 || f.Raise? || d.Raise? || ParseAddress(f.value, Slice(raw, 10, 26)).Raise? then Raise
      else Ok(PeerHeader(kind, f.value, d.value, ParseAddress(f.value, Slice(raw, 10, 26)).value, asn, bgpId, time))
  {
  }

  /** Below 39 bytes no header decodes. */
  lemma ShortHeaderFails(raw: bytes)
    requires |raw| < 39
    ensures ParsePerPeerHeader(raw).Raise?
  {
    HexIntIsBe(Slice(raw, 38, 42));
  }

  /** The flag byte that shows as the given characters. */
  function FlagByte(f: Flags): byte {
    (if f.v == '1' then 128 else 0) + (if f.l == '1' then 64 else 0) + (if f.a == '1' then 32 else 0)
  }

  /** A header written out; the distinguisher is given as its eight bytes. */
  function EncodeHeader(h: PeerHeader, rd: bytes): bytes {
    [h.kind, FlagByte(h.flags)] + rd + Encode(h.addr.value, 16) + Encode(h.asn, 4)
    + Encode(h.bgpId.value, 4) + Encode(h.time.0, 4) + Encode(h.time.1, 4)
  }

  lemma EncodeSlices(h: PeerHeader, rd: bytes)
    requires |rd| == 8
    ensures var e := EncodeHeader(h, rd);
      && |e| == PER_PEER_LEN && e[0] == h.kind && e[1] == FlagByte(h.flags) && e[2..10] == rd
      && e[10..26] == Encode(h.addr.value, 16) && e[26..30] == Encode(h.asn, 4)
      && e[30..34] == Encode(h.bgpId.value, 4)
      && e[34..38] == Encode(h.time.0, 4) && e[38..42] == Encode(h.time.1, 4)
  {
  }

  /** Agreement on every field's bytes but the distinguisher's. */
  predicate SameFields(a: bytes, b: bytes)
    requires |a| == PER_PEER_LEN && |b| == PER_PEER_LEN
  {
    && a[0] == b[0] && a[1] == b[1] && a[10..26] == b[10..26] && a[26..30] == b[26..30]
    && a[30..34] == b[30..34] && a[34..38] == b[34..38] && a[38..42] == b[38..42]
  }

  lemma SameFieldsSameBytes(a: bytes, b: bytes)
    requires |a| == PER_PEER_LEN && |b| == PER_PEER_LEN
    requires SameFields(a, b)
    ensures a[..2] == b[..2] && a[10..] == b[10..]
    ensures a[2..10] == b[2..10] ==> a == b
  {
    forall i | 10 <= i < PER_PEER_LEN ensures a[i] == b[i] {
      if i < 26 {
        assert a[i] == a[10..26][i - 10] && b[i] == b[10..26][i - 10];
      } else if i < 30 {
        assert a[i] == a[26..30][i - 26] && b[i] == b[26..30][i - 26];
      } else if i < 34 {
        assert a[i] == a[30..34][i - 30] && b[i] == b[30..34][i - 30];
      } else if i < 38 {
        assert a[i] == a[34..38][i - 34] && b[i] == b[34..38][i - 34];
      } else {
        assert a[i] == a[38..42][i - 38] && b[i] == b[38..42][i - 38];
      }
    }
    if a[2..10] == b[2..10] {
      assert a == a[..2] + a[2..10] + a[10..] && b == b[..2] + b[2..10] + b[10..];
    }
  }

  lemma SameBytesSameFields(a: bytes, b: bytes)
    requires |a| == PER_PEER_LEN && |b| == PER_PEER_LEN
    requires a[..2] == b[..2] && a[10..] == b[10..]
    ensures SameFields(a, b)
  {
    assert a[0] == a[..2][0] && a[1] == a[..2][1] && b[0] == b[..2][0] && b[1] == b[..2][1];
    forall i | 10 <= i < PER_PEER_LEN ensures a[i] == b[i] {
      assert a[i] == a[10..][i - 10] && b[i] == b[10..][i - 10];
    }
  }

  /** Re-encoding a decoded header with its distinguisher gives the 42 bytes back:
      nothing but the distinguisher can be lost. */
  lemma HeaderRoundTrip(raw: bytes)
    requires |raw| == PER_PEER_LEN && Decodable(raw)
    ensures ParsePerPeerHeader(raw).Ok?
    ensures EncodeHeader(ParsePerPeerHeader(raw).value, raw[2..10]) == raw
  {
    HeaderExactly(raw);
    var h := Fields(raw);
    EncodeSlices(h, raw[2..10]);
    FlagByteBack(raw[1]);
    FieldsBack(raw);
    SameFieldsSameBytes(EncodeHeader(h, raw[2..10]), raw);
  }

  lemma FlagByteBack(value: byte)
    requires value % 32 == 0
    ensures FlagByte(FlagsOf(value)) == value
  {
  }

  lemma FieldsBack(raw: bytes)
    requires |raw| == PER_PEER_LEN
    ensures Encode(Be(raw[10..26]), 16) == raw[10..26] && Encode(Be(raw[26..30]), 4) == raw[26..30]
    ensures Encode(Be(raw[30..34]), 4) == raw[30..34] && Encode(Be(raw[34..38]), 4) == raw[34..38]
    ensures Encode(Be(raw[38..42]), 4) == raw[38..42]
  {
    EncodeBe(raw[10..26]);
    EncodeBe(raw[26..30]);
    EncodeBe(raw[30..34]);
    EncodeBe(raw[34..38]);
    EncodeBe(raw[38..42]);
  }

  /** What fits the fields of a header on the wire. */
  predicate Representable(h: PeerHeader, rd: bytes) {
    && h.kind <= 2 && |rd| == 8
    && h.flags.v in "01" && h.flags.l in "01" && h.flags.a in "01"
    && h.dist == (if h.kind == 0 || Rd2Str(rd).Raise? then None else Some(Rd2Str(rd).value))
    && h.addr.version == (if h.flags.v == '1' then 6 else 4)
    && h.addr.value < (if h.flags.v == '1' then Pow256(16) else Pow256(4))
    && h.asn < Pow256(4) && h.bgpId.version == 4 && h.bgpId.value < Pow256(4)
    && h.time.0 < Pow256(4) && h.time.1 < Pow256(4)
  }

  /** Decoding after encoding is the identity on every field. */
  lemma FieldsRoundTrip(h: PeerHeader, rd: bytes)
    requires Representable(h, rd)
    ensures ParsePerPeerHeader(EncodeHeader(h, rd)) == Ok(h)
  {
    var e := EncodeHeader(h, rd);
    EncodeSlices(h, rd);
    BeEncode(h.addr.value, 16) by { PowersOf256(); }
    BeEncode(h.asn, 4);
    BeEncode(h.bgpId.value, 4);
    BeEncode(h.time.0, 4);
    BeEncode(h.time.1, 4);
    assert h.flags.v != '1' ==> Zeros(e[10..22]) by {
      PowersOf256();
      FieldBounds(e[10..26]);
      assert e[10..26][..12] == e[10..22];
    }
    FlagsBack(h.flags);
    DistDecodes(h.kind, rd);
    HeaderExactly(e);
  }

  lemma FlagsBack(f: Flags)
    requires f.v in "01" && f.l in "01" && f.a in "01"
    ensures FlagByte(f) % 32 == 0 && f == FlagsOf(FlagByte(f))
  {
  }

  /** Two headers decode alike exactly when they agree outside the distinguisher
      and, for types 1 and 2, their distinguishers share text. */
  lemma DecodeAlike(a: bytes, b: bytes)
    requires |a| == PER_PEER_LEN && |b| == PER_PEER_LEN
    requires Decodable(a) && Decodable(b)
    ensures ParsePerPeerHeader(a) == ParsePerPeerHeader(b) <==>
            && a[..2] == b[..2] && a[10..] == b[10..]
            && (a[0] == 0 || Rd2Str(a[2..10]) == Rd2Str(b[2..10]))
  {
    DistDecodes(a[0], a[2..10]);
    DistDecodes(b[0], b[2..10]);
    DecodedFields(a);
    DecodedFields(b);
    if ParsePerPeerHeader(a) == ParsePerPeerHeader(b) {
      var h := ParsePerPeerHeader(a).value;
      HeaderRoundTrip(a);
      HeaderRoundTrip(b);
      EncodeSlices(h, a[2..10]);
      EncodeSlices(h, b[2..10]);
      SameFieldsSameBytes(a, b);
    } else if a[..2] == b[..2] && a[10..] == b[10..] {
      SameBytesSameFields(a, b);
    }
  }

  lemma DecodedFields(raw: bytes)
    requires |raw| == PER_PEER_LEN && Decodable(raw)
    ensures ParsePerPeerHeader(raw) == Ok(Fields(raw))
  {
    HeaderExactly(raw);
  }
}
