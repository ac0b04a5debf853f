/** Peer Up notifications: address, ports and two BGP OPEN messages, section 4.10
    of RFC 7854. */
module PeerUp {
  import opened Bytes
  import opened Bgp
  import opened PeerHeader

  datatype PeerUp = PeerUp(
    localAddress: Address,
    localPort: nat,
    remotePort: nat,
    sentOpen: string,
    receivedOpen: string)

  function ParsePeerUp(p: Parsers, msg: bytes, flags: Flags): Result<PeerUp> {
    var localAddress :- ParseAddress(flags, Slice(msg, 0, 16));
    var localPort :- HexInt(Slice(msg, 16, 18));
    var remotePort :- HexInt(Slice(msg, 18, 20));
    var openMsgData := From(msg, 20);
    var length :- UnpackH(Slice(openMsgData, 16, 18));
    var sentOpen :- p.open(Slice(openMsgData, HDR_LEN, length));
    var receivedOpen :- p.open(From(From(openMsgData, length), HDR_LEN));
    Ok(PeerUp(localAddress, localPort, remotePort, sentOpen, receivedOpen))
  }

  /** A BGP message whose length field, behind the 16-byte marker, is its size. */
  predicate SizedPdu(pdu: bytes) {
    |pdu| >= 18 && Be(pdu[16..18]) == |pdu|
  }

  /** Every byte string, cut short anywhere: nothing below 38 bytes decodes; from
      there on the first OPEN body runs from offset 39 to the length in its header, the
      second from 19 bytes behind that to the end. */
  lemma PeerUpExactly(p: Parsers, msg: bytes, flags: Flags)
    ensures |msg| < 38 ==> ParsePeerUp(p, msg, flags).Raise?
    ensures |msg| >= 38 ==>
      var first := 20 + Be(msg[36..38]);
      var a, b := p.open(Slice(msg, 39, first)), p.open(From(msg, first + 19));
      ParsePeerUp(p, msg, flags) ==
      if (flags.v != '1' && !Zeros(msg[..12])) || a.Raise? || b.Raise? then Raise
      else Ok(PeerUp(Address(if flags.v == '1' then 6 else 4, Be(msg[..16])), Be(msg[16..18]), Be(msg[18..20]),
                     a.value, b.value))
  {
    if |msg| >= 38 {
      OpensAt(msg, Be(msg[36..38]));
      AddressExactly(flags, msg[..16]);
      assert msg[..16][..12] == msg[..12];
      HexIntIsBe(msg[16..18]);
      HexIntIsBe(msg[18..20]);
    }
  }

  lemma OpensAt(msg: bytes, n: nat)
    requires |msg| >= 38
    ensures var data := From(msg, 20);
      && Slice(data, 16, 18) == msg[36..38] && Slice(data, HDR_LEN, n) == Slice(msg, 39, 20 + n)
      && From(From(data, n), HDR_LEN) == From(msg, 20 + n + 19)
  {
  }

  /** The two OPEN messages are told apart by the length field of the first: each
      parser call gets exactly one body, whatever the second message is. */
  lemma PeerUpSplit(p: Parsers, flags: Flags, addr: nat, localPort: nat, remotePort: nat, sent: bytes, received: bytes)
    requires addr < if flags.v == '1' then Pow256(16) else Pow256(4)
    requires localPort < 0x1_0000 && remotePort < 0x1_0000
    requires SizedPdu(sent)
    ensures var msg := Encode(addr, 16) + Encode(localPort, 2) + Encode(remotePort, 2) + (sent + received);
      var a, b := p.open(From(sent, HDR_LEN)), p.open(From(received, HDR_LEN));
      ParsePeerUp(p, msg, flags) ==
      if a.Raise? || b.Raise? then Raise
      else Ok(PeerUp(Address(if flags.v == '1' then 6 else 4, addr), localPort, remotePort, a.value, b.value))
  {
    FixedPart(addr, localPort, remotePort, sent + received);
    assert Pow256(2) == 0x1_0000;
    HexIntEncode(localPort, 2);
    HexIntEncode(remotePort, 2);
    AddressEncoded(flags, addr);
    OpensSplit(sent, received);
  }

  lemma AddressEncoded(flags: Flags, addr: nat)
    requires addr < if flags.v == '1' then Pow256(16) else Pow256(4)
    ensures ParseAddress(flags, Encode(addr, 16)) == Ok(Address(if flags.v == '1' then 6 else 4, addr))
  {
    PowersOf256();
    HexIntEncode(addr, 16);
  }

  lemma FixedPart(addr: nat, localPort: nat, remotePort: nat, opens: bytes)
    ensures var msg := Encode(addr, 16) + Encode(localPort, 2) + Encode(remotePort, 2) + opens;
      && Slice(msg, 0, 16) == Encode(addr, 16) && Slice(msg, 16, 18) == Encode(localPort, 2)
      && Slice(msg, 18, 20) == Encode(remotePort, 2) && From(msg, 20) == opens
  {
  }

  lemma OpensSplit(sent: bytes, received: bytes)
    requires SizedPdu(sent)
    ensures var data := sent + received;
      && UnpackH(Slice(data, 16, 18)) == Ok(|sent|)
      && Slice(data, HDR_LEN, |sent|) == From(sent, HDR_LEN)
      && From(From(data, |sent|), HDR_LEN) == From(received, HDR_LEN)
  {
    var data := sent + received;
    assert Slice(data, 16, 18) == sent[16..18];
    assert From(data, |sent|) == received;
  }

  /** The condition is exact: for two messages with headers, both parser calls get
      their own body if and only if the first length field is the first size. */
  lemma SplitExactly(sent: bytes, received: bytes)
    requires |sent| >= HDR_LEN && |received| >= HDR_LEN
    ensures var data, n := sent + received, Be(sent[16..18]);
      && UnpackH(Slice(data, 16, 18)) == Ok(n)
      && (Slice(data, HDR_LEN, n) == From(sent, HDR_LEN) && From(From(data, n), HDR_LEN) == From(received, HDR_LEN)
          <==> SizedPdu(sent))
  {
    var data, n := sent + received, Be(sent[16..18]);
    assert Slice(data, 16, 18) == sent[16..18];
    if SizedPdu(sent) {
      OpensSplit(sent, received);
    } else {
      WrongSize(data, |sent|, n);
    }
  }

  /** With another length field one of the two bodies has the wrong length. */
  lemma WrongSize(data: bytes, size: nat, n: nat)
    requires HDR_LEN <= size && size + HDR_LEN <= |data| && n != size
    ensures |Slice(data, HDR_LEN, n)| != size - HDR_LEN || |From(From(data, n), HDR_LEN)| != |data| - size - HDR_LEN
  {
  }
}
