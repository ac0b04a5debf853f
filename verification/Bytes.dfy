/** Byte strings as Python handles them: clipping slices, big-endian numbers and
    the detour through hexadecimal text that the decoders take. */
module Bytes {

  type byte = b: int | 0 <= b < 256
  type bytes = seq<byte>

  datatype Option<+T> = None | Some(value: T)

  /** What a Python call gives back: a value, or an exception. */
  datatype Result<+T> = Ok(value: T) | Raise {
    predicate IsFailure() {
      Raise?
    }

    function PropagateFailure<U>(): Result<U>
      requires Raise?
    {
      Raise
    }

    function Extract(): T
      requires Ok?
    {
      value
    }
  }

  // ---- slices ----

  /** b[lo:hi]: out-of-range bounds are clipped, an inverted range is empty. */
  function Slice(b: bytes, lo: nat, hi: nat): bytes {
    var h := if hi <= |b| then hi else |b|;
    if lo <= h then b[lo..h] else []
  }

  /** b[lo:] */
  function From(b: bytes, lo: nat): bytes {
    if lo <= |b| then b[lo..] else []
  }

  /** A slice has the bytes of the positions that exist, in order; it never raises. */
  lemma SliceExactly(b: bytes, lo: nat, hi: nat, k: nat)
    ensures |Slice(b, lo, hi)| == if lo < hi && lo < |b| then (if hi < |b| then hi else |b|) - lo else 0
    ensures k < |Slice(b, lo, hi)| ==> lo + k < |b| && Slice(b, lo, hi)[k] == b[lo + k]
    ensures From(b, lo) == Slice(b, lo, |b|)
  {
  }

  // ---- big-endian numbers ----

  /** int.from_bytes(b, "big"), which gives 0 on the empty string. */
  function Be(b: bytes): nat {
    if b == [] then 0 else Be(b[..|b| - 1]) * 256 + b[|b| - 1]
  }

  function Encode(n: nat, width: nat): (b: bytes)
    ensures |b| == width
  {
    if width == 0 then [] else Encode(n / 256, width - 1) + [n % 256]
  }

  function Pow256(k: nat): (p: nat)
    ensures p > 0
  {
    if k == 0 then 1 else 256 * Pow256(k - 1)
  }

  lemma {:induction false} BeEncode(n: nat, width: nat)
    requires n < Pow256(width)
    ensures Be(Encode(n, width)) == n
  {
    if width > 0 {
      BeEncode(n / 256, width - 1);
      assert Encode(n, width)[..width - 1] == Encode(n / 256, width - 1);
    }
  }

  lemma {:induction false} EncodeBe(b: bytes)
    ensures Encode(Be(b), |b|) == b
    ensures Be(b) < Pow256(|b|)
  {
    if b != [] {
      EncodeBe(b[..|b| - 1]);
      assert Be(b) / 256 == Be(b[..|b| - 1]) && Be(b) % 256 == b[|b| - 1];
      assert b == b[..|b| - 1] + [b[|b| - 1]];
    }
  }

  lemma {:induction false} BeConcat(a: bytes, b: bytes)
    ensures Be(a + b) == Be(a) * Pow256(|b|) + Be(b)
  {
    if b == [] {
      assert a + b == a;
    } else {
      var c := b[..|b| - 1];
      assert (a + b)[..|a + b| - 1] == a + c;
      BeConcat(a, c);
      assert Be(a) * Pow256(|b|) == Be(a) * Pow256(|c|) * 256;
    }
  }

  /** Two and four bytes, most significant first. */
  lemma {:induction false} FixedNumbers(a: byte, b: byte, c: byte, d: byte)
    ensures Be([a, b]) == 0x100 * a + b
    ensures Be([a, b, c, d]) == 0x100_0000 * a + 0x1_0000 * b + 0x100 * c + d
  {
    assert [a][..0] == [] && Be([a]) == a;
    assert [a, b][..1] == [a] && Be([a, b]) == 0x100 * a + b;
    assert [a, b, c][..2] == [a, b] && [a, b, c, d][..3] == [a, b, c];
  }

  /** struct.unpack('!HH', s) */
  function UnpackHH(s: bytes): Result<(nat, nat)> {
    if |s| == 4 then Ok((Be(s[..2]), Be(s[2..]))) else Raise
  }

  /** struct.unpack('!H', s)[0] */
  function UnpackH(s: bytes): Result<nat> {
    if |s| == 2 then Ok(Be(s)) else Raise
  }

  /** struct.unpack('!B', s)[0] */
  function UnpackB(s: bytes): Result<byte> {
    if |s| == 1 then Ok(s[0]) else Raise
  }

  // ---- hexadecimal text ----

  type nibble = d: int | 0 <= d < 16

  function HexChar(d: nibble): char {
    if d < 10 then '0' + d as char else 'a' + (d - 10) as char
  }

  function HexDigit(c: char): Result<nibble> {
    if '0' <= c <= '9' then Ok((c - '0') as int)
    else if 'a' <= c <= 'f' then Ok((c - 'a') as int + 10)
    else Raise
  }

  /** binascii.b2a_hex / hexlify */
  function Hexlify(b: bytes): string {
    if b == [] then ""
    else Hexlify(b[..|b| - 1]) + [HexChar(b[|b| - 1] / 16), HexChar(b[|b| - 1] % 16)]
  }

  /** binascii.unhexlify */
  function Unhexlify(t: string): Result<bytes> {
    if t == "" then Ok([])
    else if |t| == 1 then Raise
    else
      var front :- Unhexlify(t[..|t| - 2]);
      var hi :- HexDigit(t[|t| - 2]);
      var lo :- HexDigit(t[|t| - 1]);
      Ok(front + [hi * 16 + lo])
  }

  /** int(t, 16), which rejects the empty text. */
  function IntBase16(t: string): Result<nat> {
    if t == "" then Raise
    else
      var lo :- HexDigit(t[|t| - 1]);
      if |t| == 1 then Ok(lo)
      else
        var hi :- IntBase16(t[..|t| - 1]);
        Ok(hi * 16 + lo)
  }

  /** int(binascii.b2a_hex(b), 16), the decoders' way to read a number. */
  function HexInt(b: bytes): Result<nat> {
    IntBase16(Hexlify(b))
  }

  lemma HexCharDigit(d: nibble)
    ensures HexDigit(HexChar(d)) == Ok(d)
  {
  }

  /** The hexadecimal detour computes the base-256 value, for any length. */
  lemma {:induction false} HexIntIsBe(b: bytes)
    ensures HexInt(b) == if b == [] then Raise else Ok(Be(b))
  {
    if b != [] {
      var front, last := b[..|b| - 1], b[|b| - 1];
      var t := Hexlify(b);
      var t' := t[..|t| - 1];
      assert t'[..|t'| - 1] == Hexlify(front) && t' != "";
      HexCharDigit(last / 16);
      HexCharDigit(last % 16);
      HexIntIsBe(front);
      assert IntBase16(t') == Ok((if front == [] then 0 else Be(front)) * 16 + last / 16);
    }
  }

  lemma HexIntEncode(n: nat, width: nat)
    requires width > 0 && n < Pow256(width)
    ensures HexInt(Encode(n, width)) == Ok(n)
  {
    HexIntIsBe(Encode(n, width));
    BeEncode(n, width);
  }

  lemma {:induction false} UnhexlifyHexlify(b: bytes)
    ensures Unhexlify(Hexlify(b)) == Ok(b)
  {
    if b != [] {
      var front, last := b[..|b| - 1], b[|b| - 1];
      var t := Hexlify(b);
      assert t[..|t| - 2] == Hexlify(front);
      HexCharDigit(last / 16);
      HexCharDigit(last % 16);
      UnhexlifyHexlify(front);
      assert b == front + [last];
    }
  }

  /** int(binascii.b2a_hex(b), 16), computed */
  method ReadNumber(b: bytes) returns (r: Result<nat>)
    ensures r == if b == [] then Raise else Ok(Be(b))
  {
    HexIntIsBe(b);
    r := HexInt(b);
  }

  /** binascii.unhexlify(binascii.hexlify(b)), computed */
  method CopyThroughHex(b: bytes) returns (r: bytes)
    ensures r == b
  {
    UnhexlifyHexlify(b);
    r := Unhexlify(Hexlify(b)).value;
  }
}
