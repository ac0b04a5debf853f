/** Route distinguishers as text, section 4.2 of RFC 4364. */
module RouteDistinguisher {
  import opened Bytes

  // ---- decimal text ----

  function Digit(d: nat): char
    requires d < 10
  {
    '0' + d as char
  }

  predicate AllDigits(t: string) {
    forall i :: 0 <= i < |t| ==> '0' <= t[i] <= '9'
  }

  /** str(n) */
  function Dec(n: nat): (t: string)
    ensures t != "" && AllDigits(t)
  {
    if n < 10 then [Digit(n)] else Dec(n / 10) + [Digit(n % 10)]
  }

  /** Plain decimal digits, most significant first, without leading zeros. */
  lemma {:induction false} DecExample()
    ensures Dec(0) == "0" && Dec(100) == "100" && Dec(65001) == "65001" && Dec(98432) == "98432" && Dec(7) == "7"
  {
    assert Dec(6) == "6" && Dec(65) == "65" && Dec(650) == "650" && Dec(6500) == "6500";
    assert Dec(1) == "1" && Dec(10) == "10";
    assert Dec(9) == "9" && Dec(98) == "98" && Dec(984) == "984" && Dec(9843) == "9843";
  }

  function ParseDec(t: string): nat
    requires AllDigits(t)
  {
    if t == "" then 0
    else ParseDec(t[..|t| - 1]) * 10 + (t[|t| - 1] - '0') as nat
  }

  lemma {:induction false} ParseDecDec(n: nat)
    ensures ParseDec(Dec(n)) == n
  {
    if n >= 10 {
      var t := Dec(n);
      assert t[..|t| - 1] == Dec(n / 10);
      ParseDecDec(n / 10);
    }
  }

  lemma DecInjective(m: nat, n: nat)
    ensures Dec(m) == Dec(n) <==> m == n
  {
    ParseDecDec(m);
    ParseDecDec(n);
  }

  // ---- separators ----

  function Before(t: string, c: char): string {
    if t == "" || t[0] == c then "" else [t[0]] + Before(t[1..], c)
  }

  function After(t: string, c: char): string {
    if t == "" then "" else if t[0] == c then t[1..] else After(t[1..], c)
  }

  lemma {:induction false} SplitsAt(s: string, c: char, t: string)
    requires c !in s
    ensures Before(s + [c] + t, c) == s && After(s + [c] + t, c) == t
  {
    if s == "" {
      assert s + [c] + t == [c] + t;
    } else {
      assert s == [s[0]] + s[1..];
      assert (s + [c] + t)[1..] == s[1..] + [c] + t;
      SplitsAt(s[1..], c, t);
    }
  }

  /** Dotted text of an IPv4 address given as a number. */
  function Dotted(v: nat): string {
    var o := Encode(v, 4);
    Dec(o[0]) + ['.'] + (Dec(o[1]) + ['.'] + (Dec(o[2]) + ['.'] + Dec(o[3])))
  }

  function ParseOctet(t: string): byte {
    if AllDigits(t) && ParseDec(t) < 256 then ParseDec(t) else 0
  }

  function ParseDotted(t: string): bytes {
    var t1 := After(t, '.');
    var t2 := After(t1, '.');
    [ParseOctet(Before(t, '.')), ParseOctet(Before(t1, '.')), ParseOctet(Before(t2, '.')), ParseOctet(After(t2, '.'))]
  }

  lemma OctetRoundTrip(o: byte)
    ensures ParseOctet(Dec(o)) == o
    ensures ':' !in Dec(o) && '.' !in Dec(o)
  {
    ParseDecDec(o);
  }

  lemma ParseDottedDotted(b: bytes)
    requires |b| == 4
    ensures ParseDotted(Dotted(Be(b))) == b
    ensures ':' !in Dotted(Be(b)) && '.' in Dotted(Be(b))
  {
    EncodeBe(b);
    DottedOctets(b[0], b[1], b[2], b[3]);
  }

  lemma DottedOctets(o0: byte, o1: byte, o2: byte, o3: byte)
    ensures var t := Dec(o0) + ['.'] + (Dec(o1) + ['.'] + (Dec(o2) + ['.'] + Dec(o3)));
      ParseDotted(t) == [o0, o1, o2, o3] && ':' !in t && '.' in t
  {
    var t2 := Dec(o2) + ['.'] + Dec(o3);
    var t1 := Dec(o1) + ['.'] + t2;
    var t := Dec(o0) + ['.'] + t1;
    OctetRoundTrip(o0);
    OctetRoundTrip(o1);
    OctetRoundTrip(o2);
    OctetRoundTrip(o3);
    SplitsAt(Dec(o2), '.', Dec(o3));
    SplitsAt(Dec(o1), '.', t2);
    SplitsAt(Dec(o0), '.', t1);
    assert ':' !in t2;
    assert ':' !in t1;
    assert t[|Dec(o0)|] == '.';
  }

  // ---- rd2str ----

  /** The text of a distinguisher; an unknown type gives str() of the raw bytes. */
  datatype Dist = Text(text: string) | Repr(raw: bytes)

  function Rd2Str(rd: bytes): Result<Dist> {
    var rdType := Be(Slice(rd, 0, 2));
    if rdType == 0 then
      Ok(Text(Dec(Be(Slice(rd, 2, 4))) + [':'] + Dec(Be(Slice(rd, 4, 8)))))
    else if rdType == 1 then
      var ipValue :- HexInt(Slice(rd, 2, 6));
      Ok(Text(Dotted(ipValue) + [':'] + Dec(Be(Slice(rd, 6, 8)))))
    else if rdType == 2 then
      Ok(Text(Dec(Be(Slice(rd, 2, 6))) + [':'] + Dec(Be(Slice(rd, 6, 8)))))
    else
      Ok(Repr(Slice(rd, 0, 8)))
  }

  /** Octet by octet: the dotted type, the other two, and unknown types, which keep
      all eight bytes. */
  lemma {:induction false} RdExactly(rd: bytes)
    requires |rd| == 8
    ensures var kind := rd[0] as int * 0x100 + rd[1];
      Rd2Str(rd) == Ok(
        if kind == 0 then Text(Dec(Be(rd[2..4])) + [':'] + Dec(Be(rd[4..8])))
        else if kind == 1 then
          Text(Dec(rd[2]) + ['.'] + (Dec(rd[3]) + ['.'] + (Dec(rd[4]) + ['.'] + Dec(rd[5])))
               + [':'] + Dec(Be(rd[6..8])))
        else if kind == 2 then Text(Dec(Be(rd[2..6])) + [':'] + Dec(Be(rd[6..8])))
        else Repr(rd))
  {
    FixedNumbers(rd[0], rd[1], 0, 0);
    assert Slice(rd, 0, 2) == [rd[0], rd[1]] && Slice(rd, 0, 8) == rd;
    EncodeBe(rd[2..6]);
    HexIntIsBe(rd[2..6]);
  }

  function ParseNumber(t: string, width: nat): bytes {
    Encode(if AllDigits(t) then ParseDec(t) else 0, width)
  }

  /** Reads the six value bytes back, given the type. */
  function ParseRd(rdType: nat, t: string): bytes {
    var admin, number := Before(t, ':'), After(t, ':');
    if rdType == 0 then ParseNumber(admin, 2) + ParseNumber(number, 4)
    else if rdType == 1 then ParseDotted(admin) + ParseNumber(number, 2)
    else ParseNumber(admin, 4) + ParseNumber(number, 2)
  }

  predicate Standard(rd: bytes) {
    |rd| == 8 && Be(rd[..2]) <= 2
  }

  /** The numbers on both sides of the colon. */
  function Admin(rd: bytes): nat
    requires Standard(rd)
  {
    if Be(rd[..2]) == 0 then Be(rd[2..4]) else Be(rd[2..6])
  }

  function Assigned(rd: bytes): nat
    requires Standard(rd)
  {
    if Be(rd[..2]) == 0 then Be(rd[4..8]) else Be(rd[6..8])
  }

  function AdminText(rd: bytes): string
    requires Standard(rd)
  {
    if Be(rd[..2]) == 1 then Dotted(Admin(rd)) else Dec(Admin(rd))
  }

  lemma TextParts(rd: bytes)
    requires Standard(rd)
    ensures Rd2Str(rd) == Ok(Text(AdminText(rd) + [':'] + Dec(Assigned(rd))))
    ensures var t := AdminText(rd) + [':'] + Dec(Assigned(rd));
      Before(t, ':') == AdminText(rd) && After(t, ':') == Dec(Assigned(rd))
    ensures '.' in AdminText(rd) <==> Be(rd[..2]) == 1
  {
    if Be(rd[..2]) == 1 {
      HexIntIsBe(rd[2..6]);
      ParseDottedDotted(rd[2..6]);
    }
    SplitsAt(AdminText(rd), ':', Dec(Assigned(rd)));
  }

  lemma NumberRoundTrip(b: bytes)
    ensures ParseNumber(Dec(Be(b)), |b|) == b
  {
    ParseDecDec(Be(b));
    EncodeBe(b);
  }

  /** Given its type, the text determines all six value bytes. */
  lemma RdTextRoundTrip(rd: bytes)
    requires Standard(rd)
    ensures Rd2Str(rd).Ok? && Rd2Str(rd).value.Text?
    ensures ParseRd(Be(rd[..2]), Rd2Str(rd).value.text) == rd[2..]
  {
    TextParts(rd);
    ValueBytes(rd);
    if Be(rd[..2]) == 0 {
      NumberRoundTrip(rd[2..4]);
      NumberRoundTrip(rd[4..8]);
    } else if Be(rd[..2]) == 1 {
      ParseDottedDotted(rd[2..6]);
      NumberRoundTrip(rd[6..8]);
    } else {
      NumberRoundTrip(rd[2..6]);
      NumberRoundTrip(rd[6..8]);
    }
  }

  lemma ValueBytes(rd: bytes)
    requires |rd| == 8
    ensures rd[2..] == rd[2..4] + rd[4..8] && rd[2..] == rd[2..6] + rd[6..8]
  {
  }

  /** Two distinguishers share text exactly when both or neither are of the dotted
      type 1 and the numbers on both sides agree: text alone does not tell a
      two-byte from a four-byte AS number. */
  lemma SharedText(a: bytes, b: bytes)
    requires Standard(a) && Standard(b)
    ensures Rd2Str(a) == Rd2Str(b) <==>
            && (Be(a[..2]) == 1 <==> Be(b[..2]) == 1)
            && Admin(a) == Admin(b) && Assigned(a) == Assigned(b)
  {
    TextParts(a);
    TextParts(b);
    DecInjective(Assigned(a), Assigned(b));
    DecInjective(Admin(a), Admin(b));
    if Be(a[..2]) == 1 && Be(b[..2]) == 1 {
      ParseDottedDotted(a[2..6]);
      ParseDottedDotted(b[2..6]);
    }
  }
}
