/** Cutting BMP messages out of a byte stream: the pure form of
    `BMP.parse_buffer` and of the drain loop around it. */
module Framing {
  import opened Bytes

  const HEADER_LEN: nat := 6
  const VERSION: byte := 3

  predicate KnownType(t: byte) {
    0 <= t <= 6
  }

  /** What is offered to the decoder: the type and the bytes behind the header. */
  datatype Frame = Frame(msgType: byte, body: bytes)

  datatype HeaderError = BadVersion(version: byte) | UnknownType(msgType: byte)

  /** One pass over the buffer: wait, raise, or cut a frame of `length` bytes. */
  datatype Pass = NeedMore | Reject(error: HeaderError) | Offer(frame: Frame, length: nat)

  function Look(buf: bytes): (p: Pass)
    ensures p.Offer? ==> p.length <= |buf|
  {
    if |buf| < HEADER_LEN then NeedMore
    else
      var version, length, msgType := buf[0], Be(buf[1..5]), buf[5];
      if version != VERSION then Reject(BadVersion(version))
      else if !KnownType(msgType) then Reject(UnknownType(msgType))
      else if length > |buf| then NeedMore
      else Offer(Frame(msgType, Slice(buf, HEADER_LEN, length)), length)
  }

  /** Which headers pass, in numbers: version 3 and types 0 to 6; the length field
      counts from the front of the header, and below 6 leaves an empty body. */
  lemma LookExactly(version: byte, length: nat, msgType: byte, more: bytes)
    requires length < 0x1_0000_0000
    ensures Look([version] + Encode(length, 4) + [msgType] + more) ==
            if version != 3 then Reject(BadVersion(version))
            else if msgType > 6 then Reject(UnknownType(msgType))
            else if length > 6 + |more| then NeedMore
            else Offer(Frame(msgType, if length < 6 then [] else more[..length - 6]), length)
    ensures forall buf: bytes :: |buf| < 6 ==> Look(buf) == NeedMore
  {
    var buf := [version] + Encode(length, 4) + [msgType] + more;
    assert Pow256(4) == 0x1_0000_0000;
    BeEncode(length, 4);
    assert buf[1..5] == Encode(length, 4);
    if 6 <= length <= 6 + |more| {
      assert Slice(buf, 6, length) == more[..length - 6];
    }
  }

  /** A frame that was cut, with the raw bytes it took off the buffer. A length
      field of 1 to 5 takes fewer bytes than the header itself. */
  datatype Cut = Cut(frame: Frame, raw: bytes)

  /** How the drain loop ends: waiting for bytes, by an exception, or not at all
      (a length field of 0 takes nothing off the buffer and passes again). */
  datatype End = Waiting | Rejected(error: HeaderError) | Spinning

  datatype Drained = Drained(cuts: seq<Cut>, rest: bytes, end: End)

  function Drain(buf: bytes): Drained
    decreases |buf|
  {
    match Look(buf)
    case NeedMore => Drained([], buf, Waiting)
    case Reject(error) => Drained([], buf, Rejected(error))
    case Offer(frame, length) =>
      if length == 0 then Drained([], buf, Spinning)
      else
        var d := Drain(buf[length..]);
        Drained([Cut(frame, buf[..length])] + d.cuts, d.rest, d.end)
  }

  /** What one more `dataReceived` does to a session. */
  function Feed(s: Drained, data: bytes): Drained {
    var d := Drain(s.rest + data);
    Drained(s.cuts + d.cuts, d.rest, d.end)
  }

  function FeedAll(s: Drained, chunks: seq<bytes>): Drained
    decreases |chunks|
  {
    if chunks == [] then s else FeedAll(Feed(s, chunks[0]), chunks[1..])
  }

  const START := Drained([], [], Waiting)

  function Flatten(chunks: seq<bytes>): bytes {
    if chunks == [] then [] else chunks[0] + Flatten(chunks[1..])
  }

  function Raws(cuts: seq<Cut>): seq<bytes> {
    if cuts == [] then [] else [cuts[0].raw] + Raws(cuts[1..])
  }

  function Frames(cuts: seq<Cut>): seq<Frame> {
    if cuts == [] then [] else [cuts[0].frame] + Frames(cuts[1..])
  }

  // ---- chunking ----

  /** More bytes never change a decision that has been taken. */
  lemma LookStable(a: bytes, b: bytes)
    requires !Look(a).NeedMore?
    ensures Look(a + b) == Look(a)
  {
    assert (a + b)[1..5] == a[1..5];
    if Look(a).Offer? {
      var n := Look(a).length;
      assert Slice(a + b, HEADER_LEN, n) == Slice(a, HEADER_LEN, n);
    }
  }

  /** What the loop's end says about the buffer it leaves: no complete frame, the
      bad header, or a header whose length field is 0. */
  lemma {:induction false} Residue(buf: bytes)
    ensures var d := Drain(buf);
      match d.end
      case Waiting => Look(d.rest).NeedMore?
      case Rejected(error) => Look(d.rest) == Reject(error)
      case Spinning => Look(d.rest).Offer? && Look(d.rest).length == 0
    decreases |buf|
  {
    match Look(buf)
    case NeedMore =>
    case Reject(_) =>
    case Offer(_, length) => if length > 0 { Residue(buf[length..]); }
  }

  /** Draining `a + b` at once is draining `a` and then receiving `b`. */
  lemma {:induction false} DrainSplit(a: bytes, b: bytes)
    ensures Drain(a + b) == Feed(Drain(a), b)
    decreases |a|
  {
    if !Look(a).NeedMore? {
      LookStable(a, b);
    }
    if Look(a).Offer? && Look(a).length > 0 {
      var n := Look(a).length;
      var c, d := Cut(Look(a).frame, a[..n]), Drain(a[n..]);
      DrainSplit(a[n..], b);
      DrainAfterOffer(a, b);
      AppendCuts(c, d.cuts, Drain(d.rest + b).cuts);
    }
  }

  lemma AppendCuts(c: Cut, x: seq<Cut>, y: seq<Cut>)
    ensures ([c] + x) + y == [c] + (x + y)
  {
  }

  lemma DrainAfterOffer(a: bytes, b: bytes)
    requires Look(a).Offer? && Look(a + b) == Look(a) && Look(a).length > 0
    ensures var n := Look(a).length; var d := Drain(a[n..] + b);
      Drain(a + b) == Drained([Cut(Look(a).frame, a[..n])] + d.cuts, d.rest, d.end)
  {
    var n := Look(a).length;
    assert (a + b)[n..] == a[n..] + b;
    assert (a + b)[..n] == a[..n];
  }

  lemma {:induction false} FeedAllFrom(seen: bytes, chunks: seq<bytes>)
    ensures FeedAll(Drain(seen), chunks) == Drain(seen + Flatten(chunks))
    decreases |chunks|
  {
    if chunks == [] {
      assert seen + Flatten(chunks) == seen;
    } else {
      DrainSplit(seen, chunks[0]);
      FeedAllFrom(seen + chunks[0], chunks[1..]);
      assert seen + chunks[0] + Flatten(chunks[1..]) == seen + Flatten(chunks);
    }
  }

  /** Frames, residue and end depend on the concatenated bytes only. */
  lemma ChunkingIsIrrelevant(chunks: seq<bytes>)
    ensures FeedAll(START, chunks) == Drain(Flatten(chunks))
  {
    FeedAllFrom([], chunks);
    assert [] + Flatten(chunks) == Flatten(chunks);
  }

  lemma FlattenCons(a: bytes, rest: seq<bytes>)
    ensures Flatten([a] + rest) == a + Flatten(rest)
  {
    assert ([a] + rest)[1..] == rest;
  }

  // ---- conservation, rejection, termination ----

  lemma DrainUnfold(buf: bytes)
    requires Look(buf).Offer? && Look(buf).length > 0
    ensures var n := Look(buf).length; var d := Drain(buf[n..]);
      Drain(buf) == Drained([Cut(Look(buf).frame, buf[..n])] + d.cuts, d.rest, d.end)
  {
  }

  lemma FlattenRawsCons(c: Cut, cuts: seq<Cut>, rest: bytes)
    ensures Flatten(Raws([c] + cuts)) + rest == c.raw + (Flatten(Raws(cuts)) + rest)
  {
    assert ([c] + cuts)[1..] == cuts;
    FlattenCons(c.raw, Raws(cuts));
  }

  /** The frames cut off a stream and what they leave make up the stream. */
  predicate Conserves(d: Drained, stream: bytes) {
    && Flatten(Raws(d.cuts)) + d.rest == stream
    && forall c :: c in d.cuts ==> c.raw != []
  }

  /** No byte is lost or doubled: raw frames and residue make up the stream. */
  lemma {:induction false} Conservation(buf: bytes)
    ensures Conserves(Drain(buf), buf)
    decreases |buf|
  {
    if Look(buf).Offer? && Look(buf).length > 0 {
      Conservation(buf[Look(buf).length..]);
      DrainUnfold(buf);
      ConservationStep(Cut(Look(buf).frame, buf[..Look(buf).length]), Drain(buf[Look(buf).length..]),
                       buf[Look(buf).length..], buf);
    } else {
      NothingCut(Drain(buf), buf);
    }
  }

  lemma NothingCut(d: Drained, buf: bytes)
    requires d.cuts == [] && d.rest == buf
    ensures Conserves(d, buf)
  {
    assert [] + buf == buf;
  }

  lemma ConservationStep(c: Cut, d: Drained, more: bytes, buf: bytes)
    requires Conserves(d, more) && c.raw != [] && buf == c.raw + more
    ensures Conserves(Drained([c] + d.cuts, d.rest, d.end), buf)
  {
    FlattenRawsCons(c, d.cuts, d.rest);
  }

  /** A bad header is absorbing: whatever arrives later, in whatever pieces, no
      frame is cut any more and the same header keeps failing. Frames cut before
      it stay delivered. */
  lemma {:induction false} RejectionIsAbsorbing(seen: bytes, chunks: seq<bytes>)
    requires Drain(seen).end.Rejected?
    ensures FeedAll(Drain(seen), chunks) ==
            Drained(Drain(seen).cuts, Drain(seen).rest + Flatten(chunks), Drain(seen).end)
  {
    var s, more := Drain(seen), Flatten(chunks);
    FeedAllFrom(seen, chunks);
    DrainSplit(seen, more);
    Residue(seen);
    LookStable(s.rest, more);
  }

  /** The buffer after n passes that each returned True, if there were that many. */
  function AfterPasses(buf: bytes, n: nat): Option<bytes> {
    if n == 0 then Some(buf)
    else match Look(buf)
      case Offer(_, length) => AfterPasses(buf[length..], n - 1)
      case _ => None
  }

  lemma {:induction false} SpinsForever(buf: bytes, n: nat)
    requires Drain(buf).end.Spinning?
    ensures AfterPasses(buf, n).Some?
    decreases n
  {
    if n > 0 {
      var length := Look(buf).length;
      if length == 0 { assert buf[length..] == buf; }
      SpinsForever(buf[length..], n - 1);
    }
  }

  lemma {:induction false} EndsAfterLastCut(buf: bytes)
    requires !Drain(buf).end.Spinning?
    ensures AfterPasses(buf, |Drain(buf).cuts|) == Some(Drain(buf).rest)
    ensures AfterPasses(buf, |Drain(buf).cuts| + 1).None?
    decreases |buf|
  {
    if Look(buf).Offer? {
      EndsAfterLastCut(buf[Look(buf).length..]);
    }
  }

  /** A valid header whose length field is 0, at the front of the buffer. */
  predicate ZeroLengthFront(buf: bytes) {
    Look(buf).Offer? && Look(buf).length == 0
  }

  /** Some pass finds a header with a length field of 0 at the front. */
  ghost predicate ReachesZeroLength(buf: bytes) {
    exists k: nat :: AfterPasses(buf, k).Some? && ZeroLengthFront(AfterPasses(buf, k).value)
  }

  lemma {:induction false} SpinningReaches(buf: bytes)
    requires Drain(buf).end.Spinning?
    ensures var k := |Drain(buf).cuts|; AfterPasses(buf, k) == Some(Drain(buf).rest) && ZeroLengthFront(Drain(buf).rest)
    decreases |buf|
  {
    if Look(buf).length > 0 {
      SpinningReaches(buf[Look(buf).length..]);
    }
  }

  lemma {:induction false} ReachedSpins(buf: bytes, k: nat)
    requires AfterPasses(buf, k).Some? && ZeroLengthFront(AfterPasses(buf, k).value)
    ensures Drain(buf).end.Spinning?
    decreases k
  {
    if k > 0 && Look(buf).length > 0 {
      ReachedSpins(buf[Look(buf).length..], k - 1);
    }
  }

  lemma SpinningExactly(buf: bytes)
    ensures Drain(buf).end.Spinning? <==> ReachesZeroLength(buf)
  {
    if Drain(buf).end.Spinning? {
      SpinningReaches(buf);
    }
    if ReachesZeroLength(buf) {
      var k: nat :| AfterPasses(buf, k).Some? && ZeroLengthFront(AfterPasses(buf, k).value);
      ReachedSpins(buf, k);
    }
  }

  /** The drain loop of `dataReceived` ends exactly on the buffers in which no pass
      finds a header with a length field of 0 at the front. */
  lemma LoopEndsUnlessZeroLength(buf: bytes)
    ensures (exists n: nat :: AfterPasses(buf, n).None?) <==> !ReachesZeroLength(buf)
  {
    SpinningExactly(buf);
    if Drain(buf).end.Spinning? {
      forall n: nat ensures AfterPasses(buf, n).Some? {
        SpinsForever(buf, n);
      }
    } else {
      EndsAfterLastCut(buf);
    }
  }

  /** Bytes behind a stream do not free it from its zero length. */
  lemma ZeroLengthStays(a: bytes, b: bytes)
    requires ReachesZeroLength(a)
    ensures ReachesZeroLength(a + b)
  {
    SpinningExactly(a);
    SpinningExactly(a + b);
    DrainSplit(a, b);
    Residue(a);
    LookStable(Drain(a).rest, b);
  }

  /** The shortest such input: six bytes hang the loop. */
  lemma ZeroLengthHangs()
    ensures forall n: nat :: AfterPasses([3, 0, 0, 0, 0, 4], n).Some?
  {
    var buf: bytes := [3, 0, 0, 0, 0, 4];
    assert buf[1..5] == Encode(0, 4);
    BeEncode(0, 4);
    forall n: nat ensures AfterPasses(buf, n).Some? {
      SpinsForever(buf, n);
    }
  }

  // ---- encoding (section 4.1 of RFC 7854) ----

  predicate Encodable(f: Frame) {
    KnownType(f.msgType) && HEADER_LEN + |f.body| < 0x1_0000_0000
  }

  function EncodeFrame(f: Frame): bytes {
    [VERSION] + Encode(HEADER_LEN + |f.body|, 4) + [f.msgType] + f.body
  }

  function EncodeFrames(fs: seq<Frame>): bytes {
    if fs == [] then [] else EncodeFrame(fs[0]) + EncodeFrames(fs[1..])
  }

  function CutsOf(fs: seq<Frame>): seq<Cut> {
    if fs == [] then [] else [Cut(fs[0], EncodeFrame(fs[0]))] + CutsOf(fs[1..])
  }

  lemma LookEncoded(f: Frame, tail: bytes)
    requires Encodable(f)
    ensures Look(EncodeFrame(f) + tail) == Offer(f, |EncodeFrame(f)|)
  {
    var raw := EncodeFrame(f);
    var buf := raw + tail;
    BeEncode(HEADER_LEN + |f.body|, 4);
    assert buf[1..5] == Encode(HEADER_LEN + |f.body|, 4);
    assert Slice(buf, HEADER_LEN, |raw|) == f.body;
  }

  lemma DrainEncodedOne(f: Frame, tail: bytes)
    requires Encodable(f)
    ensures var d := Drain(tail);
      Drain(EncodeFrame(f) + tail) == Drained([Cut(f, EncodeFrame(f))] + d.cuts, d.rest, d.end)
  {
    var raw := EncodeFrame(f);
    LookEncoded(f, []);
    LookEncoded(f, tail);
    assert raw + [] == raw;
    DrainAfterOffer(raw, tail);
    assert raw[|raw|..] + tail == tail;
  }

  /** Encoded frames come back as they are, in order, in front of any tail. */
  lemma {:induction false} DrainEncoded(fs: seq<Frame>, tail: bytes)
    requires forall f :: f in fs ==> Encodable(f)
    ensures Drain(EncodeFrames(fs) + tail) ==
            Drained(CutsOf(fs) + Drain(tail).cuts, Drain(tail).rest, Drain(tail).end)
    decreases |fs|
  {
    if fs == [] {
      assert EncodeFrames(fs) + tail == tail;
    } else {
      var raw, more := EncodeFrame(fs[0]), EncodeFrames(fs[1..]) + tail;
      assert EncodeFrames(fs) + tail == raw + more;
      DrainEncodedOne(fs[0], more);
      DrainEncoded(fs[1..], tail);
      AppendCuts(Cut(fs[0], raw), CutsOf(fs[1..]), Drain(tail).cuts);
    }
  }

  lemma {:induction false} FramesOfCutsOf(fs: seq<Frame>)
    ensures Frames(CutsOf(fs)) == fs
  {
    if fs != [] {
      assert CutsOf(fs)[1..] == CutsOf(fs[1..]);
      FramesOfCutsOf(fs[1..]);
    }
  }

  /** Round trip through any chunking: exactly the encoded types and bodies, in
      order, and an empty buffer. */
  lemma FrameRoundTrip(fs: seq<Frame>, chunks: seq<bytes>)
    requires forall f :: f in fs ==> Encodable(f)
    requires Flatten(chunks) == EncodeFrames(fs)
    ensures var s := FeedAll(START, chunks);
      Frames(s.cuts) == fs && s.rest == [] && s.end == Waiting
  {
    ChunkingIsIrrelevant(chunks);
    DrainEncoded(fs, []);
    assert EncodeFrames(fs) + [] == EncodeFrames(fs);
    FramesOfCutsOf(fs);
    assert CutsOf(fs) + [] == CutsOf(fs);
  }

  /** Decoding is also injective: a raw frame is the encoding of what was offered
      exactly when its length field covers the header. */
  lemma {:induction false} RawIsEncoding(buf: bytes, i: nat)
    requires i < |Drain(buf).cuts|
    ensures var c := Drain(buf).cuts[i];
      c.raw == EncodeFrame(c.frame) <==> |c.raw| >= HEADER_LEN
    decreases |buf|
  {
    DrainUnfold(buf);
    if i > 0 {
      RawIsEncoding(buf[Look(buf).length..], i - 1);
    } else {
      FirstRawIsEncoding(buf);
    }
  }

  lemma FirstRawIsEncoding(buf: bytes)
    requires Look(buf).Offer?
    ensures var n := Look(buf).length; buf[..n] == EncodeFrame(Look(buf).frame) <==> n >= HEADER_LEN
  {
    var n, f := Look(buf).length, Look(buf).frame;
    if n >= HEADER_LEN {
      EncodeBe(buf[1..5]);
      assert HEADER_LEN + |f.body| == Be(buf[1..5]);
      assert buf[..n] == [buf[0]] + buf[1..5] + [buf[5]] + buf[6..n];
    }
  }

  // ---- isolation ----

  /** Offering frames to an arbitrary application: `app` is decoding plus handler,
      and gives the state it leaves behind whether or not it raised. */
  function OfferAll<S>(app: (S, Frame) -> S, s: S, fs: seq<Frame>): S {
    if fs == [] then s else OfferAll(app, app(s, fs[0]), fs[1..])
  }

  lemma {:induction false} OfferAllConcat<S>(app: (S, Frame) -> S, s: S, a: seq<Frame>, b: seq<Frame>)
    ensures OfferAll(app, s, a + b) == OfferAll(app, OfferAll(app, s, a), b)
    decreases |a|
  {
    if a == [] {
      assert a + b == b;
    } else {
      assert (a + b)[1..] == a[1..] + b;
      OfferAllConcat(app, app(s, a[0]), a[1..], b);
    }
  }

  lemma {:induction false} FramesConcat(a: seq<Cut>, b: seq<Cut>)
    ensures Frames(a + b) == Frames(a) + Frames(b)
    decreases |a|
  {
    if a == [] {
      assert a + b == b;
    } else {
      assert (a + b)[1..] == a[1..] + b;
      FramesConcat(a[1..], b);
    }
  }

  /** The application's state after n passes over a buffer, as long as they return True. */
  function AfterOffers<S>(app: (S, Frame) -> S, s: S, buf: bytes, n: nat): S
    decreases n
  {
    if n == 0 then s
    else match Look(buf)
      case Offer(f, length) => AfterOffers(app, app(s, f), buf[length..], n - 1)
      case _ => s
  }

  /** A hanging loop offers the frames before the zero length, then empty bodies for
      ever; an application that those leave alone ends up as the fold says. */
  lemma {:induction false} HangOffersEmptyBodies<S(!new)>(app: (S, Frame) -> S, s: S, buf: bytes, n: nat)
    requires ReachesZeroLength(buf) && n >= |Drain(buf).cuts|
    requires forall x: S, t: byte :: app(x, Frame(t, [])) == x
    ensures AfterOffers(app, s, buf, n) == OfferAll(app, s, Frames(Drain(buf).cuts))
    decreases n
  {
    SpinningExactly(buf);
    if n > 0 {
      var f, rest := Look(buf).frame, buf[Look(buf).length..];
      if Look(buf).length == 0 {
        assert rest == buf && f == Frame(f.msgType, []);
        HangOffersEmptyBodies(app, s, buf, n - 1);
      } else {
        SpinningExactly(rest);
        DrainUnfold(buf);
        FramesCons(Cut(f, buf[..Look(buf).length]), Drain(rest).cuts);
        HangOffersEmptyBodies(app, app(s, f), rest, n - 1);
      }
    }
  }

  /** Any frame at a frame boundary of any stream, whatever its length field, can be
      taken out with its bytes: all other frames, residue and end stay, for every
      application. If the application ends up in the state it was in, because the
      frame failed without effect, the whole session ends up the same. */
  lemma FailingFrameLosesOnlyItself<S>(app: (S, Frame) -> S, s: S, before: bytes, f: Frame, raw: bytes, after: bytes)
    requires Drain(before).rest == []
    requires raw != [] && Look(raw + after) == Offer(f, |raw|)
    ensures var with, without := Drain(before + raw + after), Drain(before + after);
      && with.cuts == Drain(before).cuts + [Cut(f, raw)] + Drain(after).cuts
      && without.cuts == Drain(before).cuts + Drain(after).cuts
      && with.rest == without.rest && with.end == without.end
    ensures var t := OfferAll(app, s, Frames(Drain(before).cuts));
      && OfferAll(app, s, Frames(Drain(before + raw + after).cuts))
         == OfferAll(app, app(t, f), Frames(Drain(after).cuts))
      && OfferAll(app, s, Frames(Drain(before + after).cuts)) == OfferAll(app, t, Frames(Drain(after).cuts))
  {
    var front, back, tail := Drain(before), Drain(after), raw + after;
    assert before + raw + after == before + tail && [] + after == after && [] + tail == tail;
    DrainSplit(before, after);
    DrainSplit(before, tail);
    TakenFrame(f, raw, after);
    AppendCutsMiddle(front.cuts, Cut(f, raw), back.cuts);
    FramesConcat(front.cuts, [Cut(f, raw)] + back.cuts);
    FramesConcat(front.cuts, back.cuts);
    OfferAllConcat(app, s, Frames(front.cuts), Frames([Cut(f, raw)] + back.cuts));
    OfferAllConcat(app, s, Frames(front.cuts), Frames(back.cuts));
    FramesCons(Cut(f, raw), back.cuts);
  }

  lemma TakenFrame(f: Frame, raw: bytes, after: bytes)
    requires raw != [] && Look(raw + after) == Offer(f, |raw|)
    ensures var d := Drain(after); Drain(raw + after) == Drained([Cut(f, raw)] + d.cuts, d.rest, d.end)
  {
    DrainUnfold(raw + after);
    assert (raw + after)[|raw|..] == after && (raw + after)[..|raw|] == raw;
  }

  lemma AppendCutsMiddle(x: seq<Cut>, c: Cut, y: seq<Cut>)
    ensures x + [c] + y == x + ([c] + y)
  {
  }

  lemma FramesCons(c: Cut, cuts: seq<Cut>)
    ensures Frames([c] + cuts) == [c.frame] + Frames(cuts)
    ensures ([c.frame] + Frames(cuts))[1..] == Frames(cuts)
  {
    assert ([c] + cuts)[1..] == cuts;
  }

  // ---- what is cut can be sent ----

  /** Every frame cut from a stream is one that could have been encoded. */
  lemma {:induction false} CutFramesAreEncodable(buf: bytes)
    ensures forall c :: c in Drain(buf).cuts ==> Encodable(c.frame)
    decreases |buf|
  {
    if Look(buf).Offer? && Look(buf).length > 0 {
      EncodeBe(buf[1..5]);
      assert Pow256(4) == 0x1_0000_0000;
      CutFramesAreEncodable(buf[Look(buf).length..]);
      DrainUnfold(buf);
    }
  }
}
