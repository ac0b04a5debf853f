/** A BMP session: the protocol object that buffers bytes, cuts frames, decodes them
    and calls the handler. */
module Receiver {
  import opened Bytes
  import opened Bgp
  import opened Framing
  import opened Message
  import opened Handler

  /** What one frame does to the log: exceptions of decoder and handler end here. */
  function OfferFrame(env: Env, p: Parsers, host: string, s: State, f: Frame): State {
    match ConsumeOutcome(p, f.msgType, f.body)
    case Results(d) => OnMessage(env, s, host, d)
    case _ => s
  }

  function App(env: Env, p: Parsers, host: string): (State, Frame) -> State {
    (s, f) => OfferFrame(env, p, host, s, f)
  }

  /** `cuts` are off the stream that drains to `total`, `buf` is still to drain. */
  ghost predicate Pending(total: Drained, cuts: seq<Cut>, buf: bytes) {
    var d := Drain(buf);
    total == Drained(cuts + d.cuts, d.rest, d.end)
  }

  lemma {:induction false} PendingStep(total: Drained, cuts: seq<Cut>, buf: bytes)
    requires Pending(total, cuts, buf) && !total.end.Spinning? && Look(buf).Offer?
    ensures var Offer(f, n) := Look(buf); n > 0 && Pending(total, cuts + [Cut(f, buf[..n])], buf[n..])
  {
    var n := Look(buf).length;
    if n > 0 {
      var c, more := Cut(Look(buf).frame, buf[..n]), Drain(buf[n..]).cuts;
      assert cuts + ([c] + more) == (cuts + [c]) + more;
    }
  }

  lemma {:induction false} PendingEnd(total: Drained, cuts: seq<Cut>, buf: bytes)
    requires Pending(total, cuts, buf) && !Look(buf).Offer?
    ensures total.cuts == cuts && total.rest == buf
    ensures total.end.Waiting? <==> Look(buf).NeedMore?
    ensures total.end.Rejected? <==> Look(buf).Reject?
  {
    assert cuts + [] == cuts;
  }

  class Bmp {
    const handler: DefaultHandler
    const parsers: Parsers
    const clientIp: string
    var receiveBuffer: bytes
    var message: BmpMessage
    var connected: bool
    /** All bytes received, and all frames cut from them. */
    ghost var received: bytes
    ghost var cuts: seq<Cut>

    /** The session is what draining all received bytes at once would leave. */
    ghost predicate Valid()
      reads this
    {
      && cuts == Drain(received).cuts
      && receiveBuffer == Drain(received).rest
      && (connected ==> !Drain(received).end.Rejected?)
    }

    constructor (handler: DefaultHandler, parsers: Parsers, clientIp: string)
      ensures Valid() && connected && received == []
      ensures this.handler == handler && this.parsers == parsers && this.clientIp == clientIp
      ensures fresh(message)
    {
      this.handler, this.parsers, this.clientIp := handler, parsers, clientIp;
      receiveBuffer, connected, received, cuts := [], true, [], [];
      message := new BmpMessage();
    }

    /** `parse_buffer`: True after a frame, False to wait, or an exception. */
    method ParseBuffer() returns (r: Result<bool>)
      modifies this, message, handler, handler.disk
      ensures received == old(received) && connected == old(connected)
      ensures message == old(message) || fresh(message)
      ensures match Look(old(receiveBuffer))
        case Offer(f, n) =>
          && r == Ok(true)
          && receiveBuffer == old(receiveBuffer)[n..]
          && cuts == old(cuts) + [Cut(f, old(receiveBuffer)[..n])]
          && handler.Current() == OfferFrame(handler.env, parsers, clientIp, old(handler.Current()), f)
        case NeedMore =>
          && r == Ok(false)
          && receiveBuffer == old(receiveBuffer) && cuts == old(cuts) && handler.Current() == old(handler.Current())
        case Reject(_) =>
          && r == Raise
          && receiveBuffer == old(receiveBuffer) && cuts == old(cuts) && handler.Current() == old(handler.Current())
    {
      var buf := receiveBuffer;
      if |buf| < HEADER_LEN {
        return Ok(false);
      }
      var version, length, msgType := buf[0], Be(buf[1..5]), buf[5];
      if version != VERSION {
        return Raise;
      }
      if !KnownType(msgType) {
        return Raise;
      }
      if length > |buf| {
        return Ok(false);
      }
      var msgValue := Slice(buf, HEADER_LEN, length);
      message.msgType := Some(msgType);
      message.rawBody := Some(msgValue);
      var results := message.Consume(parsers);
      if results.Results? {
        var _ := handler.OnMessageReceived(clientIp, results.decoded);
      }
      message := new BmpMessage();
      receiveBuffer := receiveBuffer[length..];
      cuts := cuts + [Cut(Frame(msgType, msgValue), buf[..length])];
      r := Ok(true);
    }

    /** `while self.parse_buffer(): pass` */
    method DrainBuffer() returns (raised: bool)
      requires !ReachesZeroLength(receiveBuffer)
      modifies this, message, handler, handler.disk
      ensures received == old(received) && connected == old(connected)
      ensures message == old(message) || fresh(message)
      ensures var d := Drain(old(receiveBuffer));
        && cuts == old(cuts) + d.cuts && receiveBuffer == d.rest && raised == d.end.Rejected?
        && handler.Current() == OfferAll(App(handler.env, parsers, clientIp), old(handler.Current()), Frames(d.cuts))
    {
      SpinningExactly(receiveBuffer);
      ghost var total := Drain(receiveBuffer);
      ghost var app := App(handler.env, parsers, clientIp);
      ghost var cut: seq<Cut> := [];
      var more := true;
      while more
        invariant message == old(message) || fresh(message)
        invariant received == old(received) && connected == old(connected)
        invariant cuts == old(cuts) + cut
        invariant handler.Current() == OfferAll(app, old(handler.Current()), Frames(cut))
        invariant Pending(total, cut, receiveBuffer)
        invariant !more ==> Look(receiveBuffer).NeedMore?
        decreases more, |receiveBuffer|
      {
        ghost var c: seq<Cut> := [];
        if Look(receiveBuffer).Offer? {
          PendingStep(total, cut, receiveBuffer);
          c := [Cut(Look(receiveBuffer).frame, receiveBuffer[..Look(receiveBuffer).length])];
          AppendCut(app, old(handler.Current()), cut, c[0]);
        } else {
          PendingEnd(total, cut, receiveBuffer);
        }
        var r := ParseBuffer();
        if r.Raise? {
          return true;
        }
        more := r.value;
        cut := cut + c;
      }
      PendingEnd(total, cut, receiveBuffer);
      raised := false;
    }

    /** `dataReceived`, on data with which the drain loop ends. */
    method DataReceived(data: bytes)
      requires Valid()
      requires !ReachesZeroLength(received + data)
      modifies this, message, handler, handler.disk
      ensures Valid() && received == old(received) + data
      ensures message == old(message) || fresh(message)
      ensures old(cuts) <= cuts
      ensures handler.Current() ==
              OfferAll(App(handler.env, parsers, clientIp), old(handler.Current()), Frames(cuts[|old(cuts)|..]))
      ensures connected == (old(connected) && !Drain(received).end.Rejected?)
    {
      DrainSplit(received, data);
      SpinningExactly(received + data);
      SpinningExactly(receiveBuffer + data);
      receiveBuffer := receiveBuffer + data;
      received := received + data;
      var raised := DrainBuffer();
      if raised {
        connected := false;
      }
    }
  }

  lemma {:induction false} AppendCut(app: (State, Frame) -> State, s: State, cuts: seq<Cut>, c: Cut)
    ensures OfferAll(app, s, Frames(cuts + [c])) == app(OfferAll(app, s, Frames(cuts)), c.frame)
  {
    FramesConcat(cuts, [c]);
    assert Frames([c]) == [c.frame];
    OfferAllConcat(app, s, Frames(cuts), [c.frame]);
    assert [c.frame][1..] == [];
  }
}
