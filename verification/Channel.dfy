/** The outgoing queue that outlives connections: `PikaFactory` owns it, whichever
    `PikaProtocol` is connected drains it. */
module Channel {
  import opened Bytes

  datatype Message = Message(exchange: string, routingKey: string, body: string)

  /** How far a client's `connected` coroutine has come: waiting for its channel,
      waiting for the queue declaration, finished, or stopped by an exception. */
  datatype Phase = AwaitChannel | AwaitSetup | Finished | Stopped

  datatype Client = Client(isConnected: bool, phase: Phase)

  /** A message taken off the queue for publishing, and by which client. */
  datatype Attempt = Attempt(client: nat, message: Message)

  /** Clients are numbered as they are built; old ones stay around. `submitted` and
      `attempted` are histories. */
  datatype Broker = Broker(
    clients: seq<Client>,
    current: Option<nat>,
    queued: seq<Message>,
    submitted: seq<Message>,
    attempted: seq<Attempt>)

  const EMPTY := Broker([], None, [], [], [])

  datatype Event =
    | Submit(message: Message)
    | Build
    | ChannelOpen(client: nat)
    | SetupDone(client: nat)
    | Failed(client: nat)
    | Lost(client: nat)

  function AttemptsBy(client: nat, ms: seq<Message>): seq<Attempt> {
    if ms == [] then [] else [Attempt(client, ms[0])] + AttemptsBy(client, ms[1..])
  }

  /** `send`: a connected client takes the whole queue. */
  function Send(b: Broker, client: nat): Broker
    requires client < |b.clients|
  {
    if b.clients[client].isConnected
    then b.(queued := [], attempted := b.attempted + AttemptsBy(client, b.queued))
    else b
  }

  predicate WellFormed(b: Broker) {
    b.current.Some? ==> b.current.value < |b.clients|
  }

  predicate InPhase(b: Broker, client: nat, phase: Phase) {
    client < |b.clients| && b.clients[client].phase == phase
  }

  function Step(b: Broker, e: Event): Broker
    requires WellFormed(b)
  {
    match e
    case Submit(m) =>
      var c := b.(queued := b.queued + [m], submitted := b.submitted + [m]);
      if c.current.Some? then Send(c, c.current.value) else c
    case Build =>
      b.(clients := b.clients + [Client(false, AwaitChannel)], current := Some(|b.clients|))
    case ChannelOpen(i) =>
      if InPhase(b, i, AwaitChannel) then b.(clients := b.clients[i := Client(true, AwaitSetup)]) else b
    case SetupDone(i) =>
      if InPhase(b, i, AwaitSetup) then Send(b.(clients := b.clients[i := b.clients[i].(phase := Finished)]), i) else b
    case Failed(i) =>
      if InPhase(b, i, AwaitChannel) || InPhase(b, i, AwaitSetup)
      then b.(clients := b.clients[i := b.clients[i].(phase := Stopped)]) else b
    case Lost(i) =>
      if i < |b.clients| then b.(clients := b.clients[i := b.clients[i].(isConnected := false)]) else b
  }

  function Run(es: seq<Event>): (b: Broker)
    ensures WellFormed(b)
  {
    if es == [] then EMPTY else Step(Run(es[..|es| - 1]), es[|es| - 1])
  }

  // ---- conservation ----

  function Messages(attempts: seq<Attempt>): seq<Message> {
    if attempts == [] then [] else [attempts[0].message] + Messages(attempts[1..])
  }

  lemma {:induction false} MessagesConcat(a: seq<Attempt>, b: seq<Attempt>)
    ensures Messages(a + b) == Messages(a) + Messages(b)
    decreases |a|
  {
    if a == [] {
      assert a + b == b;
    } else {
      assert (a + b)[1..] == a[1..] + b;
      MessagesConcat(a[1..], b);
    }
  }

  lemma {:induction false} MessagesOfAttempts(client: nat, ms: seq<Message>)
    ensures Messages(AttemptsBy(client, ms)) == ms
    ensures forall a :: a in AttemptsBy(client, ms) ==> a.client == client
  {
    if ms != [] {
      assert AttemptsBy(client, ms)[1..] == AttemptsBy(client, ms[1..]);
      MessagesOfAttempts(client, ms[1..]);
    }
  }

  predicate Conserved(b: Broker) {
    Messages(b.attempted) + b.queued == b.submitted
  }

  /** After the current client's `connected` has finished, and while it stays
      connected, nothing waits. */
  predicate RestsEmpty(b: Broker)
    requires WellFormed(b)
  {
    b.current.Some? && b.clients[b.current.value] == Client(true, Finished) ==> b.queued == []
  }

  /** Only a client that got its channel is ever connected. */
  predicate PhasesSound(b: Broker) {
    forall i :: 0 <= i < |b.clients| ==> b.clients[i].phase == AwaitChannel ==> !b.clients[i].isConnected
  }

  lemma {:induction false} SendConserves(b: Broker, client: nat)
    requires client < |b.clients| && Conserved(b)
    ensures Conserved(Send(b, client))
  {
    var sent := AttemptsBy(client, b.queued);
    MessagesConcat(b.attempted, sent);
    MessagesOfAttempts(client, b.queued);
    assert Messages(b.attempted) + b.queued + [] == Messages(b.attempted) + b.queued;
  }

  /** Over every interleaving of submissions, builds, coroutine steps, failures and
      losses, with any number of old clients: what was attempted followed by what is
      queued is what was submitted, in order and each once, and a finished,
      connected current client leaves nothing waiting. */
  lemma {:induction false} QueueIsConserved(es: seq<Event>)
    ensures var b := Run(es); Conserved(b) && RestsEmpty(b) && PhasesSound(b)
  {
    if es != [] {
      QueueIsConserved(es[..|es| - 1]);
      StepConserves(Run(es[..|es| - 1]), es[|es| - 1]);
      StepRests(Run(es[..|es| - 1]), es[|es| - 1]);
    }
  }

  lemma {:induction false} StepConserves(b: Broker, e: Event)
    requires WellFormed(b) && Conserved(b)
    ensures Conserved(Step(b, e))
  {
    match e {
      case Submit(m) =>
        var c := b.(queued := b.queued + [m], submitted := b.submitted + [m]);
        assert Messages(b.attempted) + (b.queued + [m]) == Messages(b.attempted) + b.queued + [m];
        if c.current.Some? { SendConserves(c, c.current.value); }
      case SetupDone(i) =>
        if InPhase(b, i, AwaitSetup) {
          SendConserves(b.(clients := b.clients[i := b.clients[i].(phase := Finished)]), i);
        }
      case _ =>
    }
  }

  lemma {:induction false} StepRests(b: Broker, e: Event)
    requires WellFormed(b) && RestsEmpty(b) && PhasesSound(b)
    ensures RestsEmpty(Step(b, e)) && PhasesSound(Step(b, e))
  {
  }

  /** Attempts are only ever added, and only by a client connected at that moment. */
  lemma {:induction false} AttemptsByConnected(b: Broker, e: Event)
    requires WellFormed(b)
    ensures var t := Step(b, e);
      && b.attempted <= t.attempted
      && forall k :: |b.attempted| <= k < |t.attempted| ==>
           var c := t.attempted[k].client; c < |t.clients| && t.clients[c].isConnected
  {
    forall c: nat, ms ensures forall a :: a in AttemptsBy(c, ms) ==> a.client == c {
      MessagesOfAttempts(c, ms);
    }
  }

  /** A submission leaves the queue empty exactly when there is a current client and
      it is connected; otherwise the message waits behind the others. */
  lemma SubmitFlushesExactly(b: Broker, m: Message)
    requires WellFormed(b)
    ensures var t := Step(b, Submit(m));
      && (t.queued == [] <==> b.current.Some? && b.clients[b.current.value].isConnected)
      && (t.queued != [] ==> t.queued == b.queued + [m] && t.attempted == b.attempted)
  {
  }

  /** A reconnection delivers what piled up meanwhile: build, channel and setup in a
      row empty the queue through the new client, whatever came before. */
  lemma ReconnectFlushes(es: seq<Event>)
    ensures var i := |Run(es).clients|; var b := Run(es + [Build, ChannelOpen(i), SetupDone(i)]);
      && b.queued == [] && Messages(b.attempted) == Run(es).submitted
      && b.attempted == Run(es).attempted + AttemptsBy(i, Run(es).queued)
  {
    var i, s := |Run(es).clients|, Run(es);
    var x, y, z := es + [Build], es + [Build, ChannelOpen(i)], es + [Build, ChannelOpen(i), SetupDone(i)];
    assert x[..|es|] == es && y[..|x|] == x && z[..|y|] == y;
    assert Run(x) == Step(s, Build);
    assert Run(y) == Step(Run(x), ChannelOpen(i));
    assert Run(z) == Step(Run(y), SetupDone(i));
    QueueIsConserved(z);
    assert Messages(Run(z).attempted) + [] == Messages(Run(z).attempted);
  }

  // ---- what the history says ----

  function Builds(es: seq<Event>): nat {
    if es == [] then 0 else Builds(es[..|es| - 1]) + if es[|es| - 1].Build? then 1 else 0
  }

  /** Client i was built, and since then its channel neither opened nor failed. */
  predicate AwaitsChannel(es: seq<Event>, i: nat) {
    && i < Builds(es)
    && forall k :: 0 <= k < |es| && i < Builds(es[..k]) ==> es[k] != ChannelOpen(i) && es[k] != Failed(i)
  }

  /** At event k the channel of client i opens. */
  predicate OpensAt(es: seq<Event>, k: nat, i: nat) {
    k < |es| && es[k] == ChannelOpen(i) && AwaitsChannel(es[..k], i)
  }

  /** Its channel opened, and since then it was not lost. */
  ghost predicate IsConnected(es: seq<Event>, i: nat) {
    exists k: nat :: OpensAt(es, k, i) && forall j :: k < j < |es| ==> es[j] != Lost(i)
  }

  /** Its channel opened, and since then the setup neither ended nor failed. */
  ghost predicate InSetup(es: seq<Event>, i: nat) {
    exists k: nat :: OpensAt(es, k, i) && forall j :: k < j < |es| ==> es[j] != SetupDone(i) && es[j] != Failed(i)
  }

  lemma {:induction false} BuildsOfPrefix(es: seq<Event>, k: nat)
    requires k <= |es|
    ensures Builds(es[..k]) <= Builds(es)
    decreases |es|
  {
    if k < |es| {
      assert es[..|es| - 1][..k] == es[..k];
      BuildsOfPrefix(es[..|es| - 1], k);
    } else {
      assert es[..k] == es;
    }
  }

  lemma {:induction false} AwaitsChannelAfter(es: seq<Event>, e: Event, i: nat)
    ensures AwaitsChannel(es + [e], i) <==>
            || (e == Build && i == Builds(es))
            || (AwaitsChannel(es, i) && e != ChannelOpen(i) && e != Failed(i))
  {
    var t := es + [e];
    assert t[..|es|] == es && t[|es|] == e;
    forall k | 0 <= k <= |es| ensures t[..k] == es[..k] && Builds(t[..k]) <= Builds(es) {
      BuildsOfPrefix(es, k);
    }
    assert forall k :: 0 <= k < |es| ==> t[k] == es[k];
  }

  lemma {:induction false} OpensAtAfter(es: seq<Event>, e: Event, k: nat, i: nat)
    ensures OpensAt(es + [e], k, i) <==>
            OpensAt(es, k, i) || (k == |es| && e == ChannelOpen(i) && AwaitsChannel(es, i))
  {
    var t := es + [e];
    if k <= |es| {
      assert t[..k] == es[..k];
      assert es[..|es|] == es;
    }
  }

  lemma {:induction false} IsConnectedAfter(es: seq<Event>, e: Event, i: nat)
    ensures IsConnected(es + [e], i) <==>
            (e == ChannelOpen(i) && AwaitsChannel(es, i)) || (IsConnected(es, i) && e != Lost(i))
  {
    var t := es + [e];
    assert t[|es|] == e && forall j :: 0 <= j < |es| ==> t[j] == es[j];
    forall k: nat ensures OpensAt(t, k, i) <==>
      OpensAt(es, k, i) || (k == |es| && e == ChannelOpen(i) && AwaitsChannel(es, i))
    {
      OpensAtAfter(es, e, k, i);
    }
    if e == ChannelOpen(i) && AwaitsChannel(es, i) {
      assert OpensAt(t, |es|, i);
    }
  }

  lemma {:induction false} InSetupAfter(es: seq<Event>, e: Event, i: nat)
    ensures InSetup(es + [e], i) <==>
            || (e == ChannelOpen(i) && AwaitsChannel(es, i))
            || (InSetup(es, i) && e != SetupDone(i) && e != Failed(i))
  {
    var t := es + [e];
    assert t[|es|] == e && forall j :: 0 <= j < |es| ==> t[j] == es[j];
    forall k: nat ensures OpensAt(t, k, i) <==>
      OpensAt(es, k, i) || (k == |es| && e == ChannelOpen(i) && AwaitsChannel(es, i))
    {
      OpensAtAfter(es, e, k, i);
    }
    if e == ChannelOpen(i) && AwaitsChannel(es, i) {
      assert OpensAt(t, |es|, i);
    }
  }

  /** What the model knows of its clients is what the history of events says: how many
      were built, that the last one is current, and for each whether it is connected
      and what it waits for. */
  ghost predicate FollowsHistory(b: Broker, es: seq<Event>) {
    && |b.clients| == Builds(es)
    && b.current == (if Builds(es) == 0 then None else Some(Builds(es) - 1))
    && forall i :: 0 <= i < |b.clients| ==> ClientFollows(b, es, i)
  }

  ghost predicate ClientFollows(b: Broker, es: seq<Event>, i: nat)
    requires i < |b.clients|
  {
    && (b.clients[i].isConnected <==> IsConnected(es, i))
    && (b.clients[i].phase == AwaitChannel <==> AwaitsChannel(es, i))
    && (b.clients[i].phase == AwaitSetup <==> InSetup(es, i))
  }

  lemma {:induction false} NotBuiltYet(es: seq<Event>, i: nat)
    requires i >= Builds(es)
    ensures !AwaitsChannel(es, i) && !IsConnected(es, i) && !InSetup(es, i)
  {
    forall k: nat ensures !OpensAt(es, k, i) {
      if k < |es| {
        BuildsOfPrefix(es, k);
      }
    }
  }

  lemma {:induction false} StepFollowsHistory(b: Broker, es: seq<Event>, e: Event)
    requires WellFormed(b) && FollowsHistory(b, es)
    ensures FollowsHistory(Step(b, e), es + [e])
  {
    var t := Step(b, e);
    assert (es + [e])[..|es|] == es;
    forall i | 0 <= i < |t.clients| ensures ClientFollows(t, es + [e], i) {
      ClientStepFollows(b, es, e, i);
    }
  }

  lemma {:induction false} ClientStepFollows(b: Broker, es: seq<Event>, e: Event, i: nat)
    requires WellFormed(b) && |b.clients| == Builds(es)
    requires i < |b.clients| ==> ClientFollows(b, es, i)
    requires i < |Step(b, e).clients|
    ensures ClientFollows(Step(b, e), es + [e], i)
  {
    AwaitsChannelAfter(es, e, i);
    IsConnectedAfter(es, e, i);
    InSetupAfter(es, e, i);
    if i >= Builds(es) {
      NotBuiltYet(es, i);
    }
  }

  lemma {:induction false} HistoryDecides(es: seq<Event>)
    ensures FollowsHistory(Run(es), es)
  {
    if es != [] {
      HistoryDecides(es[..|es| - 1]);
      StepFollowsHistory(Run(es[..|es| - 1]), es[..|es| - 1], es[|es| - 1]);
      assert es[..|es| - 1] + [es[|es| - 1]] == es;
    }
  }

  lemma {:induction false} RunOne(es: seq<Event>, e: Event)
    ensures Run(es + [e]) == Step(Run(es), e)
  {
    assert (es + [e])[..|es|] == es;
  }

  /** The whole queue goes out through client i. */
  predicate Flushed(b: Broker, waiting: seq<Message>, t: Broker, i: nat) {
    && t.queued == [] && |t.attempted| == |b.attempted| + |waiting| && b.attempted <= t.attempted
    && forall k :: 0 <= k < |waiting| ==> t.attempted[|b.attempted| + k] == Attempt(i, waiting[k])
  }

  predicate Untouched(b: Broker, waiting: seq<Message>, t: Broker) {
    t.queued == waiting && t.attempted == b.attempted
  }

  lemma {:induction false} AttemptsByAt(client: nat, ms: seq<Message>)
    ensures |AttemptsBy(client, ms)| == |ms|
    ensures forall k :: 0 <= k < |ms| ==> AttemptsBy(client, ms)[k] == Attempt(client, ms[k])
  {
    if ms != [] {
      AttemptsByAt(client, ms[1..]);
      forall k | 0 <= k < |ms| ensures AttemptsBy(client, ms)[k] == Attempt(client, ms[k]) {
        assert k > 0 ==> ms[k] == ms[1..][k - 1];
      }
    }
  }

  lemma {:induction false} SubmitFlushes(b: Broker, m: Message)
    requires WellFormed(b)
    ensures var t := Step(b, Submit(m));
      if b.current.Some? && b.clients[b.current.value].isConnected
      then Flushed(b, b.queued + [m], t, b.current.value) else Untouched(b, b.queued + [m], t)
  {
    if b.current.Some? {
      AttemptsByAt(b.current.value, b.queued + [m]);
    }
  }

  lemma {:induction false} SetupFlushes(b: Broker, i: nat)
    requires WellFormed(b)
    ensures var t := Step(b, SetupDone(i));
      if InPhase(b, i, AwaitSetup) && b.clients[i].isConnected
      then Flushed(b, b.queued, t, i) else Untouched(b, b.queued, t)
  {
    AttemptsByAt(i, b.queued);
  }

  /** What an event sends, told by the history before it alone: at a submission, if
      the client built last is connected, and at the end of a client's setup, if that
      client is connected, the whole queue, in order, through that client; at every
      other event queue and attempts stay as they are. */
  ghost predicate Sends(es: seq<Event>, e: Event, b: Broker, t: Broker) {
    var built := Builds(es);
    match e
    case Submit(m) =>
      if built > 0 && IsConnected(es, built - 1)
      then Flushed(b, b.queued + [m], t, built - 1) else Untouched(b, b.queued + [m], t)
    case SetupDone(i) =>
      if InSetup(es, i) && IsConnected(es, i) then Flushed(b, b.queued, t, i) else Untouched(b, b.queued, t)
    case _ => Untouched(b, b.queued, t)
  }

  lemma {:induction false} FlushesExactly(es: seq<Event>, e: Event)
    ensures Sends(es, e, Run(es), Run(es + [e]))
  {
    RunOne(es, e);
    HistoryDecides(es);
    match e {
      case Submit(m) =>
        SubmitFlushes(Run(es), m);
        if Builds(es) > 0 {
          assert ClientFollows(Run(es), es, Builds(es) - 1);
        }
      case SetupDone(i) =>
        SetupFlushes(Run(es), i);
        if i >= Builds(es) {
          NotBuiltYet(es, i);
        } else {
          assert ClientFollows(Run(es), es, i);
        }
      case _ =>
    }
  }

  /** A lost current client holds messages back for the next one. */
  lemma LostClientHolds(b: Broker, i: nat, m: Message)
    requires WellFormed(b) && b.current == Some(i)
    ensures var t := Step(Step(b, Lost(i)), Submit(m));
      t.queued == b.queued + [m] && t.attempted == b.attempted && t.submitted == b.submitted + [m]
  {
  }

  /** No attempt from index n on is by client i. */
  predicate SilentFrom(attempted: seq<Attempt>, n: nat, i: nat) {
    forall k :: n <= k < |attempted| ==> attempted[k].client != i
  }

  lemma {:induction false} OneEventSilent(es: seq<Event>, e: Event, i: nat)
    requires !IsConnected(es, i)
    ensures Run(es).attempted <= Run(es + [e]).attempted
    ensures SilentFrom(Run(es + [e]).attempted, |Run(es).attempted|, i)
  {
    FlushesExactly(es, e);
    SentIsSilent(es, e, Run(es), Run(es + [e]), i);
  }

  lemma {:induction false} SentIsSilent(es: seq<Event>, e: Event, b: Broker, t: Broker, i: nat)
    requires Sends(es, e, b, t) && !IsConnected(es, i)
    ensures b.attempted <= t.attempted && SilentFrom(t.attempted, |b.attempted|, i)
  {
    match e {
      case Submit(m) =>
        if Builds(es) > 0 && IsConnected(es, Builds(es) - 1) {
          FlushedIsSilent(b, b.queued + [m], t, Builds(es) - 1, i);
        }
      case SetupDone(c) =>
        if InSetup(es, c) && IsConnected(es, c) {
          FlushedIsSilent(b, b.queued, t, c, i);
        }
      case _ =>
    }
  }

  lemma {:induction false} FlushedIsSilent(b: Broker, waiting: seq<Message>, t: Broker, c: nat, i: nat)
    requires Flushed(b, waiting, t, c) && c != i
    ensures SilentFrom(t.attempted, |b.attempted|, i)
  {
    forall k | |b.attempted| <= k < |t.attempted| ensures t.attempted[k].client != i {
      var j := k - |b.attempted|;
      assert t.attempted[|b.attempted| + j] == Attempt(c, waiting[j]);
    }
  }

  lemma {:induction false} SilenceComposes(a: seq<Attempt>, b: seq<Attempt>, c: seq<Attempt>, i: nat)
    requires a <= b <= c && SilentFrom(b, |a|, i) && SilentFrom(c, |b|, i)
    ensures SilentFrom(c, |a|, i)
  {
  }

  lemma {:induction false} UnconnectedIsSilent(es: seq<Event>, more: seq<Event>, i: nat)
    requires !IsConnected(es, i) && (AwaitsChannel(es, i) ==> ChannelOpen(i) !in more) && i < Builds(es)
    ensures var t := es + more;
      && Run(es).attempted <= Run(t).attempted && SilentFrom(Run(t).attempted, |Run(es).attempted|, i)
      && !IsConnected(t, i) && (AwaitsChannel(t, i) ==> AwaitsChannel(es, i)) && i < Builds(t)
    decreases |more|
  {
    if more == [] {
      assert es + more == es;
    } else {
      var front, e := more[..|more| - 1], more[|more| - 1];
      var t := es + front;
      assert e in more && es + more == t + [e] && (t + [e])[..|t|] == t;
      UnconnectedIsSilent(es, front, i);
      IsConnectedAfter(t, e, i);
      AwaitsChannelAfter(t, e, i);
      OneEventSilent(t, e, i);
      SilenceComposes(Run(es).attempted, Run(t).attempted, Run(t + [e]).attempted, i);
    }
  }

  /** After its loss a client never sends again, whatever follows, if and only if it
      was not still waiting for its channel: only an opening channel connects it. */
  lemma {:induction false} LostForGood(es: seq<Event>, i: nat)
    requires i < Builds(es)
    ensures (forall more :: SilentFrom(Run(es + [Lost(i)] + more).attempted, |Run(es).attempted|, i))
            <==> !AwaitsChannel(es, i)
  {
    var lost := es + [Lost(i)];
    IsConnectedAfter(es, Lost(i), i);
    AwaitsChannelAfter(es, Lost(i), i);
    FlushesExactly(es, Lost(i));
    assert lost[..|es|] == es;
    if AwaitsChannel(es, i) {
      OpensAfterLoss(lost, i);
    } else {
      forall more ensures SilentFrom(Run(lost + more).attempted, |Run(es).attempted|, i) {
        UnconnectedIsSilent(lost, more, i);
      }
    }
  }

  /** A client just built holds messages back; a client that awaits its channel goes on
      awaiting it. */
  lemma {:induction false} NewClientHolds(es: seq<Event>, m: Message, i: nat)
    ensures var x := es + [Build]; var y := x + [Submit(m)];
      && Run(y).queued == Run(es).queued + [m] && Run(y).attempted == Run(es).attempted
      && (AwaitsChannel(es, i) ==> AwaitsChannel(y, i))
  {
    var x := es + [Build];
    assert x[..|es|] == es;
    NotBuiltYet(es, Builds(es));
    FlushesExactly(es, Build);
    FlushesExactly(x, Submit(m));
    IsConnectedAfter(es, Build, Builds(es));
    AwaitsChannelAfter(es, Build, i);
    AwaitsChannelAfter(x, Submit(m), i);
  }

  lemma {:induction false} OpensAfterLoss(es: seq<Event>, i: nat)
    requires AwaitsChannel(es, i)
    ensures exists more :: !SilentFrom(Run(es + more).attempted, |Run(es).attempted|, i)
  {
    var m := Message("", "", "");
    var x := es + [Build];
    var y := x + [Submit(m)];
    var z := y + [ChannelOpen(i)];
    var more := [Build, Submit(m), ChannelOpen(i), SetupDone(i)];
    assert es + more == z + [SetupDone(i)];
    NewClientHolds(es, m, i);
    OpeningSends(y, i);
    FlushedSpeaks(Run(y), Run(y).queued, Run(z + [SetupDone(i)]), i);
    assert !SilentFrom(Run(es + more).attempted, |Run(es).attempted|, i);
  }

  /** A client whose channel opens and whose setup ends sends the whole queue. */
  lemma {:induction false} OpeningSends(es: seq<Event>, i: nat)
    requires AwaitsChannel(es, i)
    ensures Flushed(Run(es), Run(es).queued, Run(es + [ChannelOpen(i)] + [SetupDone(i)]), i)
  {
    var z := es + [ChannelOpen(i)];
    FlushesExactly(es, ChannelOpen(i));
    FlushesExactly(z, SetupDone(i));
    IsConnectedAfter(es, ChannelOpen(i), i);
    InSetupAfter(es, ChannelOpen(i), i);
  }

  lemma {:induction false} FlushedSpeaks(b: Broker, waiting: seq<Message>, t: Broker, i: nat)
    requires Flushed(b, waiting, t, i) && waiting != []
    ensures !SilentFrom(t.attempted, |b.attempted|, i)
  {
    assert t.attempted[|b.attempted| + 0] == Attempt(i, waiting[0]);
  }

  // ---- the publish calls ----

  /** A publish call: who made it, and with what. */
  datatype Call = Call(client: nat, exchange: string, routingKey: string, body: string)

  /** The calls that attempts lead to: those whose message json.dumps accepts. */
  function Calls(dumps: string -> Result<string>, attempts: seq<Attempt>): seq<Call> {
    if attempts == [] then [] else CallOf(dumps, attempts[0]) + Calls(dumps, attempts[1..])
  }

  function CallOf(dumps: string -> Result<string>, a: Attempt): seq<Call> {
    match dumps(a.message.body)
    case Ok(body) => [Call(a.client, a.message.exchange, a.message.routingKey, body)]
    case Raise => []
  }

  /** Each attempt in its place: one call with the message's exchange and routing key
      and the serialised body, by the client that attempts it, or none if the body
      cannot be serialised. */
  lemma {:induction false} PublishesExactly(dumps: string -> Result<string>, before: seq<Attempt>, client: nat,
                                            exchange: string, key: string, body: string, after: seq<Attempt>)
    ensures var calls := Calls(dumps, before + [Attempt(client, Message(exchange, key, body))] + after);
      match dumps(body)
      case Ok(text) => calls == Calls(dumps, before) + [Call(client, exchange, key, text)] + Calls(dumps, after)
      case Raise => calls == Calls(dumps, before) + Calls(dumps, after)
  {
    var a := Attempt(client, Message(exchange, key, body));
    CallsOne(dumps, a);
    CallsConcat(dumps, before + [a], after);
    CallsConcat(dumps, before, [a]);
    assert Calls(dumps, before) + [] == Calls(dumps, before);
  }

  lemma CallsOne(dumps: string -> Result<string>, a: Attempt)
    ensures Calls(dumps, [a]) == CallOf(dumps, a)
  {
    assert [a][1..] == [];
  }

  lemma {:induction false} CallsConcat(dumps: string -> Result<string>, a: seq<Attempt>, b: seq<Attempt>)
    ensures Calls(dumps, a + b) == Calls(dumps, a) + Calls(dumps, b)
    decreases |a|
  {
    if a == [] {
      assert a + b == b;
    } else {
      assert (a + b)[1..] == a[1..] + b && (a + b)[0] == a[0];
      CallsConcat(dumps, a[1..], b);
      var x, y, z := CallOf(dumps, a[0]), Calls(dumps, a[1..]), Calls(dumps, b);
      assert x + (y + z) == (x + y) + z;
    }
  }

  // ---- the objects ----

  class PikaProtocol {
    var isConnected: bool
    var phase: Phase
    const factory: PikaFactory
    ghost const id: nat

    constructor (factory: PikaFactory, ghost id: nat)
      ensures this.factory == factory && this.id == id
      ensures !isConnected && phase == AwaitChannel
    {
      this.factory, this.id := factory, id;
      isConnected, phase := false, AwaitChannel;
    }

    /** `send` */
    method Send()
      modifies factory`queuedMessages, factory`attempted, factory`published
      ensures if isConnected
              then factory.queuedMessages == []
                   && factory.attempted == old(factory.attempted) + AttemptsBy(id, old(factory.queuedMessages))
              else factory.queuedMessages == old(factory.queuedMessages) && factory.attempted == old(factory.attempted)
      ensures old(factory.published == Calls(factory.dumps, factory.attempted)) ==>
              factory.published == Calls(factory.dumps, factory.attempted)
    {
      if isConnected {
        ghost var sent: seq<Attempt> := [];
        while |factory.queuedMessages| > 0
          invariant factory.attempted == old(factory.attempted) + sent
          invariant sent + AttemptsBy(id, factory.queuedMessages) == AttemptsBy(id, old(factory.queuedMessages))
          invariant old(factory.published == Calls(factory.dumps, factory.attempted)) ==>
                    factory.published == Calls(factory.dumps, factory.attempted)
          decreases |factory.queuedMessages|
        {
          var message := factory.queuedMessages[0];
          ghost var a, rest := Attempt(id, message), factory.queuedMessages[1..];
          assert sent + ([a] + AttemptsBy(id, rest)) == (sent + [a]) + AttemptsBy(id, rest);
          CallsConcat(factory.dumps, factory.attempted, [a]);
          factory.queuedMessages := factory.queuedMessages[1..];
          SendMessage(message);
          sent := sent + [a];
        }
      }
    }

    /** `send_message`: a message that cannot be serialised is dropped without a
        publish call, and whatever the call gives back, the message is gone. */
    method SendMessage(message: Message)
      modifies factory`attempted, factory`published
      ensures factory.attempted == old(factory.attempted) + [Attempt(id, message)]
      ensures factory.published == old(factory.published) + Calls(factory.dumps, [Attempt(id, message)])
    {
      factory.attempted := factory.attempted + [Attempt(id, message)];
      var body := factory.dumps(message.body);
      CallsOne(factory.dumps, Attempt(id, message));
      if body.Ok? {
        factory.published := factory.published + [Call(id, message.exchange, message.routingKey, body.value)];
      }
    }
  }

  class PikaFactory {
    const routingKey: string
    /** json.dumps, which may raise */
    const dumps: string -> Result<string>
    var client: PikaProtocol?
    var queuedMessages: seq<Message>
    ghost var submitted: seq<Message>
    ghost var attempted: seq<Attempt>
    ghost var published: seq<Call>
    /** All clients ever built. */
    ghost var built: seq<PikaProtocol>
    ghost var clients: seq<Client>

    ghost predicate Valid()
      reads this, built
    {
      && |clients| == |built|
      && (forall i :: 0 <= i < |built| ==>
            && built[i].factory == this && built[i].id == i
            && clients[i] == Client(built[i].isConnected, built[i].phase))
      && (client != null ==> client in built)
      && published == Calls(dumps, attempted)
    }

    ghost function Current(): Broker
      reads this, client
    {
      Broker(clients, if client == null then None else Some(client.id), queuedMessages, submitted, attempted)
    }

    constructor (routingKey: string, dumps: string -> Result<string>)
      ensures Valid() && Current() == EMPTY && this.routingKey == routingKey && this.dumps == dumps
    {
      this.routingKey, this.dumps := routingKey, dumps;
      client, queuedMessages := null, [];
      submitted, attempted, published, built, clients := [], [], [], [], [];
    }

    /** `buildProtocol` */
    method BuildProtocol() returns (c: PikaProtocol)
      requires Valid()
      modifies this
      ensures Valid() && WellFormed(old(Current())) && Current() == Step(old(Current()), Build)
      ensures fresh(c) && c == client && built == old(built) + [c]
    {
      c := new PikaProtocol(this, |built|);
      client := c;
      built := built + [c];
      clients := clients + [Client(false, AwaitChannel)];
    }

    /** `send_message`; an empty routing key stands for the factory's own. */
    method SendMessage(exchange: string, key: string, body: string)
      requires Valid()
      modifies this
      ensures Valid() && built == old(built) && WellFormed(old(Current()))
      ensures Current() == Step(old(Current()), Submit(Message(exchange, if key == "" then routingKey else key, body)))
    {
      var message := Message(exchange, if key == "" then routingKey else key, body);
      queuedMessages := queuedMessages + [message];
      submitted := submitted + [message];
      if client != null {
        client.Send();
      }
    }

    /** The part of a client's `connected` up to `is_connected = True`. */
    method OnChannelOpen(c: PikaProtocol)
      requires Valid() && c in built && c.phase == AwaitChannel
      modifies this, c
      ensures Valid() && built == old(built) && WellFormed(old(Current()))
      ensures Current() == Step(old(Current()), ChannelOpen(c.id))
    {
      c.isConnected := true;
      c.phase := AwaitSetup;
      clients := clients[c.id := Client(true, AwaitSetup)];
    }

    /** The rest of a client's `connected`: send what waits. */
    method OnSetupDone(c: PikaProtocol)
      requires Valid() && c in built && c.phase == AwaitSetup
      modifies this, c
      ensures Valid() && built == old(built) && WellFormed(old(Current()))
      ensures Current() == Step(old(Current()), SetupDone(c.id))
    {
      c.phase := Finished;
      clients := clients[c.id := Client(c.isConnected, Finished)];
      if queuedMessages != [] {
        c.Send();
      }
    }

    /** An exception inside a client's `connected` ends it. */
    method OnFailed(c: PikaProtocol)
      requires Valid() && c in built && (c.phase == AwaitChannel || c.phase == AwaitSetup)
      modifies this, c
      ensures Valid() && built == old(built) && WellFormed(old(Current()))
      ensures Current() == Step(old(Current()), Failed(c.id))
    {
      c.phase := Stopped;
      clients := clients[c.id := Client(c.isConnected, Stopped)];
    }

    /** A client's `connectionLost` */
    method OnLost(c: PikaProtocol)
      requires Valid() && c in built
      modifies this, c
      ensures Valid() && built == old(built) && WellFormed(old(Current()))
      ensures Current() == Step(old(Current()), Lost(c.id))
    {
      c.isConnected := false;
      clients := clients[c.id := Client(false, c.phase)];
    }
  }
}
