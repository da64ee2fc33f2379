/** What becomes of a request when its proxy does nothing but wait: the internal runs of a connection, how long
    they can be and where they end (src/catter/main.cc, src/catter-proxy/rpc_handler.h). */
module RpcProgress {
  import opened Util
  import opened Serde
  import opened SerdeStream
  import opened Rpc
  import opened RpcSession

  // ------------------------------------------------------------ when something can happen

  /** The server has stopped inside a request, at a string of no bytes, and only more bytes could wake it. */
  predicate Blocked(c: Conn) { c.serving && ServerState(c).Stuck? && c.toServer == [] }

  /** A step that no program chooses: a callback, a request handled, a reply taken in, a failure noticed. */
  predicate Internal(e: Event) { !e.Send? && !e.ClientCloses? }

  ghost predicate CanGoOn(c: Conn) { exists e :: Internal(e) && Enabled(c, e) }

  lemma GoesOn(c: Conn, e: Event)
    requires Internal(e) && Enabled(c, e)
    ensures CanGoOn(c)
  {
  }

  lemma ServerGoesOn(c: Conn)
    requires Inv(c) && Awaiting(c.phase) && |c.handled| < |c.sent| && c.serving && !Blocked(c)
    ensures CanGoOn(c)
  {
    ServerStands(c.sent, c.handled, c.partial, c.toServer);
    match ServerState(c)
    case Done(_, _) => GoesOn(c, ServerHandles);
    case Stuck => GoesOn(c, ServerFails);
    case More(_) => GoesOn(c, ServerReads(1));
  }

  lemma ClientGoesOn(c: Conn)
    requires Awaiting(c.phase)
    requires ClientState(c).Done? || (Wants(ClientState(c)) && (c.toClient != [] || !c.serving))
    ensures CanGoOn(c)
  {
    if ClientState(c).Done? {
      GoesOn(c, ClientAccepts);
    } else if c.toClient != [] {
      GoesOn(c, ClientReads(1));
    } else {
      assert FitsString([]);
      GoesOn(c, ClientFails([]));
    }
  }

  lemma BlockedStops(c: Conn)
    requires Inv(c) && Awaiting(c.phase) && Blocked(c)
    ensures !CanGoOn(c)
  {
    ServerStands(c.sent, c.handled, c.partial, c.toServer);
    ClientStands(c);
    forall e | Internal(e) ensures !Enabled(c, e) {
    }
  }

  /** A proxy that waits for a reply is never the end of it, except when the server is blocked at an empty string,
      and then nothing ever happens on this connection by itself. */
  lemma WaitingGoesOn(c: Conn)
    requires Inv(c) && Awaiting(c.phase)
    ensures CanGoOn(c) <==> !Blocked(c)
  {
    if Blocked(c) {
      BlockedStops(c);
    } else if |c.handled| < |c.sent| && c.serving {
      ServerGoesOn(c);
    } else {
      ClientStands(c);
      ClientGoesOn(c);
    }
  }

  /** Filled requests never block the server or make its coroutine fail while the proxy is there. */
  lemma FilledIsServed(c: Conn)
    requires Inv(c) && AllFilled(c.sent)
    ensures !Blocked(c) && (c.serving || c.phase == Closed)
  {
    ServerStands(c.sent, c.handled, c.partial, c.toServer);
    if |c.handled| < |c.sent| {
      assert FilledRequest(c.sent[|c.handled|]);
    }
  }

  // ------------------------------------------------------------ internal runs are finite

  /** The bytes of the answers that are still to be written. */
  function Unwritten(c: Conn): nat
    requires |c.handled| <= |c.sent|
  {
    |EncodeReplies(Answers(c.id, c.sent[|c.handled|..]))|
  }

  /** As many internal steps as there can be. */
  function Budget(c: Conn): nat
    requires |c.handled| <= |c.sent|
  {
    (if c.serving then 1 + |c.toServer| + (|c.sent| - |c.handled|) + Unwritten(c) else 0)
    + |c.toClient| + if Awaiting(c.phase) then 1 else 0
  }

  lemma HandlesFirst(c: Conn)
    requires Inv(c) && Enabled(c, ServerHandles)
    ensures |c.handled| < |c.sent| && ServerState(c) == Done(c.sent[|c.handled|], [])
  {
    ServerStands(c.sent, c.handled, c.partial, c.toServer);
  }

  /** Its answer is written, and no longer to be written. */
  lemma HandledSpends(c: Conn, r: Request)
    requires c.serving && |c.handled| < |c.sent| && r == c.sent[|c.handled|]
    ensures var d := c.(partial := [], handled := c.handled + [r],
                        toClient := c.toClient + EncodeReplies(Answer(c.id, r)));
      Budget(d) < Budget(c)
  {
    AnswerWritten(c.id, c.sent, |c.handled|);
  }

  lemma HandlingSpends(c: Conn)
    requires Inv(c) && Enabled(c, ServerHandles)
    ensures var d := Apply(c, ServerHandles); |d.handled| <= |d.sent| && Budget(d) < Budget(c)
  {
    HandlesFirst(c);
    HandledSpends(c, c.sent[|c.handled|]);
  }

  lemma AnswerWritten(id: Int32, sent: seq<Request>, h: nat)
    requires h < |sent|
    ensures |EncodeReplies(Answers(id, sent[h..]))|
         == |EncodeReplies(Answer(id, sent[h]))| + |EncodeReplies(Answers(id, sent[h + 1..]))|
  {
    assert sent[h..][0] == sent[h] && sent[h..][1..] == sent[h + 1..];
    RepliesConcat(Answer(id, sent[h]), Answers(id, sent[h + 1..]));
  }

  lemma ServerStepsSpend(c: Conn, e: Event)
    requires |c.handled| <= |c.sent| && Enabled(c, e) && (e.ServerReads? || e.ServerFails?)
    ensures var d := Apply(c, e); |d.handled| <= |d.sent| && Budget(d) < Budget(c)
  {
  }

  lemma ClientStepsSpend(c: Conn, e: Event)
    requires |c.handled| <= |c.sent| && Enabled(c, e) && (e.ClientReads? || e.ClientAccepts?)
    ensures var d := Apply(c, e); |d.handled| <= |d.sent| && Budget(d) < Budget(c)
  {
  }

  lemma GivingUpSpends(c: Conn, message: Bytes)
    requires Inv(c) && Enabled(c, ClientFails(message))
    ensures var d := Apply(c, ClientFails(message)); |d.handled| <= |d.sent| && Budget(d) < Budget(c)
  {
    ClientStands(c);
    assert !c.serving;
  }

  /** Every internal step spends. */
  lemma InternalStepsSpend(c: Conn, e: Event)
    requires Inv(c) && Internal(e) && Enabled(c, e)
    ensures var d := Apply(c, e); Inv(d) && Budget(d) < Budget(c)
  {
    StepKeeps(c, e);
    match e
    case ServerHandles => HandlingSpends(c);
    case ClientFails(message) => GivingUpSpends(c, message);
    case ClientReads(_) => ClientStepsSpend(c, e);
    case ClientAccepts => ClientStepsSpend(c, e);
    case _ => ServerStepsSpend(c, e);
  }

  /** The connection after a run of internal steps, if each was possible in its turn. */
  function Run(c: Conn, es: seq<Event>): Option<Conn>
    decreases |es|
  {
    if es == [] then Some(c)
    else if Internal(es[0]) && Enabled(c, es[0]) then Run(Apply(c, es[0]), es[1..])
    else None
  }

  /** Main result on termination: no internal run is longer than what is left to read, handle, write and take in. */
  lemma {:induction false} RunsAreShort(c: Conn, es: seq<Event>)
    requires Inv(c) && Run(c, es).Some?
    ensures Inv(Run(c, es).value) && |es| <= Budget(c)
    decreases |es|
  {
    if es != [] {
      InternalStepsSpend(c, es[0]);
      RunsAreShort(Apply(c, es[0]), es[1..]);
    }
  }

  /** An internal run after which nothing more happens by itself. */
  ghost predicate Finished(c: Conn, es: seq<Event>) {
    Run(c, es).Some? && !CanGoOn(Run(c, es).value)
  }

  /** There always is one. */
  lemma {:induction false} RunsFinish(c: Conn) returns (es: seq<Event>)
    requires Inv(c)
    ensures Finished(c, es)
    decreases Budget(c)
  {
    if CanGoOn(c) {
      var e :| Internal(e) && Enabled(c, e);
      InternalStepsSpend(c, e);
      var rest := RunsFinish(Apply(c, e));
      es := [e] + rest;
      assert es[1..] == rest;
    } else {
      es := [];
    }
  }

  // ------------------------------------------------------------ where they end

  /** The proxy has its reply and stands behind its call. */
  predicate HasReply(c: Conn, d: Conn)
    requires Awaiting(c.phase) && Phased(c)
  {
    d.phase == (if c.phase == AwaitId then Ready else Acting) && d.received == c.received + [Awaited(c)]
  }

  /** It still waits, for the same. */
  predicate StillWaits(c: Conn, d: Conn) {
    d.phase == c.phase && d.id == c.id && d.sent == c.sent && d.received == c.received
  }

  /** It has given up. */
  predicate GaveUp(c: Conn, d: Conn) { d.phase == Failed && d.received == c.received }

  /** The one request that matters is the last. */
  lemma LastDecides(c: Conn)
    requires Awaiting(c.phase) && Phased(c)
    ensures AllFilled(c.sent) <==> FilledRequest(c.sent[|c.sent| - 1])
  {
    assert FilledRequest(c.sent[0]) || c.phase == AwaitId;
    if FilledRequest(c.sent[|c.sent| - 1]) {
      forall k | 0 <= k < |c.sent| ensures FilledRequest(c.sent[k]) {
      }
    }
  }

  lemma LastUnhandled(sent: seq<Request>, handled: seq<Request>)
    requires sent != [] && !FilledRequest(sent[|sent| - 1]) && AllFilled(handled)
    requires |handled| <= |sent| && handled == sent[..|handled|]
    ensures |handled| < |sent|
  {
    assert |handled| > 0 ==> FilledRequest(handled[|handled| - 1]);
  }

  /** A request with an empty string is not handled, so its reply is not there to take in. */
  lemma EmptyStringIsNotAnswered(c: Conn)
    requires Inv(c) && Awaiting(c.phase) && !FilledRequest(c.sent[|c.sent| - 1])
    ensures |c.handled| < |c.sent| && !Enabled(c, ClientAccepts)
  {
    LastUnhandled(c.sent, c.handled);
    UnhandledIsNotThere(c);
  }

  lemma UnhandledIsNotThere(c: Conn)
    requires Inv(c) && Awaiting(c.phase) && |c.handled| < |c.sent|
    ensures !Enabled(c, ClientAccepts)
  {
    ClientStands(c);
  }

  /** What can become of a waiting proxy: with a filled request it never gives up, with any other it never has
      its reply. */
  predicate Onward(c: Conn, d: Conn)
    requires Awaiting(c.phase) && Phased(c)
  {
    StillWaits(c, d) || if FilledRequest(c.sent[|c.sent| - 1]) then HasReply(c, d) else GaveUp(c, d)
  }

  lemma OnwardThen(c: Conn, d: Conn, f: Conn)
    requires Awaiting(c.phase) && Phased(c) && StillWaits(c, d) && Phased(d) && Onward(d, f)
    ensures Onward(c, f)
  {
  }

  lemma FilledNeverFails(c: Conn, message: Bytes)
    requires Inv(c) && Awaiting(c.phase) && FilledRequest(c.sent[|c.sent| - 1])
    ensures !Enabled(c, ClientFails(message))
  {
    LastDecides(c);
    FilledIsServed(c);
    ClientStands(c);
  }

  lemma TakesItsReply(c: Conn)
    requires Inv(c) && Enabled(c, ClientAccepts)
    ensures HasReply(c, Apply(c, ClientAccepts))
  {
    ClientStands(c);
  }

  lemma FailingGivesUp(c: Conn, message: Bytes)
    requires Enabled(c, ClientFails(message))
    ensures GaveUp(c, Apply(c, ClientFails(message)))
  {
  }

  lemma OtherStepsWait(c: Conn, e: Event)
    requires Awaiting(c.phase) && Internal(e) && Enabled(c, e) && !e.ClientAccepts? && !e.ClientFails?
    ensures StillWaits(c, Apply(c, e))
  {
  }

  /** One internal step of a waiting proxy's connection. */
  lemma WaitingStep(c: Conn, e: Event)
    requires Inv(c) && Awaiting(c.phase) && Internal(e) && Enabled(c, e)
    ensures Onward(c, Apply(c, e))
  {
    var filled := FilledRequest(c.sent[|c.sent| - 1]);
    if e.ClientAccepts? {
      TakesItsReply(c);
      if !filled { EmptyStringIsNotAnswered(c); }
    } else if e.ClientFails? {
      FailingGivesUp(c, e.message);
      if filled { FilledNeverFails(c, e.message); }
    } else {
      OtherStepsWait(c, e);
    }
  }

  /** A proxy that does not wait is not moved by internal steps. */
  lemma {:induction false} OthersStay(c: Conn, es: seq<Event>)
    requires !Awaiting(c.phase) && Run(c, es).Some?
    ensures Run(c, es).value.phase == c.phase && Run(c, es).value.received == c.received
    decreases |es|
  {
    if es != [] {
      OthersStay(Apply(c, es[0]), es[1..]);
    }
  }

  /** Any internal run. */
  lemma {:induction false} WaitingRun(c: Conn, es: seq<Event>)
    requires Inv(c) && Awaiting(c.phase) && Run(c, es).Some?
    ensures Onward(c, Run(c, es).value)
    decreases |es|, 0
  {
    if es != [] {
      InternalStepsSpend(c, es[0]);
      WaitingStep(c, es[0]);
      WaitingRest(c, Apply(c, es[0]), es[1..]);
    }
  }

  lemma {:induction false} WaitingRest(c: Conn, d: Conn, es: seq<Event>)
    requires Awaiting(c.phase) && Phased(c) && Inv(d) && Onward(c, d) && Run(d, es).Some?
    ensures Onward(c, Run(d, es).value)
    decreases |es|, 1
  {
    if Awaiting(d.phase) {
      WaitingRun(d, es);
      OnwardThen(c, d, Run(d, es).value);
    } else {
      OthersStay(d, es);
    }
  }

  lemma FilledGoesOn(c: Conn)
    requires Inv(c) && Awaiting(c.phase) && FilledRequest(c.sent[|c.sent| - 1])
    ensures CanGoOn(c)
  {
    LastDecides(c);
    FilledIsServed(c);
    WaitingGoesOn(c);
  }

  lemma AtTheEnd(c: Conn, d: Conn)
    requires Awaiting(c.phase) && Phased(c) && Onward(c, d) && Inv(d) && !CanGoOn(d)
    ensures HasReply(c, d) <==> FilledRequest(c.sent[|c.sent| - 1])
    ensures !HasReply(c, d) ==> d.received == c.received && (d.phase == c.phase || d.phase == Failed)
  {
    if FilledRequest(c.sent[|c.sent| - 1]) && StillWaits(c, d) {
      assert false by { FilledGoesOn(d); }
    }
  }

  /** Main result on replies: when nothing more happens by itself, a waiting proxy has its one reply, decoded as it
      was written, and stands behind its call, if and only if its request holds no empty string; otherwise it has
      taken in nothing, and waits on or has given up. */
  lemma ReplyExactly(c: Conn, es: seq<Event>)
    requires Inv(c) && Awaiting(c.phase) && Finished(c, es)
    ensures var d := Run(c, es).value;
      && (HasReply(c, d) <==> FilledRequest(c.sent[|c.sent| - 1]))
      && (!HasReply(c, d) ==> d.received == c.received && (d.phase == c.phase || d.phase == Failed))
  {
    WaitingRun(c, es);
    RunsAreShort(c, es);
    AtTheEnd(c, Run(c, es).value);
  }

  // ------------------------------------------------------------ in any run of the server

  /** An internal run within the budget that ends with the reply, or without it if the request holds an empty
      string. */
  ghost predicate Settles(c: Conn, es: seq<Event>)
    requires Inv(c) && Awaiting(c.phase)
  {
    && Finished(c, es) && |es| <= Budget(c)
    && (HasReply(c, Run(c, es).value) <==> FilledRequest(c.sent[|c.sent| - 1]))
  }

  lemma WaitingSettles(c: Conn)
    requires Inv(c) && Awaiting(c.phase)
    ensures exists es :: Finished(c, es)
    ensures forall es :: Run(c, es).Some? ==> |es| <= Budget(c)
    ensures forall es :: Finished(c, es) ==> Settles(c, es)
  {
    var end := RunsFinish(c);
    forall es | Run(c, es).Some? ensures |es| <= Budget(c) {
      RunsAreShort(c, es);
    }
    forall es | Finished(c, es) ensures Settles(c, es) {
      RunsAreShort(c, es);
      ReplyExactly(c, es);
    }
  }

  lemma EveryConnIsGood(steps: seq<Step>, i: nat)
    requires After(steps).Some? && i < |After(steps).value.accepted|
    ensures Inv(After(steps).value.accepted[i])
  {
    EveryRunIsGood(steps);
  }

  /** Main result on sessions: after every run of the server, on every connection whose proxy waits, no internal run is
      longer than the budget, some run comes to an end, and wherever one does the proxy has its reply if and only if
      its request holds no empty string. */
  lemma SessionReplies(steps: seq<Step>, i: nat)
    requires After(steps).Some? && i < |After(steps).value.accepted|
    requires Awaiting(After(steps).value.accepted[i].phase)
    ensures var c := After(steps).value.accepted[i];
      && Inv(c)
      && (exists es :: Finished(c, es))
      && (forall es :: Run(c, es).Some? ==> |es| <= Budget(c))
      && (forall es :: Finished(c, es) ==> Settles(c, es))
  {
    EveryConnIsGood(steps, i);
    WaitingSettles(After(steps).value.accepted[i]);
  }

  /** A proxy gets to wait, so that there are such runs: the first one that connects and asks for an id. */
  lemma SomeProxyWaits(parentId: Int32)
    ensures var s := After([Accepts, On(0, Send(Create(parentId)))]);
      s.Some? && |s.value.accepted| == 1 && Inv(s.value.accepted[0]) && s.value.accepted[0].phase == AwaitId
  {
    var steps := [Accepts, On(0, Send(Create(parentId)))];
    assert steps[..1] == [Accepts] && steps[..1][..0] == [];
    assert After(steps[..1]).Some?;
    EveryConnIsGood(steps, 0);
  }

  /** A command whose last environment entry is empty is a request with an empty string: its every byte is read,
      and the server still waits. */
  lemma EmptyEntryBlocks()
    ensures var r := MakeDecision(Command(Text("/"), Text("cc"), [], [[]]));
      DecodeRequest(EncodeRequest(r), true) == Stuck
  {
    var cmd := Command(Text("/"), Text("cc"), [], [[]]);
    assert cmd.env[0] == [];
    assert Values(8) > 2 by {
      WidthOfInt();
      assert Values(8) == 256 * Values(7) && Values(7) == 256 * Values(6);
    }
    RequestBack(MakeDecision(cmd), [], true);
    assert EncodeRequest(MakeDecision(cmd)) + [] == EncodeRequest(MakeDecision(cmd));
  }
}
