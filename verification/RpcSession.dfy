/** Any number of proxies talking to one server, as a state machine: each connection is a pair of byte queues,
    and a step is one write, one callback, one request handled or one connection made, by whoever is next
    (src/catter/main.cc, src/catter-proxy/main.cc, src/catter-proxy/rpc_handler.h). */
module RpcSession {
  import opened Util
  import opened Serde
  import opened SerdeStream
  import opened Rpc

  /** Where a proxy's main program stands: before, at and after its calls; over once it has made its last request;
      failed when that was a report of a read that failed. */
  datatype Phase = Start | AwaitId | Ready | AwaitAction | Acting | Over | Failed | Closed

  datatype Conn = Conn(
    // the server's coroutine
    id: Int32, serving: bool, partial: Bytes, handled: seq<Request>,
    // the proxy
    phase: Phase, parentId: Int32, myId: Int32, sent: seq<Request>, reply: Bytes, received: seq<Reply>,
    // what lies in the pipe
    toServer: Bytes, toClient: Bytes)

  function NewConn(id: Int32): Conn {
    Conn(id, true, [], [], Start, -1, -1, [], [], [], [], [])
  }

  datatype Event =
    | Send(r: Request)
    | ServerReads(k: nat)
    | ServerHandles
    | ServerFails
    | ClientReads(k: nat)
    | ClientAccepts
    | ClientFails(message: Bytes)
    | ClientCloses

  /** The order of the main program. A report ends it, from wherever it is not waiting. */
  predicate MaySend(c: Conn, r: Request) {
    FitsRequest(r) && match r
    case Create(_) => c.phase == Start
    case MakeDecision(_) => c.phase == Ready
    case Finish(_) => c.phase == Acting
    case ReportError(parentId, id, _) =>
      (c.phase == Start || c.phase == Ready || c.phase == Acting) && parentId == c.parentId && id == c.myId
    case Unknown(_) => false
  }

  predicate Awaiting(phase: Phase) { phase == AwaitId || phase == AwaitAction }

  function DecodeReply(phase: Phase, s: Bytes): Decoded<Reply> {
    if phase == AwaitId then
      var (id, rest) :- DecodeInt(s, true);
      Done(IdReply(id), rest)
    else
      var (action, rest) :- DecodeAction(s, true);
      Done(ActionReply(action), rest)
  }

  /** The server's current read, on what its coroutine has read of the current request. */
  function ServerState(c: Conn): Decoded<Request> { DecodeRequest(c.partial, true) }

  function ClientState(c: Conn): Decoded<Reply> { DecodeReply(c.phase, c.reply) }

  predicate Enabled(c: Conn, e: Event) {
    match e
    case Send(r) => MaySend(c, r)
    case ServerReads(k) => c.serving && ServerState(c).More? && 0 < k <= ServerState(c).n && k <= |c.toServer|
    case ServerHandles => c.serving && ServerState(c).Done?
    case ServerFails =>
      c.serving && (if ServerState(c).Stuck? then c.toServer != [] || c.phase == Closed
                    else ServerState(c).More? && c.toServer == [] && c.phase == Closed)
    case ClientReads(k) =>
      Awaiting(c.phase) && ClientState(c).More? && 0 < k <= ClientState(c).n && k <= |c.toClient|
    case ClientAccepts => Awaiting(c.phase) && ClientState(c).Done?
    case ClientFails(message) =>
      FitsString(message) && Awaiting(c.phase) && !ClientState(c).Done?
      && (if ClientState(c).Stuck? then c.toClient != [] || !c.serving else c.toClient == [] && !c.serving)
    case ClientCloses => c.phase != Closed
  }

  function AfterSend(phase: Phase, r: Request): Phase {
    match r
    case Create(_) => AwaitId
    case MakeDecision(_) => AwaitAction
    case _ => Over
  }

  function Apply(c: Conn, e: Event): Conn
    requires Enabled(c, e)
  {
    match e
    case Send(r) =>
      c.(phase := AfterSend(c.phase, r), parentId := if r.Create? then r.parentId else c.parentId,
         sent := c.sent + [r], toServer := c.toServer + EncodeRequest(r))
    case ServerReads(k) => c.(partial := c.partial + c.toServer[..k], toServer := c.toServer[k..])
    case ServerHandles =>
      var d := ServerState(c);
      c.(partial := d.rest, handled := c.handled + [d.value],
         toClient := c.toClient + EncodeReplies(Answer(c.id, d.value)))
    case ServerFails => c.(serving := false)
    case ClientReads(k) => c.(reply := c.reply + c.toClient[..k], toClient := c.toClient[k..])
    case ClientAccepts =>
      var d := ClientState(c);
      c.(reply := d.rest, received := c.received + [d.value],
         myId := if d.value.IdReply? then d.value.id else c.myId,
         phase := if c.phase == AwaitId then Ready else Acting)
    case ClientFails(message) =>
      var r := ReportError(c.parentId, c.myId, message);
      c.(phase := Failed, sent := c.sent + [r], toServer := c.toServer + EncodeRequest(r))
    case ClientCloses => c.(phase := Closed)
  }

  // ------------------------------------------------------------ the server is aligned

  /** The server stands inside the first request it has not handled, and what it has not read of that and of
      the later ones is what lies in the pipe. */
  predicate Aligned(sent: seq<Request>, handled: seq<Request>, partial: Bytes, toServer: Bytes) {
    && AllFit(sent)
    && |handled| <= |sent|
    && handled == sent[..|handled|]
    && if |handled| == |sent| then partial == [] && toServer == []
       else Cut(EncodeRequest(sent[|handled|]), EncodeAll(sent[|handled| + 1..]), partial, toServer)
  }

  predicate Cut(message: Bytes, later: Bytes, partial: Bytes, toServer: Bytes) {
    |partial| <= |message| && message == partial + message[|partial|..] && toServer == message[|partial|..] + later
  }

  lemma CutWhole(message: Bytes)
    ensures Cut(message, [], [], message)
  {
    assert message[0..] == message == [] + message == message + [];
  }

  lemma CutGrows(message: Bytes, later: Bytes, partial: Bytes, toServer: Bytes, more: Bytes)
    requires Cut(message, later, partial, toServer)
    ensures Cut(message, later + more, partial, toServer + more)
  {
    ConcatAssoc(message[|partial|..], later, more);
  }

  lemma AllFitSnoc(rs: seq<Request>, r: Request)
    requires AllFit(rs) && FitsRequest(r)
    ensures AllFit(rs + [r])
  {
    forall k | 0 <= k < |rs| + 1 ensures FitsRequest((rs + [r])[k]) {
      if k < |rs| { assert FitsRequest(rs[k]); }
    }
  }

  lemma SendAligns(sent: seq<Request>, handled: seq<Request>, partial: Bytes, toServer: Bytes, r: Request)
    requires Aligned(sent, handled, partial, toServer) && FitsRequest(r)
    ensures Aligned(sent + [r], handled, partial, toServer + EncodeRequest(r))
  {
    AllFitSnoc(sent, r);
    assert (sent + [r])[..|handled|] == sent[..|handled|];
    if |handled| == |sent| {
      assert (sent + [r])[|sent|] == r;
      SendFirst(sent, toServer, r);
    } else {
      assert (sent + [r])[|handled|] == sent[|handled|];
      SendLater(sent, |handled|, partial, toServer, r);
    }
  }

  lemma SendFirst(sent: seq<Request>, toServer: Bytes, r: Request)
    requires toServer == []
    ensures Cut(EncodeRequest(r), EncodeAll((sent + [r])[|sent| + 1..]), [], toServer + EncodeRequest(r))
  {
    assert (sent + [r])[|sent| + 1..] == [];
    assert toServer + EncodeRequest(r) == EncodeRequest(r);
    CutWhole(EncodeRequest(r));
  }

  lemma SendLater(sent: seq<Request>, h: nat, partial: Bytes, toServer: Bytes, r: Request)
    requires h < |sent| && Cut(EncodeRequest(sent[h]), EncodeAll(sent[h + 1..]), partial, toServer)
    ensures Cut(EncodeRequest(sent[h]), EncodeAll((sent + [r])[h + 1..]), partial, toServer + EncodeRequest(r))
  {
    assert (sent + [r])[h + 1..] == sent[h + 1..] + [r];
    EncodeAllSnoc(sent[h + 1..], r);
    CutGrows(EncodeRequest(sent[h]), EncodeAll(sent[h + 1..]), partial, toServer, EncodeRequest(r));
  }

  /** Where the server's read stands, from the requests alone. */
  lemma ServerStands(sent: seq<Request>, handled: seq<Request>, partial: Bytes, toServer: Bytes)
    requires Aligned(sent, handled, partial, toServer)
    ensures var d := DecodeRequest(partial, true);
      match d
      case Done(r, rest) => |handled| < |sent| && r == sent[|handled|] && rest == [] && partial == EncodeRequest(r)
      case Stuck => |handled| < |sent| && !FilledRequest(sent[|handled|])
      case More(n) =>
        n > 0 && (|handled| < |sent| ==> |partial| + n <= |EncodeRequest(sent[|handled|])|)
  {
    if |handled| < |sent| {
      var r := sent[|handled|];
      assert FitsRequest(r);
      var missing := EncodeRequest(r)[|partial|..];
      if missing == [] {
        RequestBack(r, [], true);
        assert EncodeRequest(r) + [] == EncodeRequest(r) == partial;
      } else {
        PartOfRequest(r, partial, missing);
      }
    }
  }

  lemma ReadAligns(sent: seq<Request>, handled: seq<Request>, partial: Bytes, toServer: Bytes, k: nat)
    requires Aligned(sent, handled, partial, toServer)
    requires DecodeRequest(partial, true).More? && 0 < k <= DecodeRequest(partial, true).n && k <= |toServer|
    ensures Aligned(sent, handled, partial + toServer[..k], toServer[k..])
  {
    ServerStands(sent, handled, partial, toServer);
    CutMoves(EncodeRequest(sent[|handled|]), EncodeAll(sent[|handled| + 1..]), partial, toServer, k);
  }

  lemma CutMoves(message: Bytes, later: Bytes, partial: Bytes, toServer: Bytes, k: nat)
    requires Cut(message, later, partial, toServer) && |partial| + k <= |message|
    ensures Cut(message, later, partial + toServer[..k], toServer[k..])
  {
    assert toServer[..k] == message[|partial|..|partial| + k];
    assert partial + toServer[..k] == message[..|partial| + k];
    assert toServer[k..] == message[|partial| + k..] + later;
  }

  lemma NextMessage(sent: seq<Request>, h: nat, toServer: Bytes)
    requires h < |sent| && toServer == EncodeAll(sent[h..])
    ensures Cut(EncodeRequest(sent[h]), EncodeAll(sent[h + 1..]), [], toServer)
  {
    var next := EncodeRequest(sent[h]);
    assert sent[h..][1..] == sent[h + 1..];
    assert next[0..] == next == [] + next;
  }

  lemma HandleAligns(sent: seq<Request>, handled: seq<Request>, partial: Bytes, toServer: Bytes)
    requires Aligned(sent, handled, partial, toServer) && DecodeRequest(partial, true).Done?
    ensures var d := DecodeRequest(partial, true); Aligned(sent, handled + [d.value], d.rest, toServer)
  {
    ServerStands(sent, handled, partial, toServer);
    WholeAligns(sent, handled, partial, toServer);
  }

  lemma WholeAligns(sent: seq<Request>, handled: seq<Request>, partial: Bytes, toServer: Bytes)
    requires Aligned(sent, handled, partial, toServer) && |handled| < |sent|
    requires partial == EncodeRequest(sent[|handled|])
    ensures Aligned(sent, handled + [sent[|handled|]], [], toServer)
  {
    var h := |handled|;
    assert sent[..h + 1] == sent[..h] + [sent[h]];
    var later := EncodeAll(sent[h + 1..]);
    assert toServer == [] + later == later;
    if h + 1 < |sent| {
      NextMessage(sent, h + 1, toServer);
    } else {
      assert sent[h + 1..] == [];
    }
  }

  // ------------------------------------------------------------ one connection's invariant

  predicate Started(c: Conn) { |c.sent| >= 1 && c.sent[0] == Create(c.parentId) }

  predicate Asked(c: Conn) { |c.sent| == 2 && Started(c) && c.sent[1].MakeDecision? }

  /** What the proxy has asked when it stands where it does. */
  predicate Phased(c: Conn) {
    match c.phase
    case Start => c.sent == [] && c.parentId == -1 && c.myId == -1
    case AwaitId => |c.sent| == 1 && Started(c)
    case Ready => |c.sent| == 1 && Started(c) && c.myId == c.id
    case AwaitAction => Asked(c) && c.myId == c.id
    case Acting => Asked(c) && c.myId == c.id
    case Over => Script(c.sent) && Complete(c.sent)
    case Failed => Script(c.sent) && Complete(c.sent)
    case Closed => Script(c.sent)
  }

  /** The one reply a waiting proxy waits for. */
  function Awaited(c: Conn): Reply
    requires Awaiting(c.phase) && Phased(c)
  {
    if c.phase == AwaitId then IdReply(c.id) else ActionReply(Action(INJECT, c.sent[1].cmd))
  }

  /** What it has taken in: the answers to what it asked, but for the one it waits for. */
  predicate Taken(c: Conn)
    requires Phased(c)
  {
    if c.phase == Failed || c.phase == Closed then c.received <= Answers(c.id, c.sent)
    else if Awaiting(c.phase) then Answers(c.id, c.sent) == c.received + [Awaited(c)]
    else Answers(c.id, c.sent) == c.received
  }

  /** What is on its way to the client answers what was handled, without what the client has taken in. */
  predicate Replied(answers: seq<Reply>, received: seq<Reply>, reply: Bytes, toClient: Bytes) {
    received <= answers && reply + toClient == EncodeReplies(answers[|received|..])
  }

  predicate Inv(c: Conn) {
    && Aligned(c.sent, c.handled, c.partial, c.toServer)
    && AllFilled(c.handled)
    && Phased(c)
    && Taken(c)
    && Replied(Answers(c.id, c.handled), c.received, c.reply, c.toClient)
    && (c.serving || c.phase == Closed || ServerState(c).Stuck?)
  }

  // ------------------------------------------------------------ what a waiting proxy gets

  lemma {:induction false} AnswersPrefix(id: Int32, rs: seq<Request>, n: nat)
    requires n <= |rs|
    ensures Answers(id, rs[..n]) <= Answers(id, rs)
  {
    if n > 0 {
      assert rs[..n][1..] == rs[1..][..n - 1];
      AnswersPrefix(id, rs[1..], n - 1);
    }
  }

  /** The server has answered a waiting proxy exactly when it has handled everything. */
  lemma AnsweredToWaiting(c: Conn)
    requires Awaiting(c.phase) && Phased(c) && Taken(c)
    requires |c.handled| <= |c.sent| && c.handled == c.sent[..|c.handled|] && c.received <= Answers(c.id, c.handled)
    ensures Answers(c.id, c.handled) == if |c.handled| == |c.sent| then c.received + [Awaited(c)] else c.received
  {
    var n := |c.sent| - 1;
    if |c.handled| == |c.sent| {
      assert c.handled == c.sent;
    } else {
      assert c.sent == c.sent[..n] + [c.sent[n]];
      AnswersSnoc(c.id, c.sent[..n], c.sent[n]);
      assert Answer(c.id, c.sent[n]) == [Awaited(c)];
      AnswersPrefix(c.id, c.sent[..n], |c.handled|);
      assert c.sent[..n][..|c.handled|] == c.handled;
    }
  }

  predicate Wants<T(==)>(d: Decoded<T>) { d.More? && d.n > 0 }

  lemma ReplyWhole(phase: Phase, reply: Bytes, toClient: Bytes, x: Reply)
    requires if phase == AwaitId then x.IdReply? else x.ActionReply?
    requires x.ActionReply? ==> FitsCommand(x.action.cmd) && FilledCommand(x.action.cmd)
    requires reply + toClient == EncodeReply(x)
    ensures if toClient == [] then DecodeReply(phase, reply) == Done(x, []) else Wants(DecodeReply(phase, reply))
  {
    var e := EncodeReply(x);
    if toClient == [] {
      assert reply == e == e + [];
      match x
      case IdReply(id) => IntBack(id, [], true);
      case ActionReply(action) => ActionBack(action, [], true);
    } else {
      match x
      case IdReply(id) => PartOfInt(id, reply, toClient);
      case ActionReply(action) => PartOfAction(action, reply, toClient);
    }
  }

  lemma AwaitedFits(c: Conn)
    requires Awaiting(c.phase) && Phased(c) && AllFit(c.sent) && AllFilled(c.handled) && c.handled == c.sent
    ensures Awaited(c).ActionReply? ==> FitsCommand(Awaited(c).action.cmd) && FilledCommand(Awaited(c).action.cmd)
  {
    if c.phase == AwaitAction {
      assert FitsRequest(c.sent[1]) && FilledRequest(c.handled[1]);
    }
  }

  lemma AnsweredStands(c: Conn)
    requires Awaiting(c.phase) && Phased(c) && AllFit(c.sent) && AllFilled(c.handled) && c.handled == c.sent
    requires Replied(c.received + [Awaited(c)], c.received, c.reply, c.toClient)
    ensures if c.toClient == [] then ClientState(c) == Done(Awaited(c), []) else Wants(ClientState(c))
  {
    OneReply(Awaited(c));
    assert (c.received + [Awaited(c)])[|c.received|..] == [Awaited(c)];
    AwaitedFits(c);
    ReplyWhole(c.phase, c.reply, c.toClient, Awaited(c));
  }

  lemma UnansweredStands(phase: Phase, received: seq<Reply>, reply: Bytes, toClient: Bytes)
    requires Replied(received, received, reply, toClient)
    ensures toClient == [] && Wants(DecodeReply(phase, reply))
  {
    assert received[|received|..] == [];
    assert reply == [];
  }

  /** Where a waiting proxy's read stands: its reply is there to the last byte, or it wants more. */
  lemma ClientStands(c: Conn)
    requires Awaiting(c.phase) && Inv(c)
    ensures |c.handled| == |c.sent| ==> c.received + [Awaited(c)] == Answers(c.id, c.handled)
    ensures |c.handled| == |c.sent| && c.toClient == [] ==> ClientState(c) == Done(Awaited(c), [])
    ensures |c.handled| < |c.sent| ==> c.toClient == []
    ensures |c.handled| < |c.sent| || c.toClient != [] ==> Wants(ClientState(c))
  {
    AnsweredToWaiting(c);
    if |c.handled| == |c.sent| {
      assert c.handled == c.sent by {
        assert c.sent[..|c.sent|] == c.sent;
      }
      AnsweredStands(c);
    } else {
      UnansweredStands(c.phase, c.received, c.reply, c.toClient);
    }
  }

  // ------------------------------------------------------------ every step keeps the invariant

  lemma SendKeeps(c: Conn, r: Request)
    requires Inv(c) && Enabled(c, Send(r))
    ensures Inv(Apply(c, Send(r)))
  {
    SendAligns(c.sent, c.handled, c.partial, c.toServer, r);
    SendPhased(c, r);
  }

  lemma SendPhased(c: Conn, r: Request)
    requires Phased(c) && Taken(c) && MaySend(c, r)
    ensures var d := Apply(c, Send(r)); Phased(d) && Taken(d)
  {
    AnswersSnoc(c.id, c.sent, r);
    if c.phase == Start {
      assert c.sent + [r] == [r];
      StartPhased(c, r);
    } else if c.phase == Ready {
      ReadyPhased(c, r);
    } else {
      ActingPhased(c, r);
    }
  }

  lemma StartPhased(c: Conn, r: Request)
    requires c.phase == Start && Phased(c) && Taken(c) && MaySend(c, r)
    requires c.sent + [r] == [r] && Answers(c.id, c.sent + [r]) == Answers(c.id, c.sent) + Answer(c.id, r)
    ensures var d := Apply(c, Send(r)); Phased(d) && Taken(d)
  {
  }

  lemma ReadyPhased(c: Conn, r: Request)
    requires c.phase == Ready && Phased(c) && Taken(c) && MaySend(c, r)
    requires Answers(c.id, c.sent + [r]) == Answers(c.id, c.sent) + Answer(c.id, r)
    ensures var d := Apply(c, Send(r)); Phased(d) && Taken(d)
  {
    assert c.sent + [r] == [c.sent[0], r];
  }

  lemma ActingEndsScript(c: Conn, r: Request)
    requires c.phase == Acting && Phased(c) && MaySend(c, r)
    ensures Phased(Apply(c, Send(r)))
  {
    assert c.sent + [r] == [c.sent[0], c.sent[1], r];
  }

  lemma ActingPhased(c: Conn, r: Request)
    requires c.phase == Acting && Phased(c) && Taken(c) && MaySend(c, r)
    requires Answers(c.id, c.sent + [r]) == Answers(c.id, c.sent) + Answer(c.id, r)
    ensures var d := Apply(c, Send(r)); Phased(d) && Taken(d)
  {
    ActingEndsScript(c, r);
  }

  lemma ReportEndsScript(c: Conn, r: Request)
    requires Awaiting(c.phase) && Phased(c) && r.ReportError? && r.parentId == c.parentId
    ensures Script(c.sent + [r]) && Complete(c.sent + [r])
  {
    if c.phase == AwaitId {
      assert c.sent + [r] == [c.sent[0], r];
    } else {
      assert c.sent + [r] == [c.sent[0], c.sent[1], r];
    }
  }

  /** The report behind a read that failed asks nothing. */
  lemma FailPhased(c: Conn, message: Bytes)
    requires Phased(c) && Taken(c) && Enabled(c, ClientFails(message))
    ensures var d := Apply(c, ClientFails(message)); Phased(d) && Taken(d)
  {
    var r := ReportError(c.parentId, c.myId, message);
    ReportEndsScript(c, r);
    AnswersSnoc(c.id, c.sent, r);
    assert Answers(c.id, c.sent) + [] == Answers(c.id, c.sent);
  }

  lemma ClientFailsKeeps(c: Conn, message: Bytes)
    requires Inv(c) && Enabled(c, ClientFails(message))
    ensures Inv(Apply(c, ClientFails(message)))
  {
    FailPhased(c, message);
    SendAligns(c.sent, c.handled, c.partial, c.toServer, ReportError(c.parentId, c.myId, message));
  }

  /** What handling a request adds is its answer. */
  lemma HandleReplies(id: Int32, handled: seq<Request>, r: Request, received: seq<Reply>, reply: Bytes, toClient: Bytes)
    requires Replied(Answers(id, handled), received, reply, toClient)
    ensures Replied(Answers(id, handled + [r]), received, reply, toClient + EncodeReplies(Answer(id, r)))
  {
    var answers := Answers(id, handled);
    AnswersSnoc(id, handled, r);
    assert (answers + Answer(id, r))[|received|..] == answers[|received|..] + Answer(id, r);
    RepliesConcat(answers[|received|..], Answer(id, r));
    ConcatAssoc(reply, toClient, EncodeReplies(Answer(id, r)));
  }

  lemma HandledIsFilled(handled: seq<Request>, partial: Bytes)
    requires AllFilled(handled) && DecodeRequest(partial, true).Done? && DecodeRequest(partial, true).rest == []
    ensures AllFilled(handled + [DecodeRequest(partial, true).value])
  {
    RequestCanonical(partial, true);
    RequestBack(DecodeRequest(partial, true).value, [], true);
  }

  /** Only these fields tell where the proxy stands. */
  lemma SamePhase(c: Conn, d: Conn)
    requires Phased(c) && Taken(c)
    requires d.phase == c.phase && d.id == c.id && d.parentId == c.parentId && d.myId == c.myId
    requires d.sent == c.sent && d.received == c.received
    ensures Phased(d) && Taken(d)
  {
  }

  lemma ServerHandlesKeeps(c: Conn)
    requires Inv(c) && Enabled(c, ServerHandles)
    ensures Inv(Apply(c, ServerHandles))
  {
    var d, r := Apply(c, ServerHandles), ServerState(c).value;
    SamePhase(c, d);
    assert Aligned(d.sent, d.handled, d.partial, d.toServer) by {
      HandleAligns(c.sent, c.handled, c.partial, c.toServer);
    }
    assert AllFilled(d.handled) by {
      ServerStands(c.sent, c.handled, c.partial, c.toServer);
      HandledIsFilled(c.handled, c.partial);
    }
    assert Replied(Answers(d.id, d.handled), d.received, d.reply, d.toClient) by {
      HandleReplies(c.id, c.handled, r, c.received, c.reply, c.toClient);
    }
  }

  lemma AcceptPhased(c: Conn)
    requires Phased(c) && Taken(c) && Awaiting(c.phase)
    ensures var d := c.(phase := if c.phase == AwaitId then Ready else Acting, received := c.received + [Awaited(c)],
                        myId := if c.phase == AwaitId then c.id else c.myId, reply := []);
      Phased(d) && Taken(d) && d.received == Answers(c.id, c.sent)
  {
  }

  lemma ClientAcceptsKeeps(c: Conn)
    requires Inv(c) && Enabled(c, ClientAccepts)
    ensures Inv(Apply(c, ClientAccepts))
  {
    ClientStands(c);
    AcceptPhased(c);
    var d := Apply(c, ClientAccepts);
    assert c.handled == c.sent by {
      assert c.sent[..|c.sent|] == c.sent;
    }
    assert d.received == Answers(c.id, c.sent);
    assert d.received[|d.received|..] == [];
    assert Replied(Answers(d.id, d.handled), d.received, d.reply, d.toClient);
  }

  lemma ServerReadsKeeps(c: Conn, k: nat)
    requires Inv(c) && Enabled(c, ServerReads(k))
    ensures Inv(Apply(c, ServerReads(k)))
  {
    SamePhase(c, Apply(c, ServerReads(k)));
    ReadAligns(c.sent, c.handled, c.partial, c.toServer, k);
  }

  lemma BytesMove(answers: seq<Reply>, received: seq<Reply>, reply: Bytes, toClient: Bytes, k: nat)
    requires Replied(answers, received, reply, toClient) && k <= |toClient|
    ensures Replied(answers, received, reply + toClient[..k], toClient[k..])
  {
    assert reply + toClient[..k] + toClient[k..] == reply + toClient;
  }

  lemma ClientReadsKeeps(c: Conn, k: nat)
    requires Inv(c) && Enabled(c, ClientReads(k))
    ensures Inv(Apply(c, ClientReads(k)))
  {
    SamePhase(c, Apply(c, ClientReads(k)));
    BytesMove(Answers(c.id, c.handled), c.received, c.reply, c.toClient, k);
  }

  lemma ClosedPhase(c: Conn)
    requires Phased(c) && Taken(c)
    ensures Phased(c.(phase := Closed)) && Taken(c.(phase := Closed))
  {
  }

  lemma CloseKeeps(c: Conn)
    requires Inv(c)
    ensures Inv(c.(phase := Closed))
  {
    ClosedPhase(c);
  }

  lemma ServerFailsKeeps(c: Conn)
    requires Inv(c) && Enabled(c, ServerFails)
    ensures Inv(Apply(c, ServerFails))
  {
    SamePhase(c, Apply(c, ServerFails));
  }

  lemma StepKeeps(c: Conn, e: Event)
    requires Inv(c) && Enabled(c, e)
    ensures Inv(Apply(c, e))
  {
    match e
    case Send(r) => SendKeeps(c, r);
    case ServerReads(k) => ServerReadsKeeps(c, k);
    case ServerHandles => ServerHandlesKeeps(c);
    case ClientReads(k) => ClientReadsKeeps(c, k);
    case ClientAccepts => ClientAcceptsKeeps(c);
    case ServerFails => ServerFailsKeeps(c);
    case ClientFails(message) => ClientFailsKeeps(c, message);
    case ClientCloses => CloseKeeps(c);
  }

  // ------------------------------------------------------------ all connections

  /** `accepted` in the order in which the server took them. */
  datatype Server = Server(idGenerator: nat, accepted: seq<Conn>)

  datatype Step = Accepts | AcceptFails | On(i: nat, e: Event)

  const MAX_INT: nat := 0x7FFF_FFFF

  predicate Possible(s: Server, step: Step) {
    match step
    case On(i, e) => i < |s.accepted| && Enabled(s.accepted[i], e)
    case _ => s.idGenerator < MAX_INT
  }

  /** An id is taken for every attempt to accept. */
  function Do(s: Server, step: Step): Server
    requires Possible(s, step)
  {
    match step
    case Accepts => Server(s.idGenerator + 1, s.accepted + [NewConn(s.idGenerator + 1)])
    case AcceptFails => s.(idGenerator := s.idGenerator + 1)
    case On(i, e) => s.(accepted := s.accepted[i := Apply(s.accepted[i], e)])
  }

  predicate AllInv(conns: seq<Conn>) {
    forall i {:trigger Inv(conns[i])} :: 0 <= i < |conns| ==> Inv(conns[i])
  }

  /** Ids grow from one connection to the next. */
  predicate IdsGrow(conns: seq<Conn>, last: nat) {
    && (forall i :: 0 <= i < |conns| ==> 0 < conns[i].id <= last)
    && (forall i, j :: 0 <= i < j < |conns| ==> conns[i].id < conns[j].id)
  }

  predicate Good(s: Server) {
    s.idGenerator <= MAX_INT && AllInv(s.accepted) && IdsGrow(s.accepted, s.idGenerator)
  }

  lemma NewConnOk(id: Int32)
    ensures Inv(NewConn(id))
  {
  }

  lemma SameId(c: Conn, e: Event)
    requires Enabled(c, e)
    ensures Apply(c, e).id == c.id
  {
  }

  lemma InvUpdated(conns: seq<Conn>, i: nat, d: Conn)
    requires AllInv(conns) && i < |conns| && Inv(d)
    ensures AllInv(conns[i := d])
  {
    var updated := conns[i := d];
    forall j | 0 <= j < |conns| ensures Inv(updated[j]) {
      if j != i { assert Inv(conns[j]); }
    }
  }

  lemma InvAdded(conns: seq<Conn>, d: Conn)
    requires AllInv(conns) && Inv(d)
    ensures AllInv(conns + [d])
  {
    var added := conns + [d];
    forall j | 0 <= j < |conns| + 1 ensures Inv(added[j]) {
      if j < |conns| { assert Inv(conns[j]); }
    }
  }

  lemma OneStepKeeps(s: Server, i: nat, e: Event)
    requires Good(s) && Possible(s, On(i, e))
    ensures Good(Do(s, On(i, e)))
  {
    var c := s.accepted[i];
    assert Inv(c);
    StepKeeps(c, e);
    SameId(c, e);
    InvUpdated(s.accepted, i, Apply(c, e));
  }

  lemma DoKeeps(s: Server, step: Step)
    requires Good(s) && Possible(s, step)
    ensures Good(Do(s, step))
  {
    match step
    case Accepts =>
      NewConnOk(s.idGenerator + 1);
      InvAdded(s.accepted, NewConn(s.idGenerator + 1));
    case AcceptFails =>
    case On(i, e) => OneStepKeeps(s, i, e);
  }

  /** The server after these steps from its start, if each of them was possible in its turn. */
  function After(steps: seq<Step>): Option<Server>
    decreases |steps|
  {
    if steps == [] then Some(Server(0, []))
    else
      var last := steps[|steps| - 1];
      match After(steps[..|steps| - 1])
      case None => None
      case Some(s) => if Possible(s, last) then Some(Do(s, last)) else None
  }

  lemma {:induction false} EveryRunIsGood(steps: seq<Step>)
    requires After(steps).Some?
    ensures Good(After(steps).value)
    decreases |steps|
  {
    if steps != [] {
      EveryRunIsGood(steps[..|steps| - 1]);
      DoKeeps(After(steps[..|steps| - 1]).value, steps[|steps| - 1]);
    }
  }

  lemma {:induction false} AllConcat(a: seq<Request>, b: seq<Request>)
    ensures EncodeAll(a + b) == EncodeAll(a) + EncodeAll(b)
  {
    if a == [] {
      assert a + b == b;
    } else {
      assert (a + b)[1..] == a[1..] + b;
      AllConcat(a[1..], b);
      ConcatAssoc(EncodeRequest(a[0]), EncodeAll(a[1..]), EncodeAll(b));
    }
  }

  lemma SentBytes(sent: seq<Request>, h: nat)
    requires h <= |sent|
    ensures EncodeAll(sent) == EncodeAll(sent[..h]) + EncodeAll(sent[h..])
    ensures h < |sent| ==> EncodeAll(sent[h..]) == EncodeRequest(sent[h]) + EncodeAll(sent[h + 1..])
  {
    assert sent == sent[..h] + sent[h..];
    AllConcat(sent[..h], sent[h..]);
    if h < |sent| {
      assert sent[h..][1..] == sent[h + 1..];
    }
  }

  lemma CutBytes(before: Bytes, message: Bytes, later: Bytes, partial: Bytes, toServer: Bytes)
    requires Cut(message, later, partial, toServer)
    ensures before + (message + later) == before + partial + toServer
  {
    ConcatAssoc(partial, message[|partial|..], later);
    ConcatAssoc(before, partial, toServer);
  }

  lemma AllBytes(sent: seq<Request>, handled: seq<Request>, partial: Bytes, toServer: Bytes)
    requires Aligned(sent, handled, partial, toServer)
    ensures EncodeAll(sent) == EncodeAll(handled) + partial + toServer
  {
    var h := |handled|;
    SentBytes(sent, h);
    if h < |sent| {
      CutBytes(EncodeAll(handled), EncodeRequest(sent[h]), EncodeAll(sent[h + 1..]), partial, toServer);
    } else {
      assert sent[h..] == [];
      assert EncodeAll(handled) + [] + [] == EncodeAll(handled) + [];
    }
  }

  /** What a connection's two ends have made of each other's bytes. */
  predicate Faithful(c: Conn) {
    && Script(c.sent)
    && c.handled <= c.sent
    && AllFilled(c.handled)
    && EncodeAll(c.sent) == EncodeAll(c.handled) + c.partial + c.toServer
    && EncodeReplies(Answers(c.id, c.handled)) == EncodeReplies(c.received) + c.reply + c.toClient
    && c.received <= Answers(c.id, c.sent)
    && (c.phase == Ready || c.phase == Acting || c.phase == Over ==> c.received == Answers(c.id, c.sent))
  }

  lemma ReplyBytes(answers: seq<Reply>, received: seq<Reply>, reply: Bytes, toClient: Bytes)
    requires Replied(answers, received, reply, toClient)
    ensures EncodeReplies(answers) == EncodeReplies(received) + reply + toClient
  {
    assert answers == received + answers[|received|..];
    RepliesConcat(received, answers[|received|..]);
    ConcatAssoc(EncodeReplies(received), reply, toClient);
  }

  lemma PhasedScript(c: Conn)
    requires Phased(c)
    ensures Script(c.sent)
  {
  }

  lemma InvIsFaithful(c: Conn)
    requires Inv(c)
    ensures Faithful(c)
  {
    PhasedScript(c);
    AllBytes(c.sent, c.handled, c.partial, c.toServer);
    ReplyBytes(Answers(c.id, c.handled), c.received, c.reply, c.toClient);
  }

  /** Main result on the protocol. After every run, for every connection: the server has handled, in order,
      exactly the requests its proxy wrote first, and has written one answer for each CREATE and MAKE_DECISION
      of these and nothing else; the proxy has decoded exactly what was written for it; and no other connection
      has its id. */
  lemma SessionSafety(steps: seq<Step>, i: nat)
    requires After(steps).Some? && i < |After(steps).value.accepted|
    ensures Faithful(After(steps).value.accepted[i])
    ensures forall j :: 0 <= j < |After(steps).value.accepted| && j != i ==>
      After(steps).value.accepted[j].id != After(steps).value.accepted[i].id
  {
    EveryRunIsGood(steps);
    assert Inv(After(steps).value.accepted[i]);
    InvIsFaithful(After(steps).value.accepted[i]);
  }
}
