/** A whole conversation between one proxy and the server, from its connection to the last request handled
    (src/catter-proxy/main.cc, src/catter/main.cc). */
module RpcConversation {
  import opened Util
  import opened Serde
  import opened SerdeStream
  import opened Rpc
  import opened RpcSession
  import opened RpcProgress

  // ------------------------------------------------------------ playing events one after another

  /** The connection after these events, if each was possible in its turn. */
  function Play(c: Conn, es: seq<Event>): Option<Conn>
    decreases |es|
  {
    if es == [] then Some(c)
    else if Enabled(c, es[0]) then Play(Apply(c, es[0]), es[1..])
    else None
  }

  lemma {:induction false} PlayConcat(c: Conn, a: seq<Event>, b: seq<Event>)
    requires Play(c, a).Some?
    ensures Play(c, a + b) == Play(Play(c, a).value, b)
    decreases |a|
  {
    if a == [] {
      assert a + b == b;
    } else {
      assert (a + b)[1..] == a[1..] + b;
      PlayConcat(Apply(c, a[0]), a[1..], b);
    }
  }

  predicate Leads(c: Conn, es: seq<Event>, d: Conn) { Play(c, es) == Some(d) }

  lemma LeadsOn(c: Conn, a: seq<Event>, d: Conn, b: seq<Event>, e: Conn)
    requires Leads(c, a, d) && Leads(d, b, e)
    ensures Leads(c, a + b, e)
  {
    PlayConcat(c, a, b);
  }

  lemma LeadsFirst(c: Conn, e: Event, es: seq<Event>, d: Conn)
    requires Enabled(c, e) && Leads(Apply(c, e), es, d)
    ensures Leads(c, [e] + es, d)
  {
    assert ([e] + es)[1..] == es;
  }

  lemma {:induction false} RunPlays(c: Conn, es: seq<Event>)
    requires Run(c, es).Some?
    ensures Play(c, es) == Run(c, es)
    decreases |es|
  {
    if es != [] { RunPlays(Apply(c, es[0]), es[1..]); }
  }

  /** Nothing is asked while the proxy waits, but for a report behind a failed read. */
  lemma {:induction false} SentStays(c: Conn, es: seq<Event>)
    requires Run(c, es).Some? && Run(c, es).value.phase != Failed
    ensures Run(c, es).value.sent == c.sent && Run(c, es).value.id == c.id
    decreases |es|
  {
    if es != [] {
      if es[0].ClientFails? {
        OthersStay(Apply(c, es[0]), es[1..]);
      } else {
        SentStays(Apply(c, es[0]), es[1..]);
      }
    }
  }

  /** When nothing more happens by itself, the server has handled every filled request. */
  lemma HandledInTheEnd(c: Conn)
    requires Inv(c) && AllFilled(c.sent) && c.serving && !CanGoOn(c)
    ensures c.handled == c.sent
  {
    ServerStands(c.sent, c.handled, c.partial, c.toServer);
    if |c.handled| < |c.sent| {
      assert FilledRequest(c.sent[|c.handled|]);
      match ServerState(c)
      case Done(_, _) => GoesOn(c, ServerHandles);
      case More(_) => GoesOn(c, ServerReads(1));
      case Stuck =>
    } else {
      assert c.sent[..|c.sent|] == c.sent;
    }
  }

  // ------------------------------------------------------------ the conversation

  /** The proxy asks and has its reply. */
  lemma AsksAndHas(c: Conn, r: Request) returns (es: seq<Event>, d: Conn)
    requires Inv(c) && MaySend(c, r) && FilledRequest(r) && (r.Create? || r.MakeDecision?)
    ensures Leads(c, es, d) && Inv(d)
    ensures d.id == c.id && d.sent == c.sent + [r] && d.phase == (if r.Create? then Ready else Acting)
    ensures d.received == c.received + [if r.Create? then IdReply(c.id) else ActionReply(Action(INJECT, r.cmd))]
  {
    var asked := Apply(c, Send(r));
    StepKeeps(c, Send(r));
    var run := RunsFinish(asked);
    AsksLast(c, r);
    ReplyExactly(asked, run);
    RunsAreShort(asked, run);
    SentStays(asked, run);
    RunPlays(asked, run);
    d := Run(asked, run).value;
    es := [Send(r)] + run;
    LeadsFirst(c, Send(r), run, d);
  }

  lemma AsksLast(c: Conn, r: Request)
    requires Inv(c) && MaySend(c, r) && (r.Create? || r.MakeDecision?)
    ensures var d := Apply(c, Send(r));
      && Awaiting(d.phase) && (d.phase == AwaitId <==> r.Create?)
      && d.sent == c.sent + [r] && d.sent[|d.sent| - 1] == r && (r.MakeDecision? ==> |d.sent| == 2)
  {
  }

  /** The proxy's last request. */
  predicate Ends(r: Request) { r.Finish? || r.ReportError? }

  lemma EndsLast(c: Conn, r: Request)
    requires MaySend(c, r) && Ends(r) && FilledRequest(r) && AllFilled(c.sent)
    ensures var d := Apply(c, Send(r));
      d.phase == Over && d.id == c.id && d.received == c.received && d.sent == c.sent + [r] && AllFilled(d.sent)
  {
    var sent := c.sent + [r];
    forall k | 0 <= k < |sent| ensures FilledRequest(sent[k]) {
      if k < |c.sent| { assert sent[k] == c.sent[k]; }
    }
  }

  /** What is left when the proxy has made its last request. */
  lemma HeardOut(c: Conn) returns (es: seq<Event>, d: Conn)
    requires Inv(c) && c.phase == Over && AllFilled(c.sent)
    ensures Leads(c, es, d)
    ensures d.id == c.id && d.phase == Over && d.received == c.received && d.sent == c.sent && d.handled == d.sent
  {
    es := RunsFinish(c);
    RunsAreShort(c, es);
    OthersStay(c, es);
    SentStays(c, es);
    RunPlays(c, es);
    d := Run(c, es).value;
    FilledIsServed(d);
    HandledInTheEnd(d);
  }

  /** The proxy says that it has finished, or what went wrong, and the server takes note. */
  lemma EndsAndIsHeard(c: Conn, r: Request) returns (es: seq<Event>, d: Conn)
    requires Inv(c) && MaySend(c, r) && Ends(r) && FilledRequest(r) && AllFilled(c.sent)
    ensures Leads(c, es, d)
    ensures d.id == c.id && d.phase == Over && d.received == c.received && d.sent == c.sent + [r] && d.handled == d.sent
  {
    EndsLast(c, r);
    StepKeeps(c, Send(r));
    es, d := HeardOut(Apply(c, Send(r)));
    LeadsFirst(c, Send(r), es, d);
    es := [Send(r)] + es;
  }

  /** Where a proxy that has its id stands, and one that has its decision. */
  predicate HasId(c: Conn, id: Int32, parentId: Int32) {
    && Inv(c) && c.id == id && c.phase == Ready && c.parentId == parentId && c.myId == id
    && c.sent == [Create(parentId)] && c.received == [IdReply(id)]
  }

  predicate HasDecision(c: Conn, id: Int32, parentId: Int32, cmd: Command) {
    && Inv(c) && c.id == id && c.phase == Acting && c.parentId == parentId && c.myId == id
    && c.sent == [Create(parentId)] + [MakeDecision(cmd)]
    && c.received == [IdReply(id)] + [ActionReply(Action(INJECT, cmd))]
  }

  lemma IdGiven(id: Int32, parentId: Int32) returns (es: seq<Event>, d: Conn)
    ensures Leads(NewConn(id), es, d) && HasId(d, id, parentId)
  {
    NewConnOk(id);
    es, d := AsksAndHas(NewConn(id), Create(parentId));
    assert Started(d) && d.sent[0] == Create(parentId);
  }

  lemma Decided(id: Int32, parentId: Int32, cmd: Command) returns (es: seq<Event>, d: Conn)
    requires FitsCommand(cmd) && FilledCommand(cmd)
    ensures Leads(NewConn(id), es, d) && HasDecision(d, id, parentId, cmd)
  {
    var asked, ready := IdGiven(id, parentId);
    var more;
    more, d := AsksAndHas(ready, MakeDecision(cmd));
    assert Asked(d) && d.sent[0] == Create(parentId);
    LeadsOn(NewConn(id), asked, ready, more, d);
    es := asked + more;
  }

  lemma BothFilled(parentId: Int32, cmd: Command)
    requires FilledCommand(cmd)
    ensures AllFilled([Create(parentId)] + [MakeDecision(cmd)])
  {
  }

  /** What a proxy can say from its start to its end, as connection `id`: a report, an id asked for and a report, or a
      decision asked for too and a report or an exit code. */
  predicate Sayable(rs: seq<Request>, id: Int32) {
    match |rs|
    case 1 => rs[0].ReportError? && rs[0].parentId == -1 && rs[0].id == -1
    case 2 => rs[0].Create? && rs[1].ReportError? && rs[1].parentId == rs[0].parentId && rs[1].id == id
    case 3 =>
      && rs[0].Create? && rs[1].MakeDecision?
      && (rs[2].Finish? || (rs[2].ReportError? && rs[2].parentId == rs[0].parentId && rs[2].id == id))
    case _ => false
  }

  lemma SaysOne(id: Int32, r: Request) returns (es: seq<Event>, d: Conn)
    requires Sayable([r], id) && FitsRequest(r) && FilledRequest(r)
    ensures Leads(NewConn(id), es, d) && d.id == id && d.phase == Over
    ensures d.sent == [r] && d.handled == [r] && d.received == []
  {
    NewConnOk(id);
    es, d := EndsAndIsHeard(NewConn(id), r);
  }

  lemma SaysTwo(id: Int32, parentId: Int32, r: Request) returns (es: seq<Event>, d: Conn)
    requires r.ReportError? && r.parentId == parentId && r.id == id && FitsRequest(r) && FilledRequest(r)
    ensures Leads(NewConn(id), es, d) && d.id == id && d.phase == Over
    ensures d.sent == [Create(parentId)] + [r] && d.handled == d.sent && d.received == [IdReply(id)]
  {
    var asked, ready := IdGiven(id, parentId);
    var more;
    more, d := EndsAndIsHeard(ready, r);
    LeadsOn(NewConn(id), asked, ready, more, d);
    es := asked + more;
  }

  lemma SaysThree(id: Int32, parentId: Int32, cmd: Command, r: Request) returns (es: seq<Event>, d: Conn)
    requires FitsCommand(cmd) && FilledCommand(cmd) && FitsRequest(r) && FilledRequest(r)
    requires r.Finish? || (r.ReportError? && r.parentId == parentId && r.id == id)
    ensures Leads(NewConn(id), es, d) && d.id == id && d.phase == Over
    ensures d.sent == [Create(parentId)] + [MakeDecision(cmd)] + [r] && d.handled == d.sent
    ensures d.received == [IdReply(id)] + [ActionReply(Action(INJECT, cmd))]
  {
    var asked, acting := Decided(id, parentId, cmd);
    BothFilled(parentId, cmd);
    var more;
    more, d := EndsAndIsHeard(acting, r);
    LeadsOn(NewConn(id), asked, acting, more, d);
    es := asked + more;
  }

  /** What is sent back for it. */
  function Heard(rs: seq<Request>, id: Int32): seq<Reply>
    requires Sayable(rs, id)
  {
    match |rs|
    case 1 => []
    case 2 => [IdReply(id)]
    case _ => [IdReply(id), ActionReply(Action(INJECT, rs[1].cmd))]
  }

  /** A new connection can be talked over to the end in each of these ways: every request is handled, and everything
      that was asked for is sent back. */
  lemma Conversation(id: Int32, rs: seq<Request>) returns (es: seq<Event>, d: Conn)
    requires Sayable(rs, id) && AllFit(rs) && AllFilled(rs)
    ensures Leads(NewConn(id), es, d) && d.id == id && d.phase == Over
    ensures d.sent == rs && d.handled == rs && d.received == Heard(rs, id)
  {
    assert FitsRequest(rs[|rs| - 1]) && FilledRequest(rs[|rs| - 1]);
    match |rs|
    case 1 =>
      assert rs == [rs[0]];
      es, d := SaysOne(id, rs[0]);
    case 2 =>
      assert rs == [rs[0]] + [rs[1]];
      es, d := SaysTwo(id, rs[0].parentId, rs[1]);
    case 3 =>
      assert FitsRequest(rs[1]) && FilledRequest(rs[1]);
      assert rs == [rs[0]] + [rs[1]] + [rs[2]];
      es, d := SaysThree(id, rs[0].parentId, rs[1].cmd, rs[2]);
  }

  /** A proxy whose read fails reports it under its parent's id, and its own if it has one. */
  lemma FailureIsReported(c: Conn, message: Bytes)
    requires Inv(c) && Enabled(c, ClientFails(message))
    ensures c.sent != [] && c.sent[0].Create?
    ensures Apply(c, ClientFails(message)).sent
         == c.sent + [ReportError(c.sent[0].parentId, if c.phase == AwaitId then -1 else c.id, message)]
  {
  }

  // ------------------------------------------------------------ leaving

  /** The server stops serving a proxy that has gone. */
  lemma LeftInTheEnd(c: Conn)
    requires Inv(c) && c.phase == Closed && !CanGoOn(c)
    ensures !c.serving
  {
    ServerStands(c.sent, c.handled, c.partial, c.toServer);
    if c.serving {
      match ServerState(c)
      case Done(_, _) => GoesOn(c, ServerHandles);
      case Stuck => GoesOn(c, ServerFails);
      case More(_) => if c.toServer != [] { GoesOn(c, ServerReads(1)); } else { GoesOn(c, ServerFails); }
    }
  }

  /** A proxy can go at any time, and then the server comes to the end of serving it. */
  lemma Leaves(c: Conn) returns (es: seq<Event>, d: Conn)
    requires Inv(c) && c.phase != Closed
    ensures Leads(c, es, d) && d.phase == Closed && d.received == c.received && !d.serving
  {
    var gone := Apply(c, ClientCloses);
    StepKeeps(c, ClientCloses);
    es := RunsFinish(gone);
    RunsAreShort(gone, es);
    OthersStay(gone, es);
    RunPlays(gone, es);
    d := Run(gone, es).value;
    LeftInTheEnd(d);
    LeadsFirst(c, ClientCloses, es, d);
    es := [ClientCloses] + es;
  }

  // ------------------------------------------------------------ with the server

  function OnFirst(es: seq<Event>): (steps: seq<Step>)
    ensures |steps| == |es| && forall k :: 0 <= k < |es| ==> steps[k] == On(0, es[k])
  {
    seq(|es|, k requires 0 <= k < |es| => On(0, es[k]))
  }

  lemma {:induction false} PlayPrefix(c: Conn, es: seq<Event>, n: nat)
    requires Play(c, es).Some? && n < |es|
    ensures Play(c, es[..n]).Some? && Enabled(Play(c, es[..n]).value, es[n])
    ensures Play(c, es[..n + 1]) == Some(Apply(Play(c, es[..n]).value, es[n]))
    decreases n
  {
    if n == 0 {
      assert es[..1][1..] == [] && es[..1][0] == es[0];
    } else {
      PlayPrefix(Apply(c, es[0]), es[1..], n - 1);
      assert es[..n][1..] == es[1..][..n - 1] && es[..n + 1][1..] == es[1..][..n];
    }
  }

  lemma AfterSnoc(steps: seq<Step>, step: Step)
    requires After(steps).Some? && Possible(After(steps).value, step)
    ensures After(steps + [step]) == Some(Do(After(steps).value, step))
  {
    assert (steps + [step])[..|steps|] == steps;
  }

  /** After these steps the server has the one connection. */
  predicate Stands(steps: seq<Step>, c: Conn) { After(steps) == Some(Server(1, [c])) }

  lemma StandsOn(steps: seq<Step>, c: Conn, e: Event)
    requires Stands(steps, c) && Enabled(c, e)
    ensures Stands(steps + [On(0, e)], Apply(c, e))
  {
    assert [c][0 := Apply(c, e)] == [Apply(c, e)];
    AfterSnoc(steps, On(0, e));
  }

  lemma {:induction false} PlayedBySteps(es: seq<Event>, n: nat)
    requires Play(NewConn(1), es).Some? && n <= |es|
    ensures Play(NewConn(1), es[..n]).Some?
    ensures Stands([Accepts] + OnFirst(es[..n]), Play(NewConn(1), es[..n]).value)
    decreases n
  {
    if n == 0 {
      FirstAccepted();
      assert [Accepts] + OnFirst(es[..0]) == [Accepts];
    } else {
      PlayedBySteps(es, n - 1);
      PlayPrefix(NewConn(1), es, n - 1);
      StandsOn([Accepts] + OnFirst(es[..n - 1]), Play(NewConn(1), es[..n - 1]).value, es[n - 1]);
      OnFirstSnoc(es, n);
    }
  }

  lemma OnFirstSnoc(es: seq<Event>, n: nat)
    requires 0 < n <= |es|
    ensures [Accepts] + OnFirst(es[..n]) == [Accepts] + OnFirst(es[..n - 1]) + [On(0, es[n - 1])]
  {
  }

  lemma FirstAccepted()
    ensures Stands([Accepts], NewConn(1))
  {
    assert [Accepts][..0] == [];
    assert After([]) == Some(Server(0, []));
    assert [] + [NewConn(1)] == [NewConn(1)];
  }

  /** Main result: for everything a proxy can say as the first connection, in requests that fit and have no empty
      string, there is a run of the server in which it says that, is given the first id and its own command to be
      injected where it asked, and has every request handled. */
  lemma WholeConversation(rs: seq<Request>) returns (steps: seq<Step>)
    requires Sayable(rs, 1) && AllFit(rs) && AllFilled(rs)
    ensures After(steps).Some? && |After(steps).value.accepted| == 1
    ensures var c := After(steps).value.accepted[0];
      c.id == 1 && c.phase == Over && c.sent == rs && c.handled == rs && c.received == Heard(rs, 1)
  {
    var es, _ := Conversation(1, rs);
    PlayedBySteps(es, |es|);
    assert es[..|es|] == es;
    steps := [Accepts] + OnFirst(es);
  }

  // ------------------------------------------------------------ ids

  /** How many connections were accepted or failed to be. */
  function Attempts(steps: seq<Step>): nat {
    if steps == [] then 0 else
      Attempts(steps[..|steps| - 1]) + if steps[|steps| - 1].On? then 0 else 1
  }

  /** The numbers of the attempts that were accepted. */
  function Accepted(steps: seq<Step>): seq<nat> {
    if steps == [] then [] else
      Accepted(steps[..|steps| - 1]) + if steps[|steps| - 1].Accepts? then [Attempts(steps)] else []
  }

  /** Main result on ids: a connection's id is the number of the attempt to accept it, failed ones counted in. */
  lemma {:induction false} IdIsAttempt(steps: seq<Step>)
    requires After(steps).Some?
    ensures var s := After(steps).value;
      && s.idGenerator == Attempts(steps) && |s.accepted| == |Accepted(steps)|
      && forall i :: 0 <= i < |s.accepted| ==> s.accepted[i].id == Accepted(steps)[i]
    decreases |steps|
  {
    if steps != [] {
      var n := |steps| - 1;
      IdIsAttempt(steps[..n]);
      if steps[n].On? {
        SameId(After(steps[..n]).value.accepted[steps[n].i], steps[n].e);
      }
    }
  }

  function Tries(accepts: seq<bool>): (steps: seq<Step>)
    ensures |steps| == |accepts|
  {
    seq(|accepts|, k requires 0 <= k < |accepts| => if accepts[k] then Accepts else AcceptFails)
  }

  /** Connections come and fail in any order, up to the counter's bound. */
  lemma {:induction false} AnyTries(accepts: seq<bool>)
    requires |accepts| <= 0x7FFF_FFFF
    ensures After(Tries(accepts)).Some? && After(Tries(accepts)).value.idGenerator == |accepts|
  {
    if accepts != [] {
      var n := |accepts| - 1;
      AnyTries(accepts[..n]);
      AfterSnoc(Tries(accepts[..n]), if accepts[n] then Accepts else AcceptFails);
      assert Tries(accepts) == Tries(accepts[..n]) + [if accepts[n] then Accepts else AcceptFails];
    }
  }
}
