/** The two ends of one connection: the server's request loop (src/catter/main.cc), the client's calls
    (src/catter-proxy/rpc_handler.h) and the order in which a proxy makes them (src/catter-proxy/main.cc). */
module Rpc {
  import opened Util
  import opened Serde
  import opened SerdeStream
  import opened UvRead

  // ------------------------------------------------------------ replies

  datatype Reply = IdReply(id: Int32) | ActionReply(action: Action)

  function EncodeReply(r: Reply): Bytes {
    match r
    case IdReply(id) => EncodeInt(id)
    case ActionReply(action) => EncodeAction(action)
  }

  /** What a request asks back: a CREATE the connection's id, a MAKE_DECISION its own command to be injected,
      the others nothing. */
  function Answer(id: Int32, r: Request): seq<Reply> {
    match r
    case Create(_) => [IdReply(id)]
    case MakeDecision(cmd) => [ActionReply(Action(INJECT, cmd))]
    case _ => []
  }

  function Answers(id: Int32, rs: seq<Request>): seq<Reply> {
    if rs == [] then [] else Answer(id, rs[0]) + Answers(id, rs[1..])
  }

  function EncodeReplies(rs: seq<Reply>): Bytes {
    if rs == [] then [] else EncodeReply(rs[0]) + EncodeReplies(rs[1..])
  }

  lemma {:induction false} AnswersSnoc(id: Int32, rs: seq<Request>, r: Request)
    ensures Answers(id, rs + [r]) == Answers(id, rs) + Answer(id, r)
  {
    if rs == [] {
      assert rs + [r] == [r] && [r][1..] == [];
    } else {
      assert (rs + [r])[1..] == rs[1..] + [r];
      AnswersSnoc(id, rs[1..], r);
      ConcatAssoc(Answer(id, rs[0]), Answers(id, rs[1..]), Answer(id, r));
    }
  }

  lemma {:induction false} RepliesConcat(a: seq<Reply>, b: seq<Reply>)
    ensures EncodeReplies(a + b) == EncodeReplies(a) + EncodeReplies(b)
  {
    if a == [] {
      assert a + b == b;
    } else {
      assert (a + b)[1..] == a[1..] + b;
      RepliesConcat(a[1..], b);
      ConcatAssoc(EncodeReply(a[0]), EncodeReplies(a[1..]), EncodeReplies(b));
    }
  }

  lemma OneReply(r: Reply)
    ensures EncodeReplies([r]) == EncodeReply(r)
  {
    assert [r][1..] == [];
    assert EncodeReply(r) + [] == EncodeReply(r);
  }

  lemma AnswerWritten(id: Int32, handled: seq<Request>, r: Request)
    ensures EncodeReplies(Answers(id, handled + [r]))
         == EncodeReplies(Answers(id, handled)) + EncodeReplies(Answer(id, r))
  {
    AnswersSnoc(id, handled, r);
    RepliesConcat(Answers(id, handled), Answer(id, r));
  }

  // ------------------------------------------------------------ the server's loop

  /** One connection's coroutine, up to the failing read that ends it or the one it is suspended in. It handles
      the requests that the whole of the client's bytes hold, in order, and writes their answers and no more. */
  method Accept(pipe: Pipe, id: Int32) returns (handled: seq<Request>, written: Bytes, ended: Outcome<Request>)
    modifies pipe`chunks
    ensures Filled(old(pipe.chunks)) ==> handled == Requests(old(Flat(pipe.chunks)), true)
    ensures written == EncodeReplies(Answers(id, handled))
    ensures !ended.Value?
  {
    handled, written := [], [];
    ghost var all := Requests(Flat(pipe.chunks), true);
    assert [] + all == all;
    while true
      invariant Filled(old(pipe.chunks)) ==>
        Filled(pipe.chunks) && all == handled + Requests(Flat(pipe.chunks), true)
      invariant written == EncodeReplies(Answers(id, handled))
      decreases Weight(pipe.chunks)
    {
      ghost var bytes := Flat(pipe.chunks);
      ended := DeserializeRequest(pipe);
      if !ended.Value? {
        assert Filled(old(pipe.chunks)) ==> Requests(bytes, true) == [] && handled + [] == handled;
        return;
      }
      var r := ended.value;
      AnswerWritten(id, handled, r);
      match r {
        case Create(_) =>
          OneReply(IdReply(id));
          written := written + EncodeInt(id);
        case MakeDecision(cmd) =>
          OneReply(ActionReply(Action(INJECT, cmd)));
          written := written + EncodeAction(Action(INJECT, cmd));
        case _ =>
          assert written + [] == written;
      }
      ConcatAssoc(handled, [r], Requests(Flat(pipe.chunks), true));
      handled := handled + [r];
    }
  }

  /** What a client that wrote these requests, filled ones, gets for them, however its bytes are cut up. */
  lemma ServedInFull(chunks: seq<Bytes>, id: Int32, rs: seq<Request>)
    requires AllFit(rs) && AllFilled(rs) && Flat(chunks) == EncodeAll(rs)
    ensures Requests(Flat(chunks), true) == rs
    ensures EncodeReplies(Answers(id, Requests(Flat(chunks), true))) == EncodeReplies(Answers(id, rs))
  {
    StreamRecovered(rs, [], true);
    assert EncodeAll(rs) + [] == EncodeAll(rs);
    assert rs + Requests([], true) == rs;
  }

  // ------------------------------------------------------------ the client's calls

  class RpcHandler {
    var parentId: Int32
    var id: Int32
    var sent: Bytes
    const pipe: Pipe

    constructor (pipe: Pipe)
      ensures parentId == -1 && id == -1 && sent == [] && this.pipe == pipe
    {
      parentId, id, sent := -1, -1, [];
      this.pipe := pipe;
    }

    method Create(parentId: Int32) returns (o: Outcome<Int32>)
      modifies this, pipe`chunks
      ensures sent == old(sent) + EncodeRequest(Request.Create(parentId)) && this.parentId == parentId
      ensures Follows(old(pipe.chunks), o, DecodeInt(old(Flat(pipe.chunks)), true), pipe.chunks, pipe.end)
      ensures id == if o.Value? then o.value else old(id)
    {
      this.parentId := parentId;
      sent := sent + EncodeRequest(Request.Create(parentId));
      var next :- DeserializeInt(pipe);
      id := next;
      o := Value(next);
    }

    method MakeDecision(cmd: Command) returns (o: Outcome<Action>)
      modifies this`sent, pipe`chunks
      ensures sent == old(sent) + EncodeRequest(Request.MakeDecision(cmd))
      ensures Follows(old(pipe.chunks), o, DecodeAction(old(Flat(pipe.chunks)), true), pipe.chunks, pipe.end)
    {
      sent := sent + EncodeRequest(Request.MakeDecision(cmd));
      o := DeserializeAction(pipe);
    }

    method Finish(code: Int32)
      modifies this`sent
      ensures sent == old(sent) + EncodeRequest(Request.Finish(code))
    {
      sent := sent + EncodeRequest(Request.Finish(code));
    }

    method ReportError(message: Bytes)
      modifies this`sent
      ensures sent == old(sent) + EncodeRequest(Request.ReportError(parentId, id, message))
    {
      sent := sent + EncodeRequest(Request.ReportError(parentId, id, message));
    }
  }

  // ------------------------------------------------------------ the proxy

  /** The requests a proxy may have made so far. */
  predicate Script(rs: seq<Request>) {
    match |rs|
    case 0 => true
    case 1 => rs[0].Create? || (rs[0].ReportError? && rs[0].parentId == -1 && rs[0].id == -1)
    case 2 => rs[0].Create? && (rs[1].MakeDecision? || Blames(rs[1], rs[0]))
    case 3 => rs[0].Create? && rs[1].MakeDecision? && (rs[2].Finish? || Blames(rs[2], rs[0]))
    case _ => false
  }

  predicate Blames(report: Request, create: Request) {
    report.ReportError? && create.Create? && report.parentId == create.parentId
  }

  /** It has finished or given up: it makes no request after this. */
  predicate Complete(rs: seq<Request>) {
    rs != [] && (rs[|rs| - 1].Finish? || rs[|rs| - 1].ReportError?)
  }

  /** Something done outside the protocol, which may throw. */
  datatype Attempt<+T> = Fine(value: T) | Throws(message: Bytes)

  function Text(s: string): Bytes {
    seq(|s|, i requires 0 <= i < |s| => s[i] as int % 256)
  }

  method Report(rpc: RpcHandler, ghost requests: seq<Request>, message: Bytes) returns (ghost reported: seq<Request>)
    requires rpc.sent == EncodeAll(requests) && Script(requests) && !Complete(requests)
    requires |requests| > 0 ==> requests[0].Create? && requests[0].parentId == rpc.parentId
    requires requests == [] ==> rpc.parentId == -1 && rpc.id == -1
    modifies rpc`sent
    ensures rpc.sent == EncodeAll(reported) && Script(reported)
    ensures reported == requests + [Request.ReportError(rpc.parentId, rpc.id, message)]
  {
    rpc.ReportError(message);
    ghost var r := Request.ReportError(rpc.parentId, rpc.id, message);
    EncodeAllSnoc(requests, r);
    reported := requests + [r];
  }

  /** The first two words after the program's name are there and read as the parent's id. */
  predicate Called(argv: seq<Bytes>, parent: Attempt<Int32>) {
    |argv| >= 4 && argv[1] == Text("-p") && parent.Fine?
  }

  /** What is reported when they are not. */
  function Complaint(argv: seq<Bytes>, parent: Attempt<Int32>): Bytes
    requires !Called(argv, parent)
  {
    if |argv| < 4 then Text("Insufficient arguments in catter-proxy")
    else if argv[1] != Text("-p") then Text("Invalid arguments in catter-proxy")
    else parent.message
  }

  /** What is reported when a read fails. */
  function ReadFailure(strerror: ErrorCode -> Bytes, code: ErrorCode): Bytes {
    Text("rpc_handler read failed: ") + strerror(code)
  }

  /** Everything goes well: every request is the one it should be, about the whole command, and what is run is what
      was decided, under the id that was given. */
  predicate Served(parent: Int32, cmd: Command, ran: (Action, Int32) -> Attempt<Int32>,
                   id: Int32, action: Action, code: Option<Int32>, requests: seq<Request>)
  {
    match ran(action, id)
    case Fine(c) => code == Some(c) && requests == [Create(parent), MakeDecision(cmd), Finish(c)]
    case Throws(m) => code == Some(-1) && requests == [Create(parent), MakeDecision(cmd), ReportError(parent, id, m)]
  }

  /** What the connection's bytes hold for a proxy: an id and an action. */
  predicate Holds(bytes: Bytes, id: Int32, action: Action) {
    var d := DecodeInt(bytes, true);
    d.Done? && d.value == id && var e := DecodeAction(d.rest, true); e.Done? && e.value == action
  }

  /** The proxy's main program. Its exit code, or none while it waits for a reply; and what it has asked: always
      a prefix of the one order the protocol knows, ended by a report when anything goes wrong. */
  method Proxy(rpc: RpcHandler, argv: seq<Bytes>, parent: Attempt<Int32>, command: Attempt<Command>,
               ran: (Action, Int32) -> Attempt<Int32>, strerror: ErrorCode -> Bytes)
    returns (code: Option<Int32>, ghost requests: seq<Request>)
    requires rpc.parentId == -1 && rpc.id == -1 && rpc.sent == []
    modifies rpc, rpc.pipe`chunks
    ensures rpc.sent == EncodeAll(requests) && Script(requests)
    ensures code.Some? <==> Complete(requests)
    ensures Called(argv, parent) <==> requests != [] && requests[0].Create?
    ensures Called(argv, parent) ==> requests[0] == Create(parent.value)
    ensures !Called(argv, parent) ==> requests == [ReportError(-1, -1, Complaint(argv, parent))]
    ensures |requests| >= 2 && requests[1].MakeDecision? ==>
      command == Fine(requests[1].cmd) && argv[3] == Text("--")
    ensures code.Some? ==>
      var last := requests[|requests| - 1];
      code == Some(if last.Finish? then last.code else -1)
    ensures Called(argv, parent) && Filled(old(rpc.pipe.chunks)) && argv[3] != Text("--") ==>
      var d := DecodeInt(old(Flat(rpc.pipe.chunks)), true);
      d.Done? ==> requests == [Create(parent.value), ReportError(parent.value, d.value, argv[3])]
    ensures Called(argv, parent) && Filled(old(rpc.pipe.chunks)) && argv[3] == Text("--") && command.Fine? ==>
      forall id, action :: Holds(old(Flat(rpc.pipe.chunks)), id, action) ==>
        Served(parent.value, command.value, ran, id, action, code, requests)
  {
    requests := [];
    if |argv| < 4 {
      requests := Report(rpc, requests, Text("Insufficient arguments in catter-proxy"));
      return Some(-1), requests;
    }
    if argv[1] != Text("-p") {
      requests := Report(rpc, requests, Text("Invalid arguments in catter-proxy"));
      return Some(-1), requests;
    }
    if parent.Throws? {
      requests := Report(rpc, requests, parent.message);
      return Some(-1), requests;
    }
    code, requests := Converse(rpc, parent.value, argv[3], command, ran, strerror);
  }

  /** From the first request on. */
  method Converse(rpc: RpcHandler, parent: Int32, word: Bytes, command: Attempt<Command>,
                  ran: (Action, Int32) -> Attempt<Int32>, strerror: ErrorCode -> Bytes)
    returns (code: Option<Int32>, ghost requests: seq<Request>)
    requires rpc.parentId == -1 && rpc.id == -1 && rpc.sent == []
    modifies rpc, rpc.pipe`chunks
    ensures rpc.sent == EncodeAll(requests) && Script(requests)
    ensures code.Some? <==> Complete(requests)
    ensures requests != [] && requests[0] == Create(parent)
    ensures |requests| >= 2 && requests[1].MakeDecision? ==> command == Fine(requests[1].cmd) && word == Text("--")
    ensures code.Some? ==>
      var last := requests[|requests| - 1];
      code == Some(if last.Finish? then last.code else -1)
    ensures Filled(old(rpc.pipe.chunks)) && word != Text("--") ==>
      var d := DecodeInt(old(Flat(rpc.pipe.chunks)), true);
      d.Done? ==> requests == [Create(parent), ReportError(parent, d.value, word)]
    ensures Filled(old(rpc.pipe.chunks)) && word == Text("--") && command.Throws? ==>
      var d := DecodeInt(old(Flat(rpc.pipe.chunks)), true);
      d.Done? ==> requests == [Create(parent), ReportError(parent, d.value, command.message)]
    ensures Filled(old(rpc.pipe.chunks)) && rpc.pipe.end.Some? ==>
      DecodeInt(old(Flat(rpc.pipe.chunks)), true).More? ==>
        requests == [Create(parent), ReportError(parent, -1, ReadFailure(strerror, rpc.pipe.end.value))]
    ensures Filled(old(rpc.pipe.chunks)) && word == Text("--") && command.Fine? ==>
      forall id, action :: Holds(old(Flat(rpc.pipe.chunks)), id, action) ==>
        Served(parent, command.value, ran, id, action, code, requests)
  {
    var created := rpc.Create(parent);
    requests := [];
    EncodeAllSnoc(requests, Create(parent));
    requests := [Create(parent)];
    if created.Suspended? {
      return None, requests;
    }
    if created.Thrown? {
      requests := Report(rpc, requests, ReadFailure(strerror, created.code));
      return Some(-1), requests;
    }
    if word != Text("--") {
      requests := Report(rpc, requests, word);
      return Some(-1), requests;
    }
    if command.Throws? {
      requests := Report(rpc, requests, command.message);
      return Some(-1), requests;
    }
    code, requests := Decide(rpc, requests, command.value, ran, strerror);
  }

  /** From the decision to the end. */
  method Decide(rpc: RpcHandler, ghost asked: seq<Request>, cmd: Command, ran: (Action, Int32) -> Attempt<Int32>,
                strerror: ErrorCode -> Bytes)
    returns (code: Option<Int32>, ghost requests: seq<Request>)
    requires |asked| == 1 && asked[0] == Create(rpc.parentId) && rpc.sent == EncodeAll(asked)
    modifies rpc`sent, rpc.pipe`chunks
    ensures rpc.sent == EncodeAll(requests) && Script(requests)
    ensures code.Some? <==> Complete(requests)
    ensures |requests| >= 2 && requests[0] == asked[0] && requests[1] == MakeDecision(cmd)
    ensures code.Some? ==>
      var last := requests[|requests| - 1];
      code == Some(if last.Finish? then last.code else -1)
    ensures Filled(old(rpc.pipe.chunks)) ==>
      var d := DecodeAction(old(Flat(rpc.pipe.chunks)), true);
      d.Done? ==> Served(rpc.parentId, cmd, ran, rpc.id, d.value, code, requests)
  {
    var decided := rpc.MakeDecision(cmd);
    EncodeAllSnoc(asked, MakeDecision(cmd));
    requests := asked + [MakeDecision(cmd)];
    if decided.Suspended? {
      return None, requests;
    }
    if decided.Thrown? {
      requests := Report(rpc, requests, ReadFailure(strerror, decided.code));
      return Some(-1), requests;
    }
    var ended := ran(decided.value, rpc.id);
    if ended.Throws? {
      requests := Report(rpc, requests, ended.message);
      return Some(-1), requests;
    }
    rpc.Finish(ended.value);
    EncodeAllSnoc(requests, Finish(ended.value));
    requests := requests + [Finish(ended.value)];
    code := Some(ended.value);
  }
}
