/** The byte format of the messages between proxy and server (src/common/util/serde.h,
    src/common/uv/rpc_data.h). */
module Serde {
  import opened Util

  const SIZE_WIDTH: nat := 8
  const INT_WIDTH: nat := 4

  /** How many values `k` bytes hold. */
  function Values(k: nat): (r: nat)
    ensures r > 0
  {
    if k == 0 then 1 else 256 * Values(k - 1)
  }

  // ------------------------------------------------------------ integers, as they lie in memory

  function LittleEndian(n: nat, k: nat): (r: Bytes)
    ensures |r| == k
  {
    if k == 0 then [] else [n % 256] + LittleEndian(n / 256, k - 1)
  }

  function FromLittleEndian(b: Bytes): nat {
    if b == [] then 0 else b[0] + 256 * FromLittleEndian(b[1..])
  }

  lemma {:induction false} LittleEndianRoundTrip(n: nat, k: nat)
    requires n < Values(k)
    ensures FromLittleEndian(LittleEndian(n, k)) == n
  {
    if k > 0 {
      LittleEndianRoundTrip(n / 256, k - 1);
    }
  }

  lemma {:induction false} LittleEndianOnto(b: Bytes)
    ensures FromLittleEndian(b) < Values(|b|)
    ensures LittleEndian(FromLittleEndian(b), |b|) == b
  {
    if b != [] {
      LittleEndianOnto(b[1..]);
      assert b == [b[0]] + b[1..];
    }
  }

  type Int32 = x: int | -0x8000_0000 <= x < 0x8000_0000

  /** Two's complement. */
  function Unsigned(i: Int32): nat { if i < 0 then i + 0x1_0000_0000 else i }

  function Signed(n: nat): Int32
    requires n < 0x1_0000_0000
  {
    if n < 0x8000_0000 then n else n - 0x1_0000_0000
  }

  lemma WidthOfInt()
    ensures Values(4) == 0x1_0000_0000
  {
    assert Values(1) == 256 * Values(0) && Values(2) == 256 * Values(1);
    assert Values(3) == 256 * Values(2) && Values(4) == 256 * Values(3);
  }

  // ------------------------------------------------------------ values

  datatype Command = Command(workingDir: Bytes, executable: Bytes, args: seq<Bytes>, env: seq<Bytes>)

  /** The kind of every action the server sends. */
  const INJECT: byte := 1

  datatype Action = Action(kind: byte, cmd: Command)

  /** A request with what follows it; any other request byte stands alone. */
  datatype Request =
    | Create(parentId: Int32)
    | MakeDecision(cmd: Command)
    | ReportError(parentId: Int32, id: Int32, message: Bytes)
    | Finish(code: Int32)
    | Unknown(tag: byte)

  // ------------------------------------------------------------ writing

  function EncodeSize(n: nat): Bytes { LittleEndian(n, SIZE_WIDTH) }

  function EncodeInt(i: Int32): Bytes { LittleEndian(Unsigned(i), INT_WIDTH) }

  function EncodeString(s: Bytes): Bytes { EncodeSize(|s|) + s }

  function EncodeItems(v: seq<Bytes>): Bytes {
    if v == [] then [] else EncodeString(v[0]) + EncodeItems(v[1..])
  }

  function EncodeStrings(v: seq<Bytes>): Bytes { EncodeSize(|v|) + EncodeItems(v) }

  function EncodeCommand(c: Command): Bytes {
    EncodeString(c.workingDir) + (EncodeString(c.executable) + (EncodeStrings(c.args) + EncodeStrings(c.env)))
  }

  function EncodeAction(a: Action): Bytes { [a.kind] + EncodeCommand(a.cmd) }

  function EncodeRequest(r: Request): Bytes {
    match r
    case Create(p) => [0] + EncodeInt(p)
    case MakeDecision(c) => [1] + EncodeCommand(c)
    case ReportError(p, i, m) => [2] + (EncodeInt(p) + (EncodeInt(i) + EncodeString(m)))
    case Finish(code) => [3] + EncodeInt(code)
    case Unknown(tag) => [tag]
  }

  lemma {:induction false} NoBytes(k: nat)
    ensures LittleEndian(0, k) == seq(k, _ => 0)
  {
    if k > 0 { NoBytes(k - 1); }
  }

  lemma OneByteSize(n: nat)
    requires n < 256
    ensures EncodeSize(n) == [n, 0, 0, 0, 0, 0, 0, 0]
  {
    NoBytes(7);
  }

  lemma OneByteInt(i: Int32)
    requires 0 <= i < 256
    ensures EncodeInt(i) == [i, 0, 0, 0]
  {
    NoBytes(3);
  }

  lemma MinusOne()
    ensures EncodeInt(-1) == [255, 255, 255, 255]
  {
    assert LittleEndian(0xFFFF_FFFF, 4) == [255] + LittleEndian(0xFF_FFFF, 3);
    assert LittleEndian(0xFF_FFFF, 3) == [255] + LittleEndian(0xFFFF, 2);
    assert LittleEndian(0xFFFF, 2) == [255] + LittleEndian(0xFF, 1);
  }

  /** What lies on the wire for one request of each kind, and for an action. */
  lemma OnTheWire()
    ensures EncodeRequest(Create(-1)) == [0, 255, 255, 255, 255]
    ensures EncodeRequest(MakeDecision(Command([7], [8, 9], [[5]], []))) ==
      [1] + ([1, 0, 0, 0, 0, 0, 0, 0, 7] + ([2, 0, 0, 0, 0, 0, 0, 0, 8, 9]
      + ([1, 0, 0, 0, 0, 0, 0, 0, 1, 0, 0, 0, 0, 0, 0, 0, 5] + [0, 0, 0, 0, 0, 0, 0, 0])))
    ensures EncodeRequest(ReportError(3, 4, [6])) == [2] + ([3, 0, 0, 0] + ([4, 0, 0, 0] + [1, 0, 0, 0, 0, 0, 0, 0, 6]))
    ensures EncodeRequest(Finish(258)) == [3, 2, 1, 0, 0]
  {
    MinusOne();
    TwoBytes();
    OneByteInt(3);
    OneByteInt(4);
    StringOnTheWire(6);
    CommandOnTheWire();
  }

  lemma ActionOnTheWire(cmd: Command)
    ensures EncodeAction(Action(INJECT, cmd)) == [1] + EncodeCommand(cmd)
  {
  }

  lemma TwoBytes()
    ensures EncodeInt(258) == [2, 1, 0, 0]
  {
    assert LittleEndian(258, 4) == [2] + LittleEndian(1, 3);
    assert LittleEndian(1, 3) == [1] + LittleEndian(0, 2);
    NoBytes(2);
  }

  lemma StringOnTheWire(b: byte)
    ensures EncodeString([b]) == [1, 0, 0, 0, 0, 0, 0, 0, b]
  {
    OneByteSize(1);
  }

  lemma CommandOnTheWire()
    ensures EncodeCommand(Command([7], [8, 9], [[5]], [])) ==
      [1, 0, 0, 0, 0, 0, 0, 0, 7] + ([2, 0, 0, 0, 0, 0, 0, 0, 8, 9]
      + ([1, 0, 0, 0, 0, 0, 0, 0, 1, 0, 0, 0, 0, 0, 0, 0, 5] + [0, 0, 0, 0, 0, 0, 0, 0]))
  {
    StringOnTheWire(7);
    StringOnTheWire(5);
    OneByteSize(2);
    ListOnTheWire();
    OneByteSize(0);
    assert EncodeStrings([]) == EncodeSize(0) + [];
    assert EncodeString([8, 9]) == [2, 0, 0, 0, 0, 0, 0, 0, 8, 9];
  }

  lemma ListOnTheWire()
    ensures EncodeStrings([[5]]) == [1, 0, 0, 0, 0, 0, 0, 0, 1, 0, 0, 0, 0, 0, 0, 0, 5]
  {
    OneByteSize(1);
    StringOnTheWire(5);
    assert EncodeItems([[5]]) == EncodeString([5]) + EncodeItems([]);
    assert EncodeItems([[5]]) == EncodeString([5]);
  }

  /** Lengths fit in `size_t`. */
  predicate FitsString(s: Bytes) { |s| < Values(SIZE_WIDTH) }

  predicate FitsStrings(v: seq<Bytes>) {
    |v| < Values(SIZE_WIDTH) && forall k :: 0 <= k < |v| ==> FitsString(v[k])
  }

  predicate FitsCommand(c: Command) {
    FitsString(c.workingDir) && FitsString(c.executable) && FitsStrings(c.args) && FitsStrings(c.env)
  }

  predicate FitsRequest(r: Request) {
    match r
    case MakeDecision(c) => FitsCommand(c)
    case ReportError(_, _, m) => FitsString(m)
    case Unknown(tag) => tag > 3
    case _ => true
  }

  // ------------------------------------------------------------ reading

  /** What a reader makes of the bytes at hand: a value and the bytes left; or its current read still wants
      `n` bytes; or it asks for a read of no bytes, which a libuv stream never completes (`uv` below). */
  datatype Decoded<+T> = Done(value: T, rest: Bytes) | More(n: nat) | Stuck
  {
    predicate IsFailure() { !Done? }

    function PropagateFailure<U>(): Decoded<U>
      requires IsFailure()
    {
      match this
      case More(n) => More(n)
      case Stuck => Stuck
    }

    function Extract(): (T, Bytes)
      requires !IsFailure()
    {
      (value, rest)
    }
  }

  /** One read of `len` bytes. */
  function Read(s: Bytes, len: nat, uv: bool): Decoded<Bytes> {
    if len == 0 && uv then Stuck
    else if |s| < len then More(len - |s|)
    else Done(s[..len], s[len..])
  }

  function DecodeSize(s: Bytes, uv: bool): Decoded<nat> {
    var (b, s1) :- Read(s, SIZE_WIDTH, uv);
    Done(FromLittleEndian(b), s1)
  }

  function DecodeInt(s: Bytes, uv: bool): Decoded<Int32> {
    var (b, s1) :- Read(s, INT_WIDTH, uv);
    LittleEndianOnto(b);
    WidthOfInt();
    Done(Signed(FromLittleEndian(b)), s1)
  }

  function DecodeString(s: Bytes, uv: bool): Decoded<Bytes> {
    var (len, s1) :- DecodeSize(s, uv);
    Read(s1, len, uv)
  }

  function DecodeItems(s: Bytes, count: nat, uv: bool): Decoded<seq<Bytes>> {
    if count == 0 then Done([], s)
    else
      var (first, s1) :- DecodeString(s, uv);
      var (others, s2) :- DecodeItems(s1, count - 1, uv);
      Done([first] + others, s2)
  }

  function DecodeStrings(s: Bytes, uv: bool): Decoded<seq<Bytes>> {
    var (len, s1) :- DecodeSize(s, uv);
    DecodeItems(s1, len, uv)
  }

  function DecodeLists(s: Bytes, uv: bool): Decoded<(seq<Bytes>, seq<Bytes>)> {
    var (args, s1) :- DecodeStrings(s, uv);
    var (env, s2) :- DecodeStrings(s1, uv);
    Done((args, env), s2)
  }

  function DecodeCommand(s: Bytes, uv: bool): Decoded<Command> {
    var (workingDir, s1) :- DecodeString(s, uv);
    var (executable, s2) :- DecodeString(s1, uv);
    var (lists, s3) :- DecodeLists(s2, uv);
    Done(Command(workingDir, executable, lists.0, lists.1), s3)
  }

  function DecodeAction(s: Bytes, uv: bool): Decoded<Action> {
    var (tag, s1) :- Read(s, 1, uv);
    var (cmd, s2) :- DecodeCommand(s1, uv);
    Done(Action(tag[0], cmd), s2)
  }

  function DecodeReport(s: Bytes, uv: bool): Decoded<Request> {
    var (parentId, s1) :- DecodeInt(s, uv);
    var (id, s2) :- DecodeInt(s1, uv);
    var (message, s3) :- DecodeString(s2, uv);
    Done(ReportError(parentId, id, message), s3)
  }

  function DecodeBody(tag: byte, s: Bytes, uv: bool): Decoded<Request> {
    if tag == 0 then
      var (parentId, s1) :- DecodeInt(s, uv);
      Done(Create(parentId), s1)
    else if tag == 1 then
      var (cmd, s1) :- DecodeCommand(s, uv);
      Done(MakeDecision(cmd), s1)
    else if tag == 2 then DecodeReport(s, uv)
    else if tag == 3 then
      var (code, s1) :- DecodeInt(s, uv);
      Done(Finish(code), s1)
    else Done(Unknown(tag), s)
  }

  function DecodeRequest(s: Bytes, uv: bool): Decoded<Request> {
    var (tag, s1) :- Read(s, 1, uv);
    DecodeBody(tag[0], s1, uv)
  }

  // ------------------------------------------------------------ reading undoes writing

  /** No read of no bytes lies ahead. */
  predicate Filled(v: seq<Bytes>) { forall k :: 0 <= k < |v| ==> v[k] != [] }

  predicate FilledCommand(c: Command) {
    c.workingDir != [] && c.executable != [] && Filled(c.args) && Filled(c.env)
  }

  predicate FilledRequest(r: Request) {
    match r
    case MakeDecision(c) => FilledCommand(c)
    case ReportError(_, _, m) => m != []
    case _ => true
  }

  lemma ReadBack(b: Bytes, rest: Bytes, uv: bool)
    ensures Read(b + rest, |b|, uv) == if b == [] && uv then Stuck else Done(b, rest)
  {
    assert (b + rest)[..|b|] == b && (b + rest)[|b|..] == rest;
  }

  lemma SizeBack(n: nat, rest: Bytes, uv: bool)
    requires n < Values(SIZE_WIDTH)
    ensures DecodeSize(EncodeSize(n) + rest, uv) == Done(n, rest)
  {
    ReadBack(EncodeSize(n), rest, uv);
    LittleEndianRoundTrip(n, SIZE_WIDTH);
  }

  lemma IntBack(i: Int32, rest: Bytes, uv: bool)
    ensures DecodeInt(EncodeInt(i) + rest, uv) == Done(i, rest)
  {
    WidthOfInt();
    ReadBack(EncodeInt(i), rest, uv);
    LittleEndianRoundTrip(Unsigned(i), INT_WIDTH);
  }

  lemma StringBack(s: Bytes, rest: Bytes, uv: bool)
    requires FitsString(s)
    ensures DecodeString(EncodeString(s) + rest, uv) == if s == [] && uv then Stuck else Done(s, rest)
  {
    assert EncodeString(s) + rest == EncodeSize(|s|) + (s + rest);
    SizeBack(|s|, s + rest, uv);
    ReadBack(s, rest, uv);
  }

  lemma {:induction false} ItemsBack(v: seq<Bytes>, rest: Bytes, uv: bool)
    requires forall k :: 0 <= k < |v| ==> FitsString(v[k])
    ensures DecodeItems(EncodeItems(v) + rest, |v|, uv) == if uv && !Filled(v) then Stuck else Done(v, rest)
    decreases |v|
  {
    if v == [] {
      assert EncodeItems(v) + rest == rest;
    } else {
      assert EncodeItems(v) + rest == EncodeString(v[0]) + (EncodeItems(v[1..]) + rest);
      StringBack(v[0], EncodeItems(v[1..]) + rest, uv);
      ItemsBack(v[1..], rest, uv);
      assert v == [v[0]] + v[1..];
      FilledStep(v);
    }
  }

  lemma FilledStep(v: seq<Bytes>)
    requires v != []
    ensures Filled(v) <==> v[0] != [] && Filled(v[1..])
  {
    if v[0] != [] && Filled(v[1..]) {
      forall k | 0 <= k < |v| ensures v[k] != [] {
        if k > 0 { assert v[k] == v[1..][k - 1]; }
      }
    }
    if Filled(v) {
      forall k | 0 <= k < |v| - 1 ensures v[1..][k] != [] { assert v[1..][k] == v[k + 1]; }
    }
  }

  lemma StringsBack(v: seq<Bytes>, rest: Bytes, uv: bool)
    requires FitsStrings(v)
    ensures DecodeStrings(EncodeStrings(v) + rest, uv) == if uv && !Filled(v) then Stuck else Done(v, rest)
  {
    assert EncodeStrings(v) + rest == EncodeSize(|v|) + (EncodeItems(v) + rest);
    SizeBack(|v|, EncodeItems(v) + rest, uv);
    ItemsBack(v, rest, uv);
  }

  lemma ListsBack(args: seq<Bytes>, env: seq<Bytes>, rest: Bytes, uv: bool)
    requires FitsStrings(args) && FitsStrings(env)
    ensures DecodeLists(EncodeStrings(args) + (EncodeStrings(env) + rest), uv)
         == if uv && !(Filled(args) && Filled(env)) then Stuck else Done((args, env), rest)
  {
    StringsBack(args, EncodeStrings(env) + rest, uv);
    StringsBack(env, rest, uv);
  }

  lemma CommandBack(c: Command, rest: Bytes, uv: bool)
    requires FitsCommand(c)
    ensures DecodeCommand(EncodeCommand(c) + rest, uv) == if uv && !FilledCommand(c) then Stuck else Done(c, rest)
  {
    var e3 := EncodeStrings(c.env) + rest;
    var e2 := EncodeStrings(c.args) + e3;
    var e1 := EncodeString(c.executable) + e2;
    assert EncodeCommand(c) + rest == EncodeString(c.workingDir) + e1;
    StringBack(c.workingDir, e1, uv);
    StringBack(c.executable, e2, uv);
    ListsBack(c.args, c.env, rest, uv);
  }

  lemma ActionBack(a: Action, rest: Bytes, uv: bool)
    requires FitsCommand(a.cmd)
    ensures DecodeAction(EncodeAction(a) + rest, uv) == if uv && !FilledCommand(a.cmd) then Stuck else Done(a, rest)
  {
    assert EncodeAction(a) + rest == [a.kind] + (EncodeCommand(a.cmd) + rest);
    ReadBack([a.kind], EncodeCommand(a.cmd) + rest, uv);
    CommandBack(a.cmd, rest, uv);
  }

  lemma ReportBack(parentId: Int32, id: Int32, message: Bytes, rest: Bytes, uv: bool)
    requires FitsString(message)
    ensures DecodeReport(EncodeInt(parentId) + (EncodeInt(id) + EncodeString(message)) + rest, uv)
         == if uv && message == [] then Stuck else Done(ReportError(parentId, id, message), rest)
  {
    var e2 := EncodeString(message) + rest;
    var e1 := EncodeInt(id) + e2;
    assert EncodeInt(parentId) + (EncodeInt(id) + EncodeString(message)) + rest == EncodeInt(parentId) + e1;
    IntBack(parentId, e1, uv);
    IntBack(id, e2, uv);
    StringBack(message, rest, uv);
  }

  lemma TagRead(tag: byte, body: Bytes, rest: Bytes, uv: bool)
    ensures DecodeRequest([tag] + body + rest, uv) == DecodeBody(tag, body + rest, uv)
  {
    assert [tag] + body + rest == [tag] + (body + rest);
    ReadBack([tag], body + rest, uv);
  }

  /** Main result on the codec: whatever bytes follow, a request is read back whole and those bytes are
      left; over a libuv stream exactly when it holds no empty string. */
  lemma RequestBack(r: Request, rest: Bytes, uv: bool)
    requires FitsRequest(r)
    ensures DecodeRequest(EncodeRequest(r) + rest, uv) == if uv && !FilledRequest(r) then Stuck else Done(r, rest)
  {
    match r
    case Create(p) =>
      TagRead(0, EncodeInt(p), rest, uv);
      IntBack(p, rest, uv);
    case MakeDecision(c) =>
      TagRead(1, EncodeCommand(c), rest, uv);
      CommandBack(c, rest, uv);
    case ReportError(p, i, m) =>
      TagRead(2, EncodeInt(p) + (EncodeInt(i) + EncodeString(m)), rest, uv);
      ReportBack(p, i, m, rest, uv);
    case Finish(code) =>
      TagRead(3, EncodeInt(code), rest, uv);
      IntBack(code, rest, uv);
    case Unknown(tag) =>
      TagRead(tag, [], rest, uv);
      assert [tag] + [] == [tag];
      assert [] + rest == rest;
  }

  // ------------------------------------------------------------ the writing loop

  lemma {:induction false} ItemsSnoc(v: seq<Bytes>, s: Bytes)
    ensures EncodeItems(v + [s]) == EncodeItems(v) + EncodeString(s)
  {
    if v == [] {
      assert v + [s] == [s] && [s][1..] == [];
      assert EncodeString(s) + [] == EncodeString(s);
    } else {
      assert (v + [s])[1..] == v[1..] + [s];
      ItemsSnoc(v[1..], s);
      assert EncodeString(v[0]) + (EncodeItems(v[1..]) + EncodeString(s))
          == EncodeString(v[0]) + EncodeItems(v[1..]) + EncodeString(s);
    }
  }

  /** `Serde<std::vector<std::string>>::serialize`. */
  method SerializeStrings(vec: seq<Bytes>) returns (buffer: Bytes)
    ensures buffer == EncodeStrings(vec)
  {
    buffer := [];
    buffer := buffer + EncodeSize(|vec|);
    assert EncodeItems(vec[..0]) == [];
    for i := 0 to |vec|
      invariant buffer == EncodeSize(|vec|) + EncodeItems(vec[..i])
    {
      ItemsSnoc(vec[..i], vec[i]);
      assert vec[..i + 1] == vec[..i] + [vec[i]];
      buffer := buffer + EncodeString(vec[i]);
    }
    assert vec[..|vec|] == vec;
  }
}
