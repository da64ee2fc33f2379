/** A coroutine's read of a stream, driven by libuv's two callbacks (src/common/uv/uv.h), and the
    deserializers that are built on it (src/common/util/serde.h, src/common/uv/rpc_data.h). */
module UvRead {
  import opened Util
  import opened Serde

  type ErrorCode = c: int | c < 0 witness -1

  /** What libuv reports for a callback that was offered no room. */
  const UV_ENOBUFS: ErrorCode := -105

  // ------------------------------------------------------------ what a read comes to

  /** The awaiting coroutine is resumed with `nread`, or waits on; `filled` is what lies in its buffer. */
  datatype Awaited = Resumed(nread: int, filled: Bytes, chunks: seq<Bytes>) | Waiting(filled: Bytes)

  /** The stream holds `chunks`, then its end. An empty chunk is a callback that brings nothing. */
  function Awaits(chunks: seq<Bytes>, end: Option<ErrorCode>, len: nat, got: Bytes): Awaited
    decreases |chunks|
  {
    if chunks == [] && end.None? then Waiting(got)
    else if len == 0 then Resumed(UV_ENOBUFS, got, chunks)
    else if chunks == [] then Resumed(end.value, got, [])
    else if chunks[0] == [] then Resumed(0, got, chunks[1..])
    else if |chunks[0]| < len then Awaits(chunks[1..], end, len - |chunks[0]|, got + chunks[0])
    else if |chunks[0]| == len then Resumed(|got| + len, got + chunks[0], chunks[1..])
    else Resumed(|got| + len, got + chunks[0][..len], [chunks[0][len..]] + chunks[1..])
  }

  function Flat(chunks: seq<Bytes>): Bytes {
    if chunks == [] then [] else chunks[0] + Flat(chunks[1..])
  }

  /** Main result on reads: however the bytes are cut into chunks, a read of some bytes takes exactly the
      next ones, or meets the end with fewer, which is an error; it never succeeds short. */
  lemma {:induction false} ReadIsExact(chunks: seq<Bytes>, end: Option<ErrorCode>, len: nat, got: Bytes)
    requires Filled(chunks) && len > 0
    ensures var a := Awaits(chunks, end, len, got);
      if |Flat(chunks)| >= len then
        a.Resumed? && a.nread == |got| + len && a.filled == got + Flat(chunks)[..len]
        && Flat(a.chunks) == Flat(chunks)[len..] && Filled(a.chunks)
      else match end
        case None => a == Waiting(got + Flat(chunks))
        case Some(code) => a == Resumed(code, got + Flat(chunks), [])
    decreases |chunks|
  {
    if chunks == [] {
      assert got + [] == got;
    } else {
      var c, others := chunks[0], chunks[1..];
      assert Filled(others);
      if |c| < len {
        ReadIsExact(others, end, len - |c|, got + c);
        ConcatAssoc(got, c, Flat(others));
        if |Flat(chunks)| >= len {
          assert Flat(chunks)[..len] == c + Flat(others)[..len - |c|];
          ConcatAssoc(got, c, Flat(others)[..len - |c|]);
        }
      } else if |c| == len {
        assert Flat(chunks)[..len] == c;
        assert Flat(chunks)[len..] == Flat(others);
      } else {
        assert Flat(chunks)[..len] == c[..len];
        var left := [c[len..]] + others;
        assert left[1..] == others;
        assert Flat(chunks)[len..] == c[len..] + Flat(others);
      }
    }
  }

  /** The bytes before the first callback that brings nothing. */
  function UntilEmpty(chunks: seq<Bytes>): Bytes {
    if chunks == [] || chunks[0] == [] then [] else chunks[0] + UntilEmpty(chunks[1..])
  }

  /** When a read reports success with too few bytes: exactly when a callback that brings nothing comes
      before the bytes do, and then the count it reports is 0. */
  lemma {:induction false} ShortSuccess(chunks: seq<Bytes>, end: Option<ErrorCode>, len: nat, got: Bytes)
    requires len > 0
    ensures var a := Awaits(chunks, end, len, got);
      (a.Resumed? && 0 <= a.nread < |got| + len <==> !Filled(chunks) && |UntilEmpty(chunks)| < len)
      && (a.Resumed? && 0 <= a.nread < |got| + len ==> a.nread == 0)
    decreases |chunks|
  {
    if chunks != [] {
      FilledStep(chunks);
      if 0 < |chunks[0]| < len {
        ShortSuccess(chunks[1..], end, len - |chunks[0]|, got + chunks[0]);
      }
    }
  }

  function Weight(chunks: seq<Bytes>): nat { |Flat(chunks)| + |chunks| }

  /** Every read that succeeds uses something up. */
  lemma {:induction false} AwaitsUsesUp(chunks: seq<Bytes>, end: Option<ErrorCode>, len: nat, got: Bytes)
    ensures var a := Awaits(chunks, end, len, got);
      a.Resumed? ==> Weight(a.chunks) <= Weight(chunks) && (a.nread >= 0 ==> Weight(a.chunks) < Weight(chunks))
    decreases |chunks|
  {
    if chunks != [] && 0 < len {
      if 0 < |chunks[0]| < len {
        AwaitsUsesUp(chunks[1..], end, len - |chunks[0]|, got + chunks[0]);
      } else if |chunks[0]| > len {
        assert ([chunks[0][len..]] + chunks[1..])[1..] == chunks[1..];
      }
    }
  }

  // ------------------------------------------------------------ the callbacks

  /** The receiving end of a pipe: chunks that have arrived, then possibly its end or an error. */
  class Pipe {
    var chunks: seq<Bytes>
    var end: Option<ErrorCode>

    constructor (chunks: seq<Bytes>, end: Option<ErrorCode>)
      ensures this.chunks == chunks && this.end == end
    {
      this.chunks, this.end := chunks, end;
    }

    predicate Readable()
      reads this
    {
      chunks != [] || end.Some?
    }

    /** libuv's part: brings what it has into the offered room. */
    method Deliver(base: array<byte>, offset: nat, len: nat) returns (nread: int)
      requires Readable() && offset + len <= base.Length
      modifies this`chunks, base
      ensures nread <= len
      ensures len == 0 ==> nread == UV_ENOBUFS && chunks == old(chunks)
      ensures len > 0 && old(chunks) == [] ==> nread == end.value && chunks == []
      ensures len > 0 && old(chunks) != [] && |old(chunks)[0]| <= len ==>
        nread == |old(chunks)[0]| && chunks == old(chunks)[1..]
      ensures len > 0 && old(chunks) != [] && |old(chunks)[0]| > len ==>
        nread == len && chunks == [old(chunks)[0][len..]] + old(chunks)[1..]
      ensures base[..offset] == old(base[..offset])
      ensures nread > 0 ==> base[offset..offset + nread] == old(chunks)[0][..nread]
    {
      if len == 0 {
        nread := UV_ENOBUFS;
      } else if chunks == [] {
        nread := end.value;
      } else {
        var c := chunks[0];
        var n := if |c| < len then |c| else len;
        forall k | 0 <= k < n {
          base[offset + k] := c[k];
        }
        chunks := if |c| <= len then chunks[1..] else [c[len..]] + chunks[1..];
        nread := n;
      }
    }
  }

  /** The awaiter of one read. */
  class Read {
    const buffer: array<byte>
    var dst: nat
    var remaining: nat
    var result: int
    var resumed: bool

    ghost predicate Valid()
      reads this
    {
      dst + remaining == buffer.Length && (!resumed ==> result == dst)
    }

    constructor (buffer: array<byte>)
      ensures Valid() && this.buffer == buffer && dst == 0 && !resumed
    {
      this.buffer, dst, remaining, result, resumed := buffer, 0, buffer.Length, 0, false;
    }

    method AllocCb() returns (offset: nat, len: nat)
      requires Valid()
      ensures offset == dst && len == remaining
    {
      offset, len := dst, remaining;
    }

    method ReadCb(nread: int)
      requires Valid() && !resumed && nread <= remaining
      modifies this
      ensures Valid()
      ensures nread > 0 ==> dst == old(dst) + nread && result == dst && resumed == (remaining == 0)
      ensures nread <= 0 ==> dst == old(dst) && result == nread && resumed
    {
      if nread > 0 {
        dst := dst + nread;
        remaining := remaining - nread;
        result := result + nread;
        if remaining == 0 {
          resumed := true;
        }
      } else {
        result := nread;
        resumed := true;
      }
    }

    /** What this read will come to on what the pipe has to say. */
    ghost function Outlook(pipe: Pipe): Awaited
      requires Valid()
      reads this, pipe, buffer
    {
      Awaits(pipe.chunks, pipe.end, remaining, buffer[..dst])
    }

    /** One turn of the event loop for a pipe that has something to say: the two callbacks in order. */
    method Turn(pipe: Pipe)
      requires Valid() && !resumed && pipe.Readable()
      modifies this, pipe`chunks, buffer
      ensures Valid()
      ensures resumed ==> old(Outlook(pipe)) == Resumed(result, buffer[..dst], pipe.chunks)
      ensures !resumed ==> old(Outlook(pipe)) == Outlook(pipe) && |pipe.chunks| < |old(pipe.chunks)|
    {
      var offset, len := AllocCb();
      var nread := pipe.Deliver(buffer, offset, len);
      assert nread > 0 ==> buffer[..dst + nread] == old(buffer[..dst]) + old(pipe.chunks)[0][..nread] by {
        if nread > 0 {
          assert buffer[..dst + nread] == buffer[..dst] + buffer[dst..dst + nread];
        }
      }
      ReadCb(nread);
      assert old(pipe.chunks) != [] && nread == |old(pipe.chunks)[0]| ==>
        old(pipe.chunks)[0][..nread] == old(pipe.chunks)[0];
    }

    /** `co_await` on the read, for as long as the pipe has something to say. */
    method Await(pipe: Pipe)
      requires Valid() && !resumed
      modifies this, pipe`chunks, buffer
      ensures Valid()
      ensures resumed ==> old(Outlook(pipe)) == Resumed(result, buffer[..dst], pipe.chunks)
      ensures !resumed ==> old(Outlook(pipe)) == Waiting(buffer[..dst]) && !pipe.Readable()
    {
      while !resumed && pipe.Readable()
        invariant Valid()
        invariant resumed ==> old(Outlook(pipe)) == Resumed(result, buffer[..dst], pipe.chunks)
        invariant !resumed ==> old(Outlook(pipe)) == Outlook(pipe)
        decreases !resumed, |pipe.chunks|
      {
        Turn(pipe);
      }
    }
  }

  // ------------------------------------------------------------ deserializing from a pipe

  /** What a coroutine comes to: it returns, throws the code a read gave it, or is still suspended. */
  datatype Outcome<+T> = Value(value: T) | Thrown(code: ErrorCode) | Suspended
  {
    predicate IsFailure() { !Value? }

    function PropagateFailure<U>(): Outcome<U>
      requires IsFailure()
    {
      match this
      case Thrown(code) => Thrown(code)
      case Suspended => Suspended
    }

    function Extract(): T
      requires !IsFailure()
    {
      value
    }
  }

  /** The coroutine came to what decoding the whole of the pipe's bytes comes to, and left what that leaves. */
  predicate Agrees<T(==)>(o: Outcome<T>, d: Decoded<T>, chunks: seq<Bytes>, end: Option<ErrorCode>) {
    match d
    case Done(v, rest) => o == Value(v) && Flat(chunks) == rest
    case More(_) => chunks == [] && o == if end.None? then Suspended else Thrown(end.value)
    case Stuck => o == if chunks == [] && end.None? then Suspended else Thrown(UV_ENOBUFS)
  }

  /** And so it does whenever every callback brings something. */
  predicate Follows<T(==)>(before: seq<Bytes>, o: Outcome<T>, d: Decoded<T>, now: seq<Bytes>, end: Option<ErrorCode>) {
    Filled(before) ==> Filled(now) && Agrees(o, d, now, end)
  }

  /** What a reader over any chunks comes to. A callback that brings nothing counts as a success, and leaves
      what the destination held before behind the bytes that came. */
  predicate Reads(o: Outcome<Bytes>, a: Awaited, len: nat) {
    match a
    case Waiting(_) => o == Suspended
    case Resumed(nread, filled, _) =>
      if nread < 0 then o == Thrown(nread) else o.Value? && |o.value| == len && filled <= o.value
  }

  /** The server's reader: a negative count is thrown. */
  method Fill(pipe: Pipe, len: nat) returns (o: Outcome<Bytes>)
    modifies pipe`chunks
    ensures Reads(o, Awaits(old(pipe.chunks), pipe.end, len, []), len)
    ensures Follows(old(pipe.chunks), o, Serde.Read(old(Flat(pipe.chunks)), len, true), pipe.chunks, pipe.end)
    ensures UsedUp(o.Value?, old(pipe.chunks), pipe.chunks)
  {
    var dst := new byte[len];
    var read := new Read(dst);
    assert dst[..0] == [];
    if len > 0 && Filled(pipe.chunks) {
      ReadIsExact(pipe.chunks, pipe.end, len, []);
    }
    AwaitsUsesUp(pipe.chunks, pipe.end, len, []);
    read.Await(pipe);
    if !read.resumed {
      return Suspended;
    }
    if read.result < 0 {
      return Thrown(read.result);
    }
    o := Value(dst[..]);
    assert dst[..read.dst] <= dst[..];
    assert |dst[..read.dst]| == len ==> dst[..read.dst] == dst[..];
    assert |old(Flat(pipe.chunks))| >= len ==> [] + old(Flat(pipe.chunks))[..len] == old(Flat(pipe.chunks))[..len];
  }

  /** The reader has moved on if it has returned, and never goes back. */
  predicate UsedUp(returned: bool, before: seq<Bytes>, now: seq<Bytes>) {
    if returned then Weight(now) < Weight(before) else Weight(now) <= Weight(before)
  }

  method DeserializeSize(pipe: Pipe) returns (o: Outcome<nat>)
    modifies pipe`chunks
    ensures Follows(old(pipe.chunks), o, DecodeSize(old(Flat(pipe.chunks)), true), pipe.chunks, pipe.end)
    ensures UsedUp(o.Value?, old(pipe.chunks), pipe.chunks)
  {
    var b :- Fill(pipe, SIZE_WIDTH);
    o := Value(FromLittleEndian(b));
  }

  method DeserializeInt(pipe: Pipe) returns (o: Outcome<Int32>)
    modifies pipe`chunks
    ensures Follows(old(pipe.chunks), o, DecodeInt(old(Flat(pipe.chunks)), true), pipe.chunks, pipe.end)
    ensures UsedUp(o.Value?, old(pipe.chunks), pipe.chunks)
  {
    var b :- Fill(pipe, INT_WIDTH);
    LittleEndianOnto(b);
    WidthOfInt();
    o := Value(Signed(FromLittleEndian(b)));
  }

  method DeserializeString(pipe: Pipe) returns (o: Outcome<Bytes>)
    modifies pipe`chunks
    ensures Follows(old(pipe.chunks), o, DecodeString(old(Flat(pipe.chunks)), true), pipe.chunks, pipe.end)
    ensures UsedUp(o.Value?, old(pipe.chunks), pipe.chunks)
  {
    var len :- DeserializeSize(pipe);
    o := Fill(pipe, len);
  }

  /** Puts `read`, already read, before what reading `d` gives. */
  function After(read: seq<Bytes>, d: Decoded<seq<Bytes>>): Decoded<seq<Bytes>> {
    match d
    case Done(v, rest) => Done(read + v, rest)
    case More(n) => More(n)
    case Stuck => Stuck
  }

  lemma ItemRead(read: seq<Bytes>, s: Bytes, count: nat)
    requires count > 0
    ensures var d := DecodeString(s, true);
      After(read, DecodeItems(s, count, true)) == match d
        case Done(v, rest) => After(read + [v], DecodeItems(rest, count - 1, true))
        case More(n) => More(n)
        case Stuck => Stuck
  {
    var d := DecodeString(s, true);
    if d.Done? && DecodeItems(d.rest, count - 1, true).Done? {
      ConcatAssoc(read, [d.value], DecodeItems(d.rest, count - 1, true).value);
    }
  }

  method DeserializeStrings(pipe: Pipe) returns (o: Outcome<seq<Bytes>>)
    modifies pipe`chunks
    ensures Follows(old(pipe.chunks), o, DecodeStrings(old(Flat(pipe.chunks)), true), pipe.chunks, pipe.end)
    ensures UsedUp(o.Value?, old(pipe.chunks), pipe.chunks)
  {
    var len :- DeserializeSize(pipe);
    o := DeserializeItems(pipe, len);
  }

  /** `count` items are still to be read behind `vec` to make up `all`. */
  predicate Reading(before: seq<Bytes>, all: Decoded<seq<Bytes>>, vec: seq<Bytes>, now: seq<Bytes>, count: nat) {
    Filled(before) ==> Filled(now) && all == After(vec, DecodeItems(Flat(now), count, true))
  }

  lemma ItemMoves(before: seq<Bytes>, all: Decoded<seq<Bytes>>, vec: seq<Bytes>, now: seq<Bytes>, count: nat,
                  o: Outcome<Bytes>, next: seq<Bytes>, end: Option<ErrorCode>)
    requires count > 0 && Reading(before, all, vec, now, count)
    requires Follows(now, o, DecodeString(Flat(now), true), next, end)
    ensures o.Value? ==> Reading(before, all, vec + [o.value], next, count - 1)
    ensures !o.Value? ==> Follows(before, o.PropagateFailure<seq<Bytes>>(), all, next, end)
  {
    ItemRead(vec, Flat(now), count);
  }

  lemma ReadingBegins(now: seq<Bytes>, len: nat)
    ensures Reading(now, DecodeItems(Flat(now), len, true), [], now, len)
  {
    var d := DecodeItems(Flat(now), len, true);
    assert d.Done? ==> [] + d.value == d.value;
  }

  lemma ReadingEnds(before: seq<Bytes>, all: Decoded<seq<Bytes>>, vec: seq<Bytes>, now: seq<Bytes>,
                    end: Option<ErrorCode>)
    requires Reading(before, all, vec, now, 0)
    ensures Follows(before, Value(vec), all, now, end)
  {
    assert vec + [] == vec;
  }

  method DeserializeItems(pipe: Pipe, len: nat) returns (o: Outcome<seq<Bytes>>)
    modifies pipe`chunks
    ensures Follows(old(pipe.chunks), o, DecodeItems(old(Flat(pipe.chunks)), len, true), pipe.chunks, pipe.end)
    ensures UsedUp(o.Value? && len > 0, old(pipe.chunks), pipe.chunks)
  {
    var vec := [];
    ghost var all := DecodeItems(Flat(pipe.chunks), len, true);
    ReadingBegins(pipe.chunks, len);
    for i := 0 to len
      invariant Reading(old(pipe.chunks), all, vec, pipe.chunks, len - i)
      invariant UsedUp(i > 0, old(pipe.chunks), pipe.chunks)
    {
      ghost var now := pipe.chunks;
      var s := DeserializeString(pipe);
      ItemMoves(old(pipe.chunks), all, vec, now, len - i, s, pipe.chunks, pipe.end);
      if !s.Value? {
        return s.PropagateFailure();
      }
      vec := vec + [s.value];
    }
    ReadingEnds(old(pipe.chunks), all, vec, pipe.chunks, pipe.end);
    o := Value(vec);
  }

  method DeserializeLists(pipe: Pipe) returns (o: Outcome<(seq<Bytes>, seq<Bytes>)>)
    modifies pipe`chunks
    ensures Follows(old(pipe.chunks), o, DecodeLists(old(Flat(pipe.chunks)), true), pipe.chunks, pipe.end)
    ensures UsedUp(o.Value?, old(pipe.chunks), pipe.chunks)
  {
    var args :- DeserializeStrings(pipe);
    var env :- DeserializeStrings(pipe);
    o := Value((args, env));
  }

  method DeserializeCommand(pipe: Pipe) returns (o: Outcome<Command>)
    modifies pipe`chunks
    ensures Follows(old(pipe.chunks), o, DecodeCommand(old(Flat(pipe.chunks)), true), pipe.chunks, pipe.end)
    ensures UsedUp(o.Value?, old(pipe.chunks), pipe.chunks)
  {
    var workingDir :- DeserializeString(pipe);
    var executable :- DeserializeString(pipe);
    var lists :- DeserializeLists(pipe);
    o := Value(Command(workingDir, executable, lists.0, lists.1));
  }

  /** However the bytes are cut into chunks, the coroutine reads from them what decoding them as a whole gives. */
  method DeserializeAction(pipe: Pipe) returns (o: Outcome<Action>)
    modifies pipe`chunks
    ensures Follows(old(pipe.chunks), o, DecodeAction(old(Flat(pipe.chunks)), true), pipe.chunks, pipe.end)
    ensures UsedUp(o.Value?, old(pipe.chunks), pipe.chunks)
  {
    var kind :- Fill(pipe, 1);
    var cmd :- DeserializeCommand(pipe);
    o := Value(Action(kind[0], cmd));
  }

  /** The request byte and the fields the server reads for it. */
  method DeserializeRequest(pipe: Pipe) returns (o: Outcome<Request>)
    modifies pipe`chunks
    ensures Follows(old(pipe.chunks), o, DecodeRequest(old(Flat(pipe.chunks)), true), pipe.chunks, pipe.end)
    ensures UsedUp(o.Value?, old(pipe.chunks), pipe.chunks)
  {
    var tag :- Fill(pipe, 1);
    o := DeserializeBody(pipe, tag[0]);
  }

  method DeserializeBody(pipe: Pipe, tag: byte) returns (o: Outcome<Request>)
    modifies pipe`chunks
    ensures Follows(old(pipe.chunks), o, DecodeBody(tag, old(Flat(pipe.chunks)), true), pipe.chunks, pipe.end)
    ensures UsedUp(false, old(pipe.chunks), pipe.chunks)
  {
    if tag == 0 {
      var parentId :- DeserializeInt(pipe);
      o := Value(Create(parentId));
    } else if tag == 1 {
      var cmd :- DeserializeCommand(pipe);
      o := Value(MakeDecision(cmd));
    } else if tag == 2 {
      var parentId :- DeserializeInt(pipe);
      var id :- DeserializeInt(pipe);
      var message :- DeserializeString(pipe);
      o := Value(ReportError(parentId, id, message));
    } else if tag == 3 {
      var code :- DeserializeInt(pipe);
      o := Value(Finish(code));
    } else {
      o := Value(Unknown(tag));
    }
  }
}
