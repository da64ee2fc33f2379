/** Messages in a byte stream: where one ends is decided by its own bytes, so a reader that has part of a
    message asks for no byte beyond it, and a stream falls apart into messages in one way only. */
module SerdeStream {
  import opened Util
  import opened Serde

  // ------------------------------------------------------------ only written bytes are read

  lemma ReadCanonical(s: Bytes, len: nat, uv: bool)
    requires Read(s, len, uv).Done?
    ensures |Read(s, len, uv).value| == len
    ensures s == Read(s, len, uv).value + Read(s, len, uv).rest
  {
  }

  lemma SizeCanonical(s: Bytes, uv: bool)
    requires DecodeSize(s, uv).Done?
    ensures DecodeSize(s, uv).value < Values(SIZE_WIDTH)
    ensures s == EncodeSize(DecodeSize(s, uv).value) + DecodeSize(s, uv).rest
  {
    ReadCanonical(s, SIZE_WIDTH, uv);
    LittleEndianOnto(s[..SIZE_WIDTH]);
  }

  lemma IntCanonical(s: Bytes, uv: bool)
    requires DecodeInt(s, uv).Done?
    ensures s == EncodeInt(DecodeInt(s, uv).value) + DecodeInt(s, uv).rest
  {
    ReadCanonical(s, INT_WIDTH, uv);
    LittleEndianOnto(s[..INT_WIDTH]);
    WidthOfInt();
  }

  lemma StringCanonical(s: Bytes, uv: bool)
    requires DecodeString(s, uv).Done?
    ensures FitsString(DecodeString(s, uv).value)
    ensures s == EncodeString(DecodeString(s, uv).value) + DecodeString(s, uv).rest
  {
    SizeCanonical(s, uv);
    var size := DecodeSize(s, uv);
    ReadCanonical(size.rest, size.value, uv);
    var text := Read(size.rest, size.value, uv);
    ConcatAssoc(EncodeSize(size.value), text.value, text.rest);
  }

  lemma {:induction false} ItemsCanonical(s: Bytes, count: nat, uv: bool)
    requires DecodeItems(s, count, uv).Done?
    ensures |DecodeItems(s, count, uv).value| == count
    ensures s == EncodeItems(DecodeItems(s, count, uv).value) + DecodeItems(s, count, uv).rest
    decreases count
  {
    if count > 0 {
      StringCanonical(s, uv);
      var first := DecodeString(s, uv);
      ItemsCanonical(first.rest, count - 1, uv);
      var others := DecodeItems(first.rest, count - 1, uv);
      assert ([first.value] + others.value)[1..] == others.value;
      ConcatAssoc(EncodeString(first.value), EncodeItems(others.value), others.rest);
    }
  }

  lemma {:induction false} ItemsFit(s: Bytes, count: nat, uv: bool)
    requires DecodeItems(s, count, uv).Done?
    ensures forall x :: x in DecodeItems(s, count, uv).value ==> FitsString(x)
    decreases count
  {
    if count > 0 {
      StringCanonical(s, uv);
      ItemsFit(DecodeString(s, uv).rest, count - 1, uv);
    }
  }

  lemma StringsCanonical(s: Bytes, uv: bool)
    requires DecodeStrings(s, uv).Done?
    ensures FitsStrings(DecodeStrings(s, uv).value)
    ensures s == EncodeStrings(DecodeStrings(s, uv).value) + DecodeStrings(s, uv).rest
  {
    SizeCanonical(s, uv);
    var size := DecodeSize(s, uv);
    ItemsCanonical(size.rest, size.value, uv);
    ItemsFit(size.rest, size.value, uv);
    var items := DecodeItems(size.rest, size.value, uv);
    ConcatAssoc(EncodeSize(size.value), EncodeItems(items.value), items.rest);
  }

  lemma ListsCanonical(s: Bytes, uv: bool)
    requires DecodeLists(s, uv).Done?
    ensures var d := DecodeLists(s, uv);
      FitsStrings(d.value.0) && FitsStrings(d.value.1)
      && s == EncodeStrings(d.value.0) + EncodeStrings(d.value.1) + d.rest
  {
    StringsCanonical(s, uv);
    var d1 := DecodeStrings(s, uv);
    StringsCanonical(d1.rest, uv);
    var d2 := DecodeStrings(d1.rest, uv);
    ConcatAssoc(EncodeStrings(d1.value), EncodeStrings(d2.value), d2.rest);
  }

  lemma CommandCanonical(s: Bytes, uv: bool)
    requires DecodeCommand(s, uv).Done?
    ensures FitsCommand(DecodeCommand(s, uv).value)
    ensures s == EncodeCommand(DecodeCommand(s, uv).value) + DecodeCommand(s, uv).rest
  {
    StringCanonical(s, uv);
    var d1 := DecodeString(s, uv);
    StringCanonical(d1.rest, uv);
    var d2 := DecodeString(d1.rest, uv);
    ListsCanonical(d2.rest, uv);
    var d3 := DecodeLists(d2.rest, uv);
    var lists := EncodeStrings(d3.value.0) + EncodeStrings(d3.value.1);
    ConcatAssoc(EncodeString(d2.value), lists, d3.rest);
    ConcatAssoc(EncodeString(d1.value), EncodeString(d2.value) + lists, d3.rest);
  }

  /** A decoded action is what was written, byte for byte. */
  lemma ActionCanonical(s: Bytes, uv: bool)
    requires DecodeAction(s, uv).Done?
    ensures FitsCommand(DecodeAction(s, uv).value.cmd)
    ensures s == EncodeAction(DecodeAction(s, uv).value) + DecodeAction(s, uv).rest
  {
    ReadCanonical(s, 1, uv);
    CommandCanonical(s[1..], uv);
    var d := DecodeCommand(s[1..], uv);
    assert s[..1] == [s[0]];
    ConcatAssoc([s[0]], EncodeCommand(d.value), d.rest);
  }

  lemma ReportCanonical(s: Bytes, uv: bool)
    requires DecodeReport(s, uv).Done?
    ensures var r := DecodeReport(s, uv).value;
      r.ReportError? && FitsString(r.message)
      && s == EncodeInt(r.parentId) + (EncodeInt(r.id) + EncodeString(r.message)) + DecodeReport(s, uv).rest
  {
    IntCanonical(s, uv);
    var d1 := DecodeInt(s, uv);
    IntCanonical(d1.rest, uv);
    var d2 := DecodeInt(d1.rest, uv);
    StringCanonical(d2.rest, uv);
    var d3 := DecodeString(d2.rest, uv);
    ConcatAssoc(EncodeInt(d2.value), EncodeString(d3.value), d3.rest);
    ConcatAssoc(EncodeInt(d1.value), EncodeInt(d2.value) + EncodeString(d3.value), d3.rest);
  }

  lemma BodyCanonical(tag: byte, s: Bytes, uv: bool)
    requires DecodeBody(tag, s, uv).Done?
    ensures var d := DecodeBody(tag, s, uv); FitsRequest(d.value) && [tag] + s == EncodeRequest(d.value) + d.rest
  {
    var d := DecodeBody(tag, s, uv);
    if tag == 0 || tag == 3 {
      IntCanonical(s, uv);
      ConcatAssoc([tag], EncodeInt(DecodeInt(s, uv).value), d.rest);
    } else if tag == 1 {
      CommandCanonical(s, uv);
      ConcatAssoc([tag], EncodeCommand(d.value.cmd), d.rest);
    } else if tag == 2 {
      ReportCanonical(s, uv);
      var r := d.value;
      ConcatAssoc([tag], EncodeInt(r.parentId) + (EncodeInt(r.id) + EncodeString(r.message)), d.rest);
    }
  }

  /** A decoded request is what was written, byte for byte: no other bytes decode to it. */
  lemma RequestCanonical(s: Bytes, uv: bool)
    requires DecodeRequest(s, uv).Done?
    ensures var d := DecodeRequest(s, uv); FitsRequest(d.value) && s == EncodeRequest(d.value) + d.rest
  {
    ReadCanonical(s, 1, uv);
    assert s[..1] == [s[0]];
    BodyCanonical(s[0], s[1..], uv);
  }

  // ------------------------------------------------------------ more bytes arrive

  /** `later` is what the decoder makes of the bytes it made `now` of with `t` behind them. What is settled
      stays; a read that waits for `n` bytes takes at least these from `t`. */
  predicate Grows<T(==)>(now: Decoded<T>, t: Bytes, later: Decoded<T>) {
    match now
    case Done(v, rest) => later == Done(v, rest + t)
    case Stuck => later == Stuck
    case More(n) => n > 0 && match later
      case Done(_, rest) => |rest| + n <= |t|
      case Stuck => n <= |t|
      case More(_) => true
  }

  lemma ReadGrows(s: Bytes, len: nat, t: Bytes, uv: bool)
    ensures Grows(Read(s, len, uv), t, Read(s + t, len, uv))
  {
    if len <= |s| {
      assert (s + t)[..len] == s[..len] && (s + t)[len..] == s[len..] + t;
    }
  }

  lemma SizeGrows(s: Bytes, t: Bytes, uv: bool)
    ensures Grows(DecodeSize(s, uv), t, DecodeSize(s + t, uv))
  {
    ReadGrows(s, SIZE_WIDTH, t, uv);
  }

  lemma IntGrows(s: Bytes, t: Bytes, uv: bool)
    ensures Grows(DecodeInt(s, uv), t, DecodeInt(s + t, uv))
  {
    ReadGrows(s, INT_WIDTH, t, uv);
  }

  lemma StringGrows(s: Bytes, t: Bytes, uv: bool)
    ensures Grows(DecodeString(s, uv), t, DecodeString(s + t, uv))
  {
    SizeGrows(s, t, uv);
    var d := DecodeSize(s, uv);
    if d.Done? {
      ReadGrows(d.rest, d.value, t, uv);
    }
  }

  lemma {:induction false} ItemsGrow(s: Bytes, count: nat, t: Bytes, uv: bool)
    ensures Grows(DecodeItems(s, count, uv), t, DecodeItems(s + t, count, uv))
    decreases count
  {
    if count > 0 {
      StringGrows(s, t, uv);
      var d, e := DecodeString(s, uv), DecodeString(s + t, uv);
      if d.Done? {
        ItemsGrow(d.rest, count - 1, t, uv);
      } else if e.Done? && DecodeItems(e.rest, count - 1, uv).Done? {
        ItemsCanonical(e.rest, count - 1, uv);
      }
    }
  }

  lemma StringsGrow(s: Bytes, t: Bytes, uv: bool)
    ensures Grows(DecodeStrings(s, uv), t, DecodeStrings(s + t, uv))
  {
    SizeGrows(s, t, uv);
    var d, e := DecodeSize(s, uv), DecodeSize(s + t, uv);
    if d.Done? {
      ItemsGrow(d.rest, d.value, t, uv);
    } else if e.Done? && DecodeItems(e.rest, e.value, uv).Done? {
      ItemsCanonical(e.rest, e.value, uv);
    }
  }

  /** What reading leaves is no longer than what it was given. */
  lemma Shrinks(s: Bytes, uv: bool)
    ensures DecodeString(s, uv).Done? ==> |DecodeString(s, uv).rest| <= |s|
    ensures DecodeStrings(s, uv).Done? ==> |DecodeStrings(s, uv).rest| <= |s|
    ensures DecodeLists(s, uv).Done? ==> |DecodeLists(s, uv).rest| <= |s|
    ensures DecodeCommand(s, uv).Done? ==> |DecodeCommand(s, uv).rest| <= |s|
  {
    if DecodeString(s, uv).Done? { StringCanonical(s, uv); }
    if DecodeStrings(s, uv).Done? { StringsCanonical(s, uv); }
    if DecodeLists(s, uv).Done? { ListsCanonical(s, uv); }
    if DecodeCommand(s, uv).Done? { CommandCanonical(s, uv); }
  }

  lemma ListsGrow(s: Bytes, t: Bytes, uv: bool)
    ensures Grows(DecodeLists(s, uv), t, DecodeLists(s + t, uv))
  {
    StringsGrow(s, t, uv);
    var d, e := DecodeStrings(s, uv), DecodeStrings(s + t, uv);
    if d.Done? { StringsGrow(d.rest, t, uv); }
    if e.Done? { Shrinks(e.rest, uv); }
  }

  lemma CommandGrows(s: Bytes, t: Bytes, uv: bool)
    ensures Grows(DecodeCommand(s, uv), t, DecodeCommand(s + t, uv))
  {
    StringGrows(s, t, uv);
    var d, e := DecodeString(s, uv), DecodeString(s + t, uv);
    if d.Done? {
      StringGrows(d.rest, t, uv);
      if DecodeString(d.rest, uv).Done? { ListsGrow(DecodeString(d.rest, uv).rest, t, uv); }
    }
    if e.Done? {
      Shrinks(e.rest, uv);
      if DecodeString(e.rest, uv).Done? { Shrinks(DecodeString(e.rest, uv).rest, uv); }
    }
  }

  lemma ActionGrows(s: Bytes, t: Bytes, uv: bool)
    ensures Grows(DecodeAction(s, uv), t, DecodeAction(s + t, uv))
  {
    ReadGrows(s, 1, t, uv);
    if s != [] {
      CommandGrows(s[1..], t, uv);
    } else if t != [] {
      Shrinks(t[1..], uv);
      assert s + t == t;
    }
  }

  lemma ReportGrows(s: Bytes, t: Bytes, uv: bool)
    ensures Grows(DecodeReport(s, uv), t, DecodeReport(s + t, uv))
  {
    IntGrows(s, t, uv);
    var d1, e1 := DecodeInt(s, uv), DecodeInt(s + t, uv);
    if e1.Done? {
      var e2 := DecodeInt(e1.rest, uv);
      if d1.Done? { IntGrows(d1.rest, t, uv); }
      if e2.Done? {
        Shrinks(e2.rest, uv);
        if d1.Done? && DecodeInt(d1.rest, uv).Done? {
          StringGrows(DecodeInt(d1.rest, uv).rest, t, uv);
        }
      }
    }
  }

  lemma BodyGrows(tag: byte, s: Bytes, t: Bytes, uv: bool)
    ensures Grows(DecodeBody(tag, s, uv), t, DecodeBody(tag, s + t, uv))
  {
    if tag == 0 || tag == 3 {
      IntGrows(s, t, uv);
    } else if tag == 1 {
      CommandGrows(s, t, uv);
    } else if tag == 2 {
      ReportGrows(s, t, uv);
    }
  }

  lemma RequestGrows(s: Bytes, t: Bytes, uv: bool)
    ensures Grows(DecodeRequest(s, uv), t, DecodeRequest(s + t, uv))
  {
    if s != [] {
      ReadGrows(s, 1, t, uv);
      BodyGrows(s[0], s[1..], t, uv);
    } else {
      assert s + t == t;
      if DecodeRequest(t, uv).Done? {
        RequestCanonical(t, uv);
      }
    }
  }

  // ------------------------------------------------------------ part of a message

  /** Main result on framing: with part of a request at hand the reader is still inside it, and the read it
      stands in wants no byte of what follows the request. With an empty string in the request it may also
      be stuck, but it never takes the part for a request. */
  lemma PartOfRequest(r: Request, part: Bytes, missing: Bytes)
    requires FitsRequest(r) && part + missing == EncodeRequest(r) && missing != []
    ensures var d := DecodeRequest(part, true);
      (d.More? && 0 < d.n <= |missing|) || (d.Stuck? && !FilledRequest(r))
  {
    RequestGrows(part, missing, true);
    RequestBack(r, [], true);
    assert EncodeRequest(r) + [] == EncodeRequest(r);
  }

  lemma PartOfAction(a: Action, part: Bytes, missing: Bytes)
    requires FitsCommand(a.cmd) && part + missing == EncodeAction(a) && missing != []
    ensures var d := DecodeAction(part, true);
      (d.More? && 0 < d.n <= |missing|) || (d.Stuck? && !FilledCommand(a.cmd))
  {
    ActionGrows(part, missing, true);
    ActionBack(a, [], true);
    assert EncodeAction(a) + [] == EncodeAction(a);
  }

  lemma PartOfInt(i: Int32, part: Bytes, missing: Bytes)
    requires part + missing == EncodeInt(i) && missing != []
    ensures var d := DecodeInt(part, true); d.More? && 0 < d.n <= |missing|
  {
    IntGrows(part, missing, true);
    IntBack(i, [], true);
    assert EncodeInt(i) + [] == EncodeInt(i);
  }

  // ------------------------------------------------------------ a stream of requests

  function EncodeAll(rs: seq<Request>): Bytes {
    if rs == [] then [] else EncodeRequest(rs[0]) + EncodeAll(rs[1..])
  }

  lemma {:induction false} EncodeAllSnoc(rs: seq<Request>, r: Request)
    ensures EncodeAll(rs + [r]) == EncodeAll(rs) + EncodeRequest(r)
  {
    if rs == [] {
      assert rs + [r] == [r] && [r][1..] == [];
      assert EncodeRequest(r) + [] == EncodeRequest(r);
    } else {
      assert (rs + [r])[1..] == rs[1..] + [r];
      EncodeAllSnoc(rs[1..], r);
      ConcatAssoc(EncodeRequest(rs[0]), EncodeAll(rs[1..]), EncodeRequest(r));
    }
  }

  predicate AllFit(rs: seq<Request>) { forall k {:trigger FitsRequest(rs[k])} :: 0 <= k < |rs| ==> FitsRequest(rs[k]) }

  predicate AllFilled(rs: seq<Request>) {
    forall k {:trigger FilledRequest(rs[k])} :: 0 <= k < |rs| ==> FilledRequest(rs[k])
  }

  /** The requests that can be read one after another. */
  function Requests(s: Bytes, uv: bool): seq<Request>
    decreases |s|
  {
    var d := DecodeRequest(s, uv);
    if !d.Done? then [] else
      RequestCanonical(s, uv);
      [d.value] + Requests(d.rest, uv)
  }

  lemma NextRequest(r: Request, tail: Bytes, uv: bool)
    requires FitsRequest(r) && (uv ==> FilledRequest(r))
    ensures Requests(EncodeRequest(r) + tail, uv) == [r] + Requests(tail, uv)
  {
    RequestBack(r, tail, uv);
  }

  /** Whatever requests were written, and whatever part of a next one follows, exactly these are read. */
  lemma {:induction false} StreamRecovered(rs: seq<Request>, rest: Bytes, uv: bool)
    requires AllFit(rs) && (uv ==> AllFilled(rs))
    ensures Requests(EncodeAll(rs) + rest, uv) == rs + Requests(rest, uv)
  {
    if rs == [] {
      assert EncodeAll(rs) + rest == rest;
    } else {
      ConcatAssoc(EncodeRequest(rs[0]), EncodeAll(rs[1..]), rest);
      NextRequest(rs[0], EncodeAll(rs[1..]) + rest, uv);
      StreamRecovered(rs[1..], rest, uv);
      ConcatAssoc([rs[0]], rs[1..], Requests(rest, uv));
      assert rs == [rs[0]] + rs[1..];
    }
  }

  /** Two lists of requests never have the same bytes. */
  lemma StreamInjective(rs: seq<Request>, others: seq<Request>)
    requires AllFit(rs) && AllFit(others) && EncodeAll(rs) == EncodeAll(others)
    ensures rs == others
  {
    StreamRecovered(rs, [], false);
    StreamRecovered(others, [], false);
    assert EncodeAll(rs) + [] == EncodeAll(others) + [];
    assert rs + Requests([], false) == rs && others + Requests([], false) == others;
  }
}
