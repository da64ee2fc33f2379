/** Reading bytes, delimited text and lines from an open file in blocks (api/src/io.ts). Text is its
    characters' codes, one for each byte. */
module TextReader {
  import opened Util
  import opened OpenFiles

  // ------------------------------------------------------------ one byte at a time

  /** What a reader that takes one byte at a time collects until it takes the delimiter or meets the end. */
  function Upto(s: Bytes, delimiter: int): (text: Bytes)
    ensures |text| <= |s|
  {
    if s == [] || s[0] == delimiter then [] else [s[0]] + Upto(s[1..], delimiter)
  }

  /** And what that leaves to read. */
  function Past(s: Bytes, delimiter: int): (rest: Bytes)
    ensures |rest| <= |s| && (s != [] ==> |rest| < |s|)
  {
    if s == [] then [] else if s[0] == delimiter then s[1..] else Past(s[1..], delimiter)
  }

  predicate Free(s: Bytes, delimiter: int) { forall k :: 0 <= k < |s| ==> s[k] != delimiter }

  /** They are what lies before and behind the first delimiter. */
  lemma {:induction false} UptoPast(s: Bytes, delimiter: int)
    ensures var n := |Upto(s, delimiter)|;
      && Upto(s, delimiter) == s[..n]
      && Free(s[..n], delimiter)
      && Past(s, delimiter) == (if n < |s| then s[n + 1..] else [])
      && (n < |s| ==> s[n] == delimiter)
  {
    if s != [] && s[0] != delimiter {
      UptoPast(s[1..], delimiter);
      var n := |Upto(s[1..], delimiter)|;
      assert s[..n + 1] == [s[0]] + s[1..][..n];
      if n < |s| - 1 {
        assert s[1..][n] == s[n + 1] && s[1..][n + 1..] == s[n + 2..];
      }
    }
  }

  /** Bytes without the delimiter are collected whole. */
  lemma {:induction false} UptoSkips(a: Bytes, s: Bytes, delimiter: int)
    requires Free(a, delimiter)
    ensures Upto(a + s, delimiter) == a + Upto(s, delimiter) && Past(a + s, delimiter) == Past(s, delimiter)
  {
    if a == [] {
      assert a + s == s;
    } else {
      assert (a + s)[1..] == a[1..] + s;
      assert (a + s)[0] == a[0] != delimiter;
      assert Free(a[1..], delimiter) by {
        assert forall k :: 0 <= k < |a| - 1 ==> a[1..][k] == a[k + 1];
      }
      UptoSkips(a[1..], s, delimiter);
      ConcatAssoc([a[0]], a[1..], Upto(s, delimiter));
      assert a == [a[0]] + a[1..];
    }
  }

  lemma UptoHits(a: Bytes, delimiter: byte, s: Bytes)
    requires Free(a, delimiter)
    ensures Upto(a + [delimiter] + s, delimiter) == a && Past(a + [delimiter] + s, delimiter) == s
  {
    ConcatAssoc(a, [delimiter], s);
    UptoSkips(a, [delimiter] + s, delimiter);
    assert ([delimiter] + s)[1..] == s;
    assert a + [] == a;
  }

  // ------------------------------------------------------------ lines

  const NEWLINE: byte := 10
  const RETURN: byte := 13

  function Strip(line: Bytes): Bytes {
    if line != [] && line[|line| - 1] == RETURN then line[..|line| - 1] else line
  }

  /** One return is taken off the end of a line, and nothing else. */
  lemma StripMeans(line: Bytes)
    ensures Strip(line + [13]) == line
    ensures line == [] || line[|line| - 1] != 13 ==> Strip(line) == line
  {
  }

  /** The line as it was read, with or without a return behind it. */
  predicate Stripped(text: Bytes, line: Bytes) {
    text == line + [13] || (text == line && (line == [] || line[|line| - 1] != 13))
  }

  function Strips(lines: seq<Bytes>): seq<Bytes> {
    if lines == [] then [] else [Strip(lines[0])] + Strips(lines[1..])
  }

  /** The textbook lines: the pieces between newlines, but for an empty last one, each without one return at
      its end. */
  function Lines(s: Bytes): seq<Bytes> { Strips(Trim(Split(s, NEWLINE))) }

  lemma {:induction false} SplitIsUpto(s: Bytes)
    requires s != []
    ensures Trim(Split(s, NEWLINE)) == [Upto(s, NEWLINE)] + Trim(Split(Past(s, NEWLINE), NEWLINE))
  {
    if s[0] == NEWLINE {
      assert ([[]] + Split(s[1..], NEWLINE))[1..] == Split(s[1..], NEWLINE);
    } else if |s| == 1 {
      assert s == [s[0]] && s[1..] == [];
      SplitFree(s, NEWLINE);
      assert [s] != [[]] by { assert [s][0] != [[]][0]; }
      assert Trim([s]) == [s] + Trim([]);
    } else {
      SplitIsUpto(s[1..]);
      TrimGrows(Split(s[1..], NEWLINE), s[0]);
    }
  }

  lemma TrimGrows(pieces: seq<Bytes>, b: byte)
    requires |pieces| > 0 && pieces != [[]]
    ensures Trim([[b] + pieces[0]] + pieces[1..]) == [[b] + pieces[0]] + Trim(pieces)[1..]
    ensures Trim(pieces) != [] && Trim(pieces)[0] == pieces[0]
  {
    var grown := [[b] + pieces[0]] + pieces[1..];
    assert grown[0] != [];
    assert grown[1..] == pieces[1..];
    assert Trim(pieces)[1..] == Trim(pieces[1..]);
  }

  /** The lines are what reading one after another gives. */
  lemma LinesStep(s: Bytes)
    requires s != []
    ensures Lines(s) == [Strip(Upto(s, NEWLINE))] + Lines(Past(s, NEWLINE))
  {
    SplitIsUpto(s);
    var rest := Trim(Split(Past(s, NEWLINE), NEWLINE));
    assert ([Upto(s, NEWLINE)] + rest)[1..] == rest;
  }

  /** Lines one under another, each with `end` behind it. */
  function Written(lines: seq<Bytes>, end: Bytes): Bytes {
    if lines == [] then [] else lines[0] + end + Written(lines[1..], end)
  }

  lemma {:induction false} StripsRead(lines: seq<Bytes>)
    requires forall k :: 0 <= k < |lines| ==> Free(lines[k], NEWLINE)
    ensures Lines(Written(lines, [10])) == Strips(lines)
  {
    if lines != [] {
      StripsRead(lines[1..]);
      assert Free(lines[0], NEWLINE);
      UptoHits(lines[0], NEWLINE, Written(lines[1..], [10]));
      LinesStep(Written(lines, [10]));
    }
  }

  lemma {:induction false} StripsNothing(lines: seq<Bytes>)
    ensures Strips(lines) == lines
       <==> forall k :: 0 <= k < |lines| ==> lines[k] == [] || lines[k][|lines[k]| - 1] != 13
  {
    if lines != [] {
      StripsNothing(lines[1..]);
      assert lines == [lines[0]] + lines[1..];
      assert Strips(lines)[0] == Strip(lines[0]) && Strips(lines)[1..] == Strips(lines[1..]);
      assert forall k :: 1 <= k < |lines| ==> lines[k] == lines[1..][k - 1];
      assert |Strip(lines[0])| == |lines[0]| <==> Strip(lines[0]) == lines[0];
    }
  }

  lemma {:induction false} ReturnsRead(lines: seq<Bytes>)
    requires forall k :: 0 <= k < |lines| ==> Free(lines[k], NEWLINE)
    ensures Lines(Written(lines, [13, 10])) == lines
  {
    if lines != [] {
      ReturnsRead(lines[1..]);
      var rest := Written(lines[1..], [13, 10]);
      assert Free(lines[0], NEWLINE);
      assert lines[0] + [13, 10] + rest == lines[0] + [13] + [10] + rest;
      UptoHits(lines[0] + [13], NEWLINE, rest);
      LinesStep(Written(lines, [13, 10]));
      StripMeans(lines[0]);
      assert lines == [lines[0]] + lines[1..];
    }
  }

  /** Main result on lines: written with a return and a newline behind each they are read back as they were, and with
      a newline only exactly when none ends in a return. */
  lemma LinesReadBack(lines: seq<Bytes>)
    requires forall k :: 0 <= k < |lines| ==> Free(lines[k], 10)
    ensures Lines(Written(lines, [13, 10])) == lines
    ensures Lines(Written(lines, [10])) == lines
       <==> forall k :: 0 <= k < |lines| ==> lines[k] == [] || lines[k][|lines[k]| - 1] != 13
  {
    ReturnsRead(lines);
    StripsRead(lines);
    StripsNothing(lines);
  }

  lemma NoLines()
    ensures Lines([]) == []
  {
  }

  // ------------------------------------------------------------ byte streams

  /** A handle on an open file; every call fails once it is closed. */
  class FileStream {
    const files: Files
    const fd: int

    ghost predicate Open()
      reads this, files
    {
      files.Valid() && fd in files.openFiles
    }

    ghost function Now(): Stream
      requires Open()
      reads this, files
    {
      files.openFiles[fd]
    }

    constructor (files: Files, fd: int)
      ensures this.files == files && this.fd == fd
    {
      this.files, this.fd := files, fd;
    }

    method Close() returns (r: Result<()>)
      requires files.Valid()
      modifies files`openFiles
      ensures files.Valid() && !Open()
      ensures r.Ok? <==> old(Open())
    {
      r := files.FileClose(fd);
    }

    method SeekRead(offset: int, whence: nat) returns (r: Result<()>)
      requires files.Valid()
      modifies files`openFiles
      ensures files.Valid() && files.openFiles.Keys == old(files.openFiles.Keys)
      ensures r.Ok? <==> old(Open()) && whence <= END
      ensures r.Ok? ==> Now() == old(Now()).AfterSeek(offset, whence)
    {
      r := files.FileSeekRead(fd, offset, whence);
    }

    method ReadBuf(into: array<byte>) returns (r: Result<nat>)
      requires files.Valid()
      modifies files`openFiles, into
      ensures files.Valid() && files.openFiles.Keys == old(files.openFiles.Keys)
      ensures r.Ok? <==> old(Open())
      ensures r.Ok? ==> Now() == old(Now()).AfterRead(into.Length)
      ensures r.Ok? ==> r.value <= into.Length && into[..r.value] == old(Now()).Taken(into.Length)
    {
      r := files.FileReadN(fd, into.Length, into);
    }

    method Read(n: int) returns (r: Result<Bytes>)
      requires files.Valid()
      modifies files`openFiles
      ensures files.Valid() && files.openFiles.Keys == old(files.openFiles.Keys)
      ensures n < 0 ==> r == Err(NegativeSize)
      ensures n == 0 ==> r == Ok([]) && files.openFiles == old(files.openFiles)
      ensures n > 0 ==> (r.Ok? <==> old(Open()))
      ensures n > 0 && r.Ok? ==> r.value == old(Now()).Taken(n) && Now() == old(Now()).AfterRead(n)
    {
      if n < 0 {
        return Err(NegativeSize);
      }
      if n == 0 {
        return Ok([]);
      }
      var buf := new byte[n];
      var bytesRead :- files.FileReadN(fd, n, buf);
      return Ok(buf[..bytesRead]);
    }

    method TellRead() returns (r: Result<nat>)
      requires files.Valid()
      modifies files`openFiles
      ensures files.Valid() && files.openFiles.Keys == old(files.openFiles.Keys)
      ensures r.Ok? <==> old(Open())
      ensures r.Ok? ==> r.value == old(Now()).pos && Now() == old(Now()).Clear()
    {
      r := files.FileTellRead(fd);
    }

    /** The size, wherever the read head stands; it is put back, and a failed stream is good again. */
    method FileSize() returns (r: Result<nat>)
      requires files.Valid()
      modifies files`openFiles
      ensures files.Valid() && files.openFiles.Keys == old(files.openFiles.Keys)
      ensures r.Ok? <==> old(Open())
      ensures r.Ok? ==> r.value == |old(Now()).content| && Now() == old(Now()).Clear()
    {
      var currentPos :- TellRead();
      var toEnd := SeekRead(0, END);
      r := TellRead();
      var back := SeekRead(currentPos, SET);
    }

    /** All bytes, wherever the read head stood. */
    method ReadEntireFile() returns (r: Result<Bytes>)
      requires files.Valid()
      modifies files`openFiles
      ensures files.Valid() && files.openFiles.Keys == old(files.openFiles.Keys)
      ensures r.Ok? <==> old(Open())
      ensures r.Ok? ==> r.value == old(Now()).content && Now().Rest() == []
    {
      var size :- FileSize();
      var toStart := SeekRead(0, SET);
      assert Now().content[0..] == Now().content;
      r := Read(size);
    }
  }

  // ------------------------------------------------------------ text streams

  /** The part of the file that has been read: `taken`, of which nothing is the delimiter, lies between where
      reading began and where it stands. */
  predicate Between(began: Stream, now: Stream, taken: Bytes, delimiter: int) {
    && now.content == began.content && now.pos == began.pos + |taken|
    && began.Rest() == taken + now.Rest()
    && Free(taken, delimiter)
  }

  lemma TakenWhole(began: Stream, now: Stream, taken: Bytes, delimiter: int, n: nat)
    requires Between(began, now, taken, delimiter) && Free(now.Taken(n), delimiter)
    ensures Between(began, now.AfterRead(n), taken + now.Taken(n), delimiter)
  {
    var block := now.Taken(n);
    assert now.Rest() == block + now.AfterRead(n).Rest() by {
      if |block| == n && !now.failed && now.pos <= |now.content| {
        assert now.content[now.pos..][n..] == now.content[now.pos + n..];
      }
    }
    ConcatAssoc(taken, block, now.AfterRead(n).Rest());
  }

  lemma ReadToEnd(began: Stream, now: Stream, taken: Bytes, delimiter: int)
    requires Between(began, now, taken, delimiter) && now.Rest() == []
    ensures taken == Upto(began.Rest(), delimiter) && [] == Past(began.Rest(), delimiter)
  {
    UptoSkips(taken, [], delimiter);
    assert taken + [] == taken;
  }

  /** A block with the delimiter at `i`. */
  predicate Hit(block: Bytes, i: nat, delimiter: int) {
    i < |block| && block[i] == delimiter && Free(block[..i], delimiter)
  }

  lemma RestFromHit(now: Stream, n: nat, i: nat)
    requires i < |now.Taken(n)|
    ensures now.Rest() == now.Taken(n)[..i] + [now.Taken(n)[i]] + now.content[now.pos + i + 1..]
  {
  }

  /** Going back to just behind the delimiter that lies `i` into the last block. */
  lemma ReadToHit(began: Stream, now: Stream, taken: Bytes, delimiter: int, n: nat, i: nat)
    requires Between(began, now, taken, delimiter) && Hit(now.Taken(n), i, delimiter)
    ensures var block := now.Taken(n);
      Until(began, now.AfterRead(n).AfterSeek(i - |block| + 1, CUR), taken + block[..i], delimiter)
  {
    var block, rest := now.Taken(n), now.content[now.pos + i + 1..];
    RestFromHit(now, n, i);
    ConcatAssoc(taken, block[..i], [block[i]]);
    ConcatAssoc(taken, block[..i] + [block[i]], rest);
    UptoHits(taken + block[..i], block[i], rest);
  }

  /** Takes characters from the block up to the delimiter. */
  method TakeBlock(buffer: array<byte>, bytesRead: nat, delimiterCode: int, taken: Bytes)
    returns (hit: Option<nat>, result: Bytes)
    requires bytesRead <= buffer.Length
    ensures hit.None? ==> Free(buffer[..bytesRead], delimiterCode) && result == taken + buffer[..bytesRead]
    ensures hit.Some? ==> Hit(buffer[..bytesRead], hit.value, delimiterCode)
    ensures hit.Some? ==> result == taken + buffer[..bytesRead][..hit.value]
  {
    result := taken;
    for i := 0 to bytesRead
      invariant result == taken + buffer[..i] && Free(buffer[..i], delimiterCode)
    {
      assert buffer[..bytesRead][..i] == buffer[..i];
      var b := buffer[i];
      if b == delimiterCode {
        return Some(i), result;
      } else {
        result := result + [b];
        assert buffer[..i + 1] == buffer[..i] + [b];
      }
    }
    return None, result;
  }

  /** How a turn of the reading loop ends. */
  datatype Turn = Found | Full | Short

  method ReadBlock(raw: FileStream, buffer: array<byte>, delimiterCode: int, result: Bytes, ghost began: Stream)
    returns (r: Result<(Turn, Bytes)>)
    requires raw.files.Valid() && buffer.Length > 0
    requires raw.Open() ==> Between(began, raw.Now(), result, delimiterCode)
    modifies raw.files`openFiles, buffer
    ensures raw.files.Valid() && raw.files.openFiles.Keys == old(raw.files.openFiles.Keys)
    ensures r.Ok? <==> old(raw.Open())
    ensures r.Ok? && r.value.0.Found? ==> Until(began, raw.Now(), r.value.1, delimiterCode)
    ensures r.Ok? && !r.value.0.Found? ==> Between(began, raw.Now(), r.value.1, delimiterCode)
    ensures r.Ok? && r.value.0.Short? ==> raw.Now().Rest() == []
    ensures r.Ok? && r.value.0.Full? ==> |raw.Now().Rest()| < |old(raw.Now()).Rest()|
  {
    var bytesRead :- raw.ReadBuf(buffer);
    ghost var before := old(raw.Now());
    var hit, text := TakeBlock(buffer, bytesRead, delimiterCode, result);
    if hit.Some? {
      ReadToHit(began, before, result, delimiterCode, buffer.Length, hit.value);
      var back := raw.SeekRead(hit.value - bytesRead + 1, CUR);
      return Ok((Found, text));
    }
    TakenWhole(began, before, result, delimiterCode, buffer.Length);
    return Ok((if bytesRead < buffer.Length then Short else Full, text));
  }

  /** `asciiEnDecStreamImpl.readUntil`, on the code of the delimiter's first character or -1 for none: blocks
      give what one byte at a time would. A block of no bytes would never end it. */
  method ReadUntil(raw: FileStream, delimiterCode: int, bufSize: nat) returns (r: Result<Bytes>)
    requires raw.files.Valid() && bufSize > 0
    modifies raw.files`openFiles
    ensures raw.files.Valid() && raw.files.openFiles.Keys == old(raw.files.openFiles.Keys)
    ensures r.Ok? <==> old(raw.Open())
    ensures r.Ok? ==> Until(old(raw.Now()), raw.Now(), r.value, delimiterCode)
  {
    var result := [];
    var buffer := new byte[bufSize];
    ghost var began: Stream := if raw.Open() then raw.Now() else Stream([], 0, true);
    assert raw.Open() ==> [] + raw.Now().Rest() == raw.Now().Rest();
    while true
      invariant raw.files.Valid() && raw.files.openFiles.Keys == old(raw.files.openFiles.Keys)
      invariant raw.Open() ==> Between(began, raw.Now(), result, delimiterCode)
      decreases if raw.Open() then |raw.Now().Rest()| else 0
    {
      var block :- ReadBlock(raw, buffer, delimiterCode, result, began);
      result := block.1;
      if block.0.Found? {
        return Ok(result);
      }
      if block.0.Short? {
        break;
      }
    }
    ReadToEnd(began, raw.Now(), result, delimiterCode);
    return Ok(result);
  }

  /** From one stream state to the other, the text up to the delimiter was read and the delimiter passed. */
  predicate Until(began: Stream, now: Stream, text: Bytes, delimiter: int) {
    && text == Upto(began.Rest(), delimiter)
    && now.Rest() == Past(began.Rest(), delimiter)
    && now.content == began.content
    && now.pos == began.pos + |began.Rest()| - |now.Rest()|
  }

  /** A good stream that has been read up to some place is good again, there, when its state is cleared. */
  lemma ClearedAfter(began: Stream, now: Stream, text: Bytes)
    requires !began.failed && Until(began, now, text, NEWLINE)
    ensures now.Clear().Rest() == Past(began.Rest(), NEWLINE)
    ensures now.pos == began.pos <==> began.Rest() == []
  {
  }

  class TextFileStream {
    const fileStream: FileStream

    constructor (fileStream: FileStream)
      ensures this.fileStream == fileStream
    {
      this.fileStream := fileStream;
    }

    method ReadLine() returns (r: Result<Bytes>)
      requires fileStream.files.Valid()
      modifies fileStream.files`openFiles
      ensures fileStream.files.Valid() && fileStream.files.openFiles.Keys == old(fileStream.files.openFiles.Keys)
      ensures r.Ok? <==> old(fileStream.Open())
      ensures r.Ok? ==> r.value == Strip(Upto(old(fileStream.Now()).Rest(), NEWLINE))
      ensures r.Ok? ==> Stripped(Upto(old(fileStream.Now()).Rest(), 10), r.value)
      ensures r.Ok? ==>
        Until(old(fileStream.Now()), fileStream.Now(), Upto(old(fileStream.Now()).Rest(), NEWLINE), NEWLINE)
    {
      var res :- ReadUntil(fileStream, NEWLINE, 32);
      if res != [] && res[|res| - 1] == RETURN {
        res := res[..|res| - 1];
      }
      return Ok(res);
    }

    /** Main result on the reader: the lines it returns, wherever the read head stands and whatever the file
        holds, are the textbook lines of the rest of the file; and it always comes to an end. */
    method ReadLines() returns (r: Result<seq<Bytes>>)
      requires fileStream.files.Valid()
      modifies fileStream.files`openFiles
      ensures fileStream.files.Valid() && fileStream.files.openFiles.Keys == old(fileStream.files.openFiles.Keys)
      ensures r.Ok? <==> old(fileStream.Open())
      ensures r.Ok? ==> r.value == Lines(old(fileStream.Now()).Clear().Rest()) && fileStream.Now().Rest() == []
    {
      var lines := [];
      var currentPos :- fileStream.TellRead();
      ghost var all := Lines(fileStream.Now().Rest());
      assert [] + all == all;
      while true
        invariant fileStream.files.Valid() && fileStream.Open()
        invariant fileStream.files.openFiles.Keys == old(fileStream.files.openFiles.Keys)
        invariant !fileStream.Now().failed && fileStream.Now().pos == currentPos
        invariant all == lines + Lines(fileStream.Now().Rest())
        decreases |fileStream.Now().Rest()|
      {
        ghost var before := fileStream.Now();
        var line := ReadLine();
        ClearedAfter(before, fileStream.Now(), Upto(before.Rest(), NEWLINE));
        var newPos := fileStream.TellRead();
        if line.value == [] && newPos.value == currentPos {
          NoLines();
          assert lines + [] == lines;
          break;
        }
        if before.Rest() != [] {
          LinesStep(before.Rest());
          ConcatAssoc(lines, [line.value], Lines(fileStream.Now().Rest()));
        }
        lines := lines + [line.value];
        currentPos := newPos.value;
      }
      return Ok(lines);
    }
  }
}
