/** The table of open files and the positions of their read heads (src/catter/core/capi/io.cc). */
module OpenFiles {
  import opened Util

  datatype Error = CannotOpen | InvalidId | InvalidWhence | BufferTooSmall | NegativeSize

  datatype Result<+T> = Ok(value: T) | Err(error: Error)
  {
    predicate IsFailure() { Err? }

    function PropagateFailure<U>(): Result<U>
      requires IsFailure()
    {
      Err(error)
    }

    function Extract(): T
      requires !IsFailure()
    {
      value
    }
  }

  const SET: nat := 0
  const CUR: nat := 1
  const END: nat := 2

  /** An open `std::fstream` of which only the read head is used. A read that comes up short, or a seek to
      before the start, fails the stream; a failed stream reads nothing until its state is cleared. */
  datatype Stream = Stream(content: Bytes, pos: nat, failed: bool)
  {
    /** The bytes that reading can still give. */
    function Rest(): Bytes { if failed || pos > |content| then [] else content[pos..] }

    function Taken(n: nat): Bytes { if n <= |Rest()| then Rest()[..n] else Rest() }

    function AfterRead(n: nat): Stream {
      this.(pos := pos + |Taken(n)|, failed := failed || |Taken(n)| < n)
    }

    function Clear(): Stream { this.(failed := false) }

    function Base(whence: nat): nat {
      if whence == SET then 0 else if whence == CUR then pos else |content|
    }

    function AfterSeek(offset: int, whence: nat): Stream {
      var target := Base(whence) + offset;
      if target < 0 then this.(failed := true) else this.(pos := target, failed := false)
    }
  }

  /** Reads and seeks in numbers: from the start, from the read head and from the end. */
  lemma StreamMoves(s: Stream, n: nat, offset: int)
    requires !s.failed && s.pos <= |s.content|
    ensures s.Taken(n) == s.content[s.pos..if s.pos + n < |s.content| then s.pos + n else |s.content|]
    ensures s.AfterRead(n).failed <==> s.pos + n > |s.content|
    ensures s.AfterRead(n).pos == s.pos + |s.Taken(n)| && s.AfterRead(n).content == s.content
    ensures 0 <= offset ==> s.AfterSeek(offset, 0) == Stream(s.content, offset, false)
    ensures 0 <= s.pos + offset ==> s.AfterSeek(offset, 1) == Stream(s.content, s.pos + offset, false)
    ensures 0 <= |s.content| + offset ==> s.AfterSeek(offset, 2) == Stream(s.content, |s.content| + offset, false)
  {
  }

  class Files {
    var fileIdCnt: int
    var openFiles: map<int, Stream>

    /** No id in use is ever given out again. */
    ghost predicate Valid()
      reads this
    {
      fileIdCnt > 0 && forall id :: id in openFiles ==> 0 < id < fileIdCnt
    }

    constructor ()
      ensures Valid() && openFiles == map[]
    {
      fileIdCnt, openFiles := 1, map[];
    }

    /** The file that is found at the path, if one can be opened. */
    method FileOpen(found: Option<Bytes>) returns (r: Result<int>)
      requires Valid()
      modifies this
      ensures Valid()
      ensures found == None ==> r == Err(CannotOpen) && openFiles == old(openFiles)
      ensures found.Some? ==> r.Ok? && r.value !in old(openFiles)
      ensures found.Some? ==> openFiles == old(openFiles)[r.value := Stream(found.value, 0, false)]
    {
      if found == None {
        return Err(CannotOpen);
      }
      var id := fileIdCnt;
      fileIdCnt := fileIdCnt + 1;
      openFiles := openFiles[id := Stream(found.value, 0, false)];
      return Ok(id);
    }

    method FileClose(id: int) returns (r: Result<()>)
      requires Valid()
      modifies this`openFiles
      ensures Valid()
      ensures r == if id in old(openFiles) then Ok(()) else Err(InvalidId)
      ensures openFiles == old(openFiles) - {id}
    {
      if id !in openFiles {
        return Err(InvalidId);
      }
      openFiles := openFiles - {id};
      return Ok(());
    }

    method FileSeekRead(id: int, offset: int, whence: nat) returns (r: Result<()>)
      requires Valid()
      modifies this`openFiles
      ensures Valid()
      ensures r == if id !in old(openFiles) then Err(InvalidId) else if whence > END then Err(InvalidWhence) else Ok(())
      ensures openFiles ==
        if r.Ok? then old(openFiles)[id := old(openFiles)[id].AfterSeek(offset, whence)] else old(openFiles)
    {
      if id !in openFiles {
        return Err(InvalidId);
      }
      if whence > END {
        return Err(InvalidWhence);
      }
      openFiles := openFiles[id := openFiles[id].Clear()];
      openFiles := openFiles[id := openFiles[id].AfterSeek(offset, whence)];
      return Ok(());
    }

    method FileTellRead(id: int) returns (r: Result<nat>)
      requires Valid()
      modifies this`openFiles
      ensures Valid()
      ensures r == if id in old(openFiles) then Ok(old(openFiles)[id].pos) else Err(InvalidId)
      ensures openFiles == if r.Ok? then old(openFiles)[id := old(openFiles)[id].Clear()] else old(openFiles)
    {
      if id !in openFiles {
        return Err(InvalidId);
      }
      openFiles := openFiles[id := openFiles[id].Clear()];
      return Ok(openFiles[id].pos);
    }

    method FileReadN(id: int, bufSize: nat, buffer: array<byte>) returns (r: Result<nat>)
      requires Valid()
      modifies this`openFiles, buffer
      ensures Valid()
      ensures r == if id !in old(openFiles) then Err(InvalidId) else if buffer.Length < bufSize then Err(BufferTooSmall)
                   else Ok(|old(openFiles)[id].Taken(bufSize)|)
      ensures r.Ok? ==> r.value <= bufSize && buffer[..r.value] == old(openFiles)[id].Taken(bufSize)
      ensures r.Ok? ==> buffer[r.value..] == old(buffer[r.value..])
      ensures openFiles == if r.Ok? then old(openFiles)[id := old(openFiles)[id].AfterRead(bufSize)] else old(openFiles)
    {
      if id !in openFiles {
        return Err(InvalidId);
      }
      if buffer.Length < bufSize {
        return Err(BufferTooSmall);
      }
      var taken := openFiles[id].Taken(bufSize);
      forall k | 0 <= k < |taken| {
        buffer[k] := taken[k];
      }
      openFiles := openFiles[id := openFiles[id].AfterRead(bufSize)];
      return Ok(|taken|);
    }
  }
}
