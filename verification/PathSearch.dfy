/** Finding an executable along a search path, without allocating
    (src/catter-hook/linux-mac/payload/paths.h, resolver.cc). */
module PathSearch {
  import opened Util
  import opened NulStrings
  import opened PayloadArray

  // ------------------------------------------------------------ the pieces of a search path

  /** All pieces, but for one empty piece at the end. */
  function Pieces(text: string): seq<string> { Trim(Split(text, ':')) }

  /** Where the piece that starts at `current` ends. */
  function PieceEnd(text: string, current: nat): (end: nat)
    requires current <= |text|
    ensures current <= end <= |text|
    ensures end < |text| ==> text[end] == ':'
    ensures ':' !in text[current..end]
    decreases |text| - current
  {
    if current == |text| || text[current] == ':' then current
    else
      var end := PieceEnd(text, current + 1);
      assert text[current..end] == [text[current]] + text[current + 1..end];
      end
  }

  /** The pieces still ahead of an iterator that stands on the piece starting at `begin`. */
  function Ahead(text: string, begin: Option<nat>): seq<string>
    requires begin.Some? ==> begin.value < |text|
    decreases if begin.Some? then |text| - begin.value else 0, begin.Some?
  {
    if begin.None? then []
    else
      var end := PieceEnd(text, begin.value);
      [text[begin.value..end]] + Ahead(text, Following(text, end))
  }

  function Following(text: string, end: nat): (begin: Option<nat>)
    requires end <= |text|
    ensures begin.Some? ==> begin.value == end + 1 < |text|
  {
    if end == |text| || end + 1 == |text| then None else Some(end + 1)
  }

  lemma PiecesCons(piece: string, tail: string)
    requires ':' !in piece
    ensures Pieces(piece + [':'] + tail) == [piece] + Pieces(tail)
  {
    SplitCut(piece, tail, ':');
    assert ([piece] + Split(tail, ':'))[1..] == Split(tail, ':');
  }

  lemma LastPiece(piece: string)
    requires ':' !in piece && piece != ""
    ensures Pieces(piece) == [piece]
  {
    SplitFree(piece, ':');
    assert [piece][0] != [""][0];
    assert Trim([piece]) == [piece] + Trim([]);
  }

  lemma PiecesFrom(text: string, begin: nat, end: nat)
    requires begin <= end < |text| && text[end] == ':' && ':' !in text[begin..end]
    ensures Pieces(text[begin..]) == [text[begin..end]] + Pieces(text[end + 1..])
  {
    assert text[begin..] == text[begin..end] + [':'] + text[end + 1..];
    PiecesCons(text[begin..end], text[end + 1..]);
  }

  /** The iterator yields the textbook pieces, without one empty last one. */
  lemma {:induction false} AheadIsPieces(text: string, begin: nat)
    requires begin < |text|
    ensures Ahead(text, Some(begin)) == Pieces(text[begin..])
    decreases |text| - begin
  {
    var end := PieceEnd(text, begin);
    if end == |text| {
      assert text[begin..end] == text[begin..];
      LastPiece(text[begin..end]);
    } else {
      PiecesFrom(text, begin, end);
      if end + 1 < |text| {
        AheadIsPieces(text, end + 1);
      } else {
        assert text[end + 1..] == "";
      }
    }
  }

  /** `Splitter` with its iterator. */
  class Iterator {
    const text: string
    var begin: Option<nat>
    var end: Option<nat>

    ghost predicate Valid()
      reads this
    {
      && (begin.Some? <==> end.Some?)
      && (begin.Some? ==> begin.value < |text| && end.value == PieceEnd(text, begin.value))
    }

    ghost function Yields(): seq<string>
      requires Valid()
      reads this
    {
      Ahead(text, begin)
    }

    constructor (text: string)
      ensures Valid() && this.text == text && Yields() == Pieces(text)
    {
      this.text := text;
      begin, end := None, None;
      new;
      if text != "" {
        var candidate := NextPathSeparator(text, 0);
        begin, end := Some(0), Some(candidate);
        AheadIsPieces(text, 0);
        assert text[0..] == text;
      }
    }

    static method NextPathSeparator(text: string, current: nat) returns (it: nat)
      requires current <= |text|
      ensures it == PieceEnd(text, current)
    {
      it := current;
      while it != |text| && text[it] != ':'
        invariant current <= it <= |text| && PieceEnd(text, it) == PieceEnd(text, current)
        decreases |text| - it
      {
        it := it + 1;
      }
    }

    function Piece(): string
      requires Valid() && begin.Some?
      reads this
    {
      text[begin.value..end.value]
    }

    method Advance()
      requires Valid() && begin.Some?
      modifies this
      ensures Valid()
      ensures old(Yields()) == [old(Piece())] + Yields()
      ensures |Yields()| < |old(Yields())|
    {
      var current := end.value;
      if current == |text| {
        begin, end := None, None;
      } else if current + 1 == |text| {
        begin, end := None, None;
      } else {
        var candidate := NextPathSeparator(text, current + 1);
        begin, end := Some(current + 1), Some(candidate);
      }
    }
  }

  // ------------------------------------------------------------ the search

  datatype Errno = ENOENT | EACCES

  datatype Resolved = Located | Failed(error: Errno)

  /** What `stat` and `access` say of a path. */
  datatype FileSystem = FileSystem(isRegular: string -> bool, mayExecute: string -> bool, present: string -> bool)

  function Verdict(fs: FileSystem, path: string): Resolved {
    if !fs.isRegular(path) then Failed(ENOENT)
    else if fs.mayExecute(path) then Located
    else if fs.present(path) then Failed(EACCES)
    else Failed(ENOENT)
  }

  /** The path that `stat` sees: a long one fills the buffer without its NUL, and runs on into what is behind. */
  function Seen(file: string, beyond: string): string {
    if |file| < PATH_MAX then file else file[..PATH_MAX] + beyond[..StrLen(beyond)]
  }

  lemma PutIsSeen(buffer: string, file: string, beyond: string)
    requires |buffer| == PATH_MAX && CString(file)
    requires if |file| < PATH_MAX then buffer[..|file| + 1] == file + "\0" else buffer == file[..PATH_MAX]
    ensures (buffer + beyond)[..StrLen(buffer + beyond)] == Seen(file, beyond)
  {
    var memory := buffer + beyond;
    if |file| < PATH_MAX {
      assert memory[..|file| + 1] == buffer[..|file| + 1];
      StringAt(memory, file);
    } else {
      StrLenBehind(buffer, beyond);
      assert memory[..|buffer| + StrLen(beyond)] == buffer + beyond[..StrLen(beyond)];
    }
  }

  lemma StrLenBehind(s: string, memory: string)
    requires CString(s)
    ensures StrLen(s + memory) == |s| + StrLen(memory)
  {
    var all, n, m := s + memory, StrLen(s + memory), StrLen(memory);
    assert forall i :: 0 <= i < |s| ==> all[i] == s[i];
    assert forall i :: |s| <= i < |all| ==> all[i] == memory[i - |s|];
    assert m < |memory| ==> all[|s| + m] == memory[m];
  }

  /** The directory is named, the joined path fits, and there is something to execute. */
  predicate Usable(fs: FileSystem, file: string, dir: string) {
    dir != "" && |file| + |dir| + 2 <= PATH_MAX && Verdict(fs, dir + "/" + file) == Located
  }

  function Search(fs: FileSystem, file: string, dirs: seq<string>): Option<string> {
    if dirs == [] then None
    else if Usable(fs, file, dirs[0]) then Some(dirs[0] + "/" + file)
    else Search(fs, file, dirs[1..])
  }

  /** The directory is the first that is named, short enough for the joined path, and has the file as a regular one
      that may be executed. */
  ghost predicate FirstWith(fs: FileSystem, file: string, dirs: seq<string>, i: nat) {
    && i < |dirs| && Has(fs, file, dirs[i])
    && forall j :: 0 <= j < i ==> !Has(fs, file, dirs[j])
  }

  predicate Has(fs: FileSystem, file: string, dir: string) {
    && dir != "" && |dir| + 1 + |file| + 1 <= 4096
    && fs.isRegular(dir + "/" + file) && fs.mayExecute(dir + "/" + file)
  }

  lemma UsableHas(fs: FileSystem, file: string, dir: string)
    ensures Usable(fs, file, dir) <==> Has(fs, file, dir)
  {
  }

  /** Main result on the search, in terms of the plain pieces between colons: it finds the file in the first
      such directory, and nothing exactly when there is none. */
  lemma SearchMeans(fs: FileSystem, file: string, searchPath: string)
    ensures var found := Search(fs, file, Pieces(searchPath));
      && (found == None <==> forall dir :: dir in Split(searchPath, ':') ==> !Has(fs, file, dir))
      && (found.Some? ==> exists i: nat ::
            FirstWith(fs, file, Split(searchPath, ':'), i) && found.value == Split(searchPath, ':')[i] + "/" + file)
  {
    SearchIsFirst(fs, file, Split(searchPath, ':'));
    SearchTrimmed(fs, file, Split(searchPath, ':'));
  }

  lemma {:induction false} SearchIsFirst(fs: FileSystem, file: string, dirs: seq<string>)
    ensures var found := Search(fs, file, dirs);
      && (found == None <==> forall dir :: dir in dirs ==> !Has(fs, file, dir))
      && (found.Some? ==> exists i: nat :: FirstWith(fs, file, dirs, i) && found.value == dirs[i] + "/" + file)
  {
    if dirs != [] {
      assert dirs[0] in dirs;
      assert forall dir :: dir in dirs <==> dir == dirs[0] || dir in dirs[1..];
      UsableHas(fs, file, dirs[0]);
      if Usable(fs, file, dirs[0]) {
        assert FirstWith(fs, file, dirs, 0);
      } else {
        SearchIsFirst(fs, file, dirs[1..]);
        var found := Search(fs, file, dirs[1..]);
        if found.Some? {
          var i: nat :| FirstWith(fs, file, dirs[1..], i) && found.value == dirs[1..][i] + "/" + file;
          FirstMoves(fs, file, dirs, i);
        }
      }
    }
  }

  lemma FirstMoves(fs: FileSystem, file: string, dirs: seq<string>, i: nat)
    requires dirs != [] && !Has(fs, file, dirs[0]) && FirstWith(fs, file, dirs[1..], i)
    ensures FirstWith(fs, file, dirs, i + 1)
  {
    forall j | 0 <= j < i + 1 ensures !Has(fs, file, dirs[j]) {
      if j > 0 {
        assert dirs[j] == dirs[1..][j - 1];
      }
    }
  }

  lemma {:induction false} SearchTrimmed(fs: FileSystem, file: string, dirs: seq<string>)
    ensures Search(fs, file, Trim(dirs)) == Search(fs, file, dirs)
  {
    if dirs != [] && dirs != [""] {
      SearchTrimmed(fs, file, dirs[1..]);
      assert Trim(dirs)[1..] == Trim(dirs[1..]);
    }
  }

  /** What is said of a path: found is a regular file that may be executed, refused is one that may not but is there,
      and nothing else is there. */
  predicate Says(fs: FileSystem, path: string, r: Resolved) {
    && (r == Located <==> fs.isRegular(path) && fs.mayExecute(path))
    && (r == Failed(EACCES) <==> fs.isRegular(path) && !fs.mayExecute(path) && fs.present(path))
    && (r == Failed(ENOENT) <==> !fs.isRegular(path) || (!fs.mayExecute(path) && !fs.present(path)))
  }

  class Resolver {
    const result: array<char>

    ghost predicate Valid() { result.Length == PATH_MAX }

    /** The C string that starts in the result buffer, of which `beyond` is the memory behind it. */
    ghost function Path(beyond: string): string
      reads result
    {
      var memory := result[..] + beyond;
      memory[..StrLen(memory)]
    }

    constructor ()
      ensures Valid() && fresh(result) && forall beyond :: Path(beyond) == ""
    {
      result := new char[PATH_MAX](_ => '\0');
    }

    /** The path lies in the result buffer in every case; `stat` and `access` are asked about what is seen there. */
    method FromCurrentDirectory(fs: FileSystem, file: string, beyond: string) returns (r: Resolved)
      requires Valid() && CString(file)
      modifies result
      ensures Path(beyond) == Seen(file, beyond) && r == Verdict(fs, Seen(file, beyond))
      ensures Says(fs, Path(beyond), r) && (|file| < 4096 ==> Path(beyond) == file)
    {
      var _ := Copy(file + "\0", result, 0, PATH_MAX);
      assert result[..] == result[0..PATH_MAX];
      PutIsSeen(result[..], file, beyond);
      var memory := result[..] + beyond;
      var path := memory[..StrLen(memory)];
      if !fs.isRegular(path) {
        return Failed(ENOENT);
      }
      if fs.mayExecute(path) {
        return Located;
      }
      if fs.present(path) {
        return Failed(EACCES);
      }
      return Failed(ENOENT);
    }

    /** `dir/file` with its NUL, every write inside the buffer. */
    method Candidate(dir: string, file: string) returns (candidate: array<char>)
      requires |file| + |dir| + 2 <= PATH_MAX && CString(dir) && CString(file)
      ensures fresh(candidate) && candidate.Length == PATH_MAX
      ensures StrLen(candidate[..]) < PATH_MAX && candidate[..StrLen(candidate[..])] == dir + "/" + file
    {
      candidate := new char[PATH_MAX];
      var it := Copy(dir, candidate, 0, PATH_MAX);
      candidate[it.value] := '/';
      assert candidate[..|dir|] == dir;
      ghost var begun := candidate[..|dir| + 1];
      assert begun == dir + "/";
      it := Copy(file, candidate, it.value + 1, PATH_MAX);
      candidate[it.value] := '\0';
      var n := |dir| + 1 + |file|;
      assert candidate[..|dir| + 1] == begun;
      assert candidate[|dir| + 1..n] == file;
      assert candidate[..n] == candidate[..|dir| + 1] + candidate[|dir| + 1..n];
      assert candidate[..] == (dir + "/" + file) + ("\0" + candidate[n + 1..]);
      StrLenOf(dir + "/" + file, candidate[n + 1..]);
    }

    /** A name with a separator is a path; any other is searched for. An error of one candidate is not kept. */
    method FromSearchPath(fs: FileSystem, file: string, searchPath: string, beyond: string) returns (r: Resolved)
      requires Valid() && CString(file) && CString(searchPath)
      modifies result
      ensures '/' in file ==> Path(beyond) == Seen(file, beyond) && Says(fs, Path(beyond), r)
      ensures '/' in file && |file| < 4096 ==> Path(beyond) == file
      ensures '/' !in file ==> match Search(fs, file, Pieces(searchPath))
        case Some(path) => r == Located && Path(beyond) == path
        case None => r == Failed(ENOENT)
    {
      if '/' in file {
        r := FromCurrentDirectory(fs, file, beyond);
        return;
      }
      var paths := new Iterator(searchPath);
      while paths.begin != None
        invariant paths.Valid() && fresh(paths) && paths.text == searchPath
        invariant Search(fs, file, paths.Yields()) == Search(fs, file, Pieces(searchPath))
        decreases |paths.Yields()|
      {
        var path := paths.Piece();
        if path != "" && |file| + |path| + 2 <= PATH_MAX {
          var candidate := Candidate(path, file);
          var n := End(Some(candidate[..]));
          r := FromCurrentDirectory(fs, candidate[..n.value], beyond);
          if r == Located {
            return;
          }
        }
        paths.Advance();
      }
      r := Failed(ENOENT);
    }
  }
}
