/** The command the hook executes instead of the caller's, built in one fixed block of memory
    (src/catter-hook/linux-mac/payload/command.cc, command.h). */
module CmdBuilder {
  import opened Util
  import opened NulStrings
  import opened PayloadArray

  const BUF_SIZE: nat := PATH_MAX * 100
  const MAX_ARGC: nat := PATH_MAX

  const ERROR_PREFIX := "linux or mac error found in hook:"
  const OVERFLOW := "Overflow when building command"
  const IN_EXECUTING := " in executing:\n    --->"

  /** A pointer into the block, or null. */
  type Pointer = Option<nat>

  // ------------------------------------------------------------ strings that lie in the block

  predicate AllCStrings(ss: seq<string>) { forall s :: s in ss ==> CString(s) }

  /** The strings lie one after another from the start of the block, and the first pointers point at them. */
  predicate Laid(ss: seq<string>, area: string, argv: seq<Pointer>) {
    && |Closed(ss)| <= |area| && area[..|Closed(ss)|] == Closed(ss)
    && |ss| <= |argv| && forall j :: 0 <= j < |ss| ==> argv[j] == Some(|Closed(ss[..j])|)
  }

  /** What a program sees that is handed these pointers: a string for each, up to the null one. */
  function Argv(argv: seq<Pointer>, area: string): seq<string> {
    if argv == [] || argv[0].None? then []
    else
      var s := if argv[0].value <= |area| then area[argv[0].value..] else "";
      [s[..StrLen(s)]] + Argv(argv[1..], area)
  }

  lemma {:induction false} ClosedConcat(a: seq<string>, b: seq<string>)
    ensures Closed(a + b) == Closed(a) + Closed(b)
  {
    if a == [] {
      assert a + b == b;
    } else {
      assert (a + b)[1..] == a[1..] + b;
      ClosedConcat(a[1..], b);
      ConcatAssoc(a[0] + "\0", Closed(a[1..]), Closed(b));
    }
  }

  lemma LaidSnoc(ss: seq<string>, s: string, area: string, area': string, argv: seq<Pointer>)
    requires Laid(ss, area, argv) && |ss| < |argv|
    requires |area'| == |area| && |Closed(ss)| + |s| < |area|
    requires area'[..|Closed(ss)|] == area[..|Closed(ss)|]
    requires area'[|Closed(ss)|..|Closed(ss)| + |s| + 1] == s + "\0"
    ensures Laid(ss + [s], area', argv[|ss| := Some(|Closed(ss)|)])
  {
    ClosedSnoc(ss, s);
    var argv' := argv[|ss| := Some(|Closed(ss)|)];
    var n := |Closed(ss)| + |s| + 1;
    assert area'[..n] == area'[..|Closed(ss)|] + area'[|Closed(ss)|..n];
    ConcatAssoc(Closed(ss), s, "\0");
    forall j | 0 <= j < |ss| + 1 ensures argv'[j] == Some(|Closed((ss + [s])[..j])|) {
      assert (ss + [s])[..j] == ss[..j];
      assert ss[..|ss|] == ss;
    }
  }

  lemma LaidPrefix(ss: seq<string>, more: seq<string>, area: string, argv: seq<Pointer>)
    requires Laid(ss + more, area, argv)
    ensures Laid(ss, area, argv)
  {
    ClosedConcat(ss, more);
    assert area[..|Closed(ss)|] == Closed(ss + more)[..|Closed(ss)|];
    forall j | 0 <= j < |ss| ensures argv[j] == Some(|Closed(ss[..j])|) {
      assert (ss + more)[..j] == ss[..j];
    }
  }

  /** Reading back: the program sees exactly the strings that were laid. */
  lemma {:induction false} LaidReadsBack(ss: seq<string>, area: string, argv: seq<Pointer>, k: nat)
    requires AllCStrings(ss) && Laid(ss, area, argv) && |ss| < |argv| && argv[|ss|] == None && k <= |ss|
    ensures Argv(argv[k..], area) == ss[k..]
    decreases |ss| - k
  {
    if k < |ss| {
      LaidReadsBack(ss, area, argv, k + 1);
      LaidString(ss, area, k);
      assert argv[k..][1..] == argv[k + 1..];
      assert ss[k..] == [ss[k]] + ss[k + 1..];
    }
  }

  lemma LaidString(ss: seq<string>, area: string, k: nat)
    requires AllCStrings(ss) && k < |ss|
    requires |Closed(ss)| <= |area| && area[..|Closed(ss)|] == Closed(ss)
    ensures |Closed(ss[..k])| <= |area|
    ensures var s := area[|Closed(ss[..k])|..]; s[..StrLen(s)] == ss[k]
  {
    ClosedAt(ss, k);
    var at, s := |Closed(ss[..k])|, ss[k];
    SliceOfPrefix(area, |Closed(ss)|, at, |s| + 1);
    assert s in ss;
    StringAt(area[at..], s);
  }

  lemma SliceOfPrefix(area: string, n: nat, at: nat, length: nat)
    requires at + length <= n <= |area|
    ensures area[at..][..length] == area[..n][at..at + length]
  {
  }

  lemma ClosedAt(ss: seq<string>, k: nat)
    requires k < |ss|
    ensures var at := |Closed(ss[..k])|;
      at + |ss[k]| < |Closed(ss)| && Closed(ss)[at..at + |ss[k]| + 1] == ss[k] + "\0"
  {
    assert ss == ss[..k] + ss[k..];
    ClosedConcat(ss[..k], ss[k..]);
    assert ss[k..][0] == ss[k];
  }

  // ------------------------------------------------------------ what is asked for

  /** A string is kept behind the others if there is one and it still fits. */
  function Keep(kept: seq<string>, s: Option<string>): seq<string> {
    if s.Some? && Fits(kept + [s.value]) then kept + [s.value] else kept
  }

  /** What a builder starts with. */
  function Started(proxyPath: Option<string>, selfId: Option<string>): seq<string> {
    Keep(Keep(Keep([], proxyPath), Some("-p")), selfId)
  }

  /** A command fits when its strings with their NULs fit in the block, and their pointers with the null one
      in the array. */
  predicate Fits(ss: seq<string>) { |Closed(ss)| <= BUF_SIZE && |ss| <= MAX_ARGC - 1 }

  function Lengths(ss: seq<string>): nat { if ss == [] then 0 else |ss[0]| + Lengths(ss[1..]) }

  lemma {:induction false} ClosedLength(ss: seq<string>)
    ensures |Closed(ss)| == Lengths(ss) + |ss|
  {
    if ss != [] { ClosedLength(ss[1..]); }
  }

  /** In numbers: 409600 bytes with a NUL for each string, and 4096 pointers with the null one. */
  lemma FitsExactly(ss: seq<string>)
    ensures Fits(ss) <==> Lengths(ss) + |ss| <= 409600 && |ss| + 1 <= 4096
  {
    ClosedLength(ss);
  }

  lemma FitsPrefix(ss: seq<string>, more: seq<string>)
    requires Fits(ss + more)
    ensures Fits(ss)
  {
    ClosedConcat(ss, more);
  }

  lemma KeepAll(a: string, b: string, c: string)
    requires |a| + |b| + |c| + 3 <= BUF_SIZE
    ensures Keep(Keep(Keep([], Some(a)), Some(b)), Some(c)) == [a, b, c]
    ensures |Closed([a, b, c])| == |a| + |b| + |c| + 3 && Fits([a])
  {
    ClosedSnoc([], a);
    assert [] + [a] == [a];
    ClosedSnoc([a], b);
    assert [a] + [b] == [a, b];
    ClosedSnoc([a, b], c);
    assert [a, b] + [c] == [a, b, c];
  }

  /** All three are kept, with room for one NUL more, exactly when both strings are given and short enough. */
  lemma StartedExactly(proxyPath: Option<string>, selfId: Option<string>)
    ensures var kept := Started(proxyPath, selfId);
      |kept| == 3 && |Closed(kept)| < BUF_SIZE
      <==> proxyPath.Some? && selfId.Some? && |proxyPath.value| + |selfId.value| + 6 <= BUF_SIZE
    ensures |Started(proxyPath, selfId)| == 3
        ==> Started(proxyPath, selfId) == [proxyPath.value, "-p", selfId.value] && Fits([proxyPath.value])
  {
    if proxyPath.Some? && selfId.Some? {
      if |proxyPath.value| + |selfId.value| + 5 <= BUF_SIZE {
        KeepAll(proxyPath.value, "-p", selfId.value);
      }
      HeadLength(proxyPath.value, selfId.value);
      assert [] + [proxyPath.value] + ["-p"] + [selfId.value] == [proxyPath.value, "-p", selfId.value];
      assert [] + [proxyPath.value] == [proxyPath.value];
    }
  }

  lemma HeadLength(proxyPath: string, selfId: string)
    ensures |Closed([proxyPath, "-p", selfId])| == |proxyPath| + |selfId| + 5
  {
    assert Closed([selfId]) == selfId + "\0" + Closed([]);
    assert Closed(["-p", selfId]) == "-p" + "\0" + Closed([selfId]);
    assert [proxyPath, "-p", selfId][1..] == ["-p", selfId];
  }

  /** A null piece is none. */
  function Piece(piece: Option<string>): seq<string> { if piece.Some? then [piece.value] else [] }

  /** The pieces of an error text. */
  function Pieces(msg: Option<string>, path: Option<string>, argvIn: Option<seq<string>>): seq<string> {
    [ERROR_PREFIX, " "] + Piece(msg) + [IN_EXECUTING] + Piece(path)
    + if argvIn.Some? && argvIn.value != [] then ArgPieces(argvIn.value[1..]) else []
  }

  predicate NullOrCString(s: Option<string>) { s.Some? ==> CString(s.value) }

  function ArgPieces(args: seq<string>): seq<string> {
    if args == [] then [] else [" ", args[0]] + ArgPieces(args[1..])
  }

  lemma {:induction false} ArgPiecesAreCStrings(args: seq<string>)
    requires AllCStrings(args)
    ensures AllCStrings(ArgPieces(args))
  {
    if args != [] {
      assert args[0] in args;
      ArgPiecesAreCStrings(args[1..]);
    }
  }

  lemma PiecesAreCStrings(msg: Option<string>, path: Option<string>, argvIn: Option<seq<string>>)
    requires NullOrCString(msg) && NullOrCString(path) && (argvIn.Some? ==> AllCStrings(argvIn.value))
    ensures AllCStrings(Pieces(msg, path, argvIn))
  {
    var named := [ERROR_PREFIX, " "] + Piece(msg) + [IN_EXECUTING] + Piece(path);
    assert AllCStrings(named) by {
      assert CString(ERROR_PREFIX) && CString(" ") && CString(IN_EXECUTING);
    }
    if argvIn.Some? && argvIn.value != [] {
      ArgPiecesAreCStrings(argvIn.value[1..]);
    }
  }

  /** Each piece is taken that still has room: one that has not is skipped, and shorter ones may follow. */
  function Greedy(text: string, pieces: seq<string>, room: nat): string
    decreases |pieces|
  {
    if pieces == [] then text
    else Greedy(if |text| + |pieces[0]| <= room then text + pieces[0] else text, pieces[1..], room)
  }

  lemma {:induction false} ArgPiecesSnoc(args: seq<string>, arg: string)
    ensures ArgPieces(args + [arg]) == ArgPieces(args) + [" ", arg]
  {
    if args == [] {
      assert args + [arg] == [arg] && [arg][1..] == [];
    } else {
      assert (args + [arg])[1..] == args[1..] + [arg];
      ArgPiecesSnoc(args[1..], arg);
    }
  }

  function Concat(pieces: seq<string>): string {
    if pieces == [] then "" else pieces[0] + Concat(pieces[1..])
  }

  lemma {:induction false} ConcatParts(a: seq<string>, b: seq<string>)
    ensures Concat(a + b) == Concat(a) + Concat(b)
  {
    if a == [] {
      assert a + b == b;
    } else {
      assert (a + b)[1..] == a[1..] + b;
      ConcatParts(a[1..], b);
      ConcatAssoc(a[0], Concat(a[1..]), Concat(b));
    }
  }

  lemma {:induction false} ArgPiecesJoined(args: seq<string>)
    ensures Concat(ArgPieces(args)) == if args == [] then "" else " " + Join(args, ' ')
  {
    if args != [] {
      ArgPiecesJoined(args[1..]);
      ConcatTwo(" ", args[0], ArgPieces(args[1..]));
      if |args| > 1 {
        var rest := Join(args[1..], ' ');
        assert Join(args, ' ') == args[0] + [' '] + rest;
        assert " " + (args[0] + (" " + rest)) == " " + (args[0] + [' '] + rest);
      } else {
        assert args[0] + "" == args[0];
      }
    }
  }

  lemma ConcatTwo(a: string, b: string, rest: seq<string>)
    ensures Concat([a, b] + rest) == a + (b + Concat(rest))
  {
    assert ([a, b] + rest)[1..] == [b] + rest && ([b] + rest)[1..] == rest;
  }

  lemma ConcatFive(a: string, b: string, c: string, d: string, e: string, rest: seq<string>)
    ensures Concat([a, b] + [c] + [d] + [e] + rest) == a + b + c + d + e + Concat(rest)
  {
    assert [a, b] + [c] + [d] + [e] + rest == [a, b] + ([c, d] + ([e] + rest));
    ConcatTwo(a, b, [c, d] + ([e] + rest));
    ConcatTwo(c, d, [e] + rest);
    assert ([e] + rest)[1..] == rest;
    var tail := Concat(rest);
    assert a + (b + (c + (d + (e + tail)))) == a + b + c + d + e + tail;
  }

  /** The whole message: the hook's prefix, the cause, the path and the caller's words but the first, with blanks
      between them. */
  function Message(msg: string, path: string, argvIn: Option<seq<string>>): string {
    ERROR_PREFIX + " " + msg + IN_EXECUTING + path
    + if argvIn.Some? && |argvIn.value| > 1 then " " + Join(argvIn.value[1..], ' ') else ""
  }

  lemma PiecesMean(msg: string, path: string, argvIn: Option<seq<string>>)
    ensures Concat(Pieces(Some(msg), Some(path), argvIn)) == Message(msg, path, argvIn)
  {
    var args := if argvIn.Some? && argvIn.value != [] then argvIn.value[1..] else [];
    ArgPiecesJoined(args);
    ConcatFive(ERROR_PREFIX, " ", msg, IN_EXECUTING, path, ArgPieces(args));
  }

  /** The error text says all of it whenever there is room for that. */
  lemma WholeMessage(msg: string, path: string, argvIn: Option<seq<string>>, room: nat)
    requires |Message(msg, path, argvIn)| <= room
    ensures Greedy("", Pieces(Some(msg), Some(path), argvIn), room) == Message(msg, path, argvIn)
  {
    PiecesMean(msg, path, argvIn);
    GreedyMeans("", Pieces(Some(msg), Some(path), argvIn), room);
  }

  /** The text is the whole message when that has room, and never more than the room. */
  lemma {:induction false} GreedyMeans(text: string, pieces: seq<string>, room: nat)
    requires |text| <= room
    ensures |Greedy(text, pieces, room)| <= room
    ensures |text| + |Concat(pieces)| <= room ==> Greedy(text, pieces, room) == text + Concat(pieces)
    decreases |pieces|
  {
    if pieces == [] {
      assert text + "" == text;
    } else if |text| + |pieces[0]| <= room {
      GreedyMeans(text + pieces[0], pieces[1..], room);
      ConcatAssoc(text, pieces[0], Concat(pieces[1..]));
    } else {
      GreedyMeans(text, pieces[1..], room);
    }
  }

  lemma {:induction false} GreedySnoc(text: string, pieces: seq<string>, piece: string, room: nat)
    ensures var t := Greedy(text, pieces, room);
      Greedy(text, pieces + [piece], room) == if |t| + |piece| <= room then t + piece else t
    decreases |pieces|
  {
    if pieces == [] {
      assert pieces + [piece] == [piece] && [piece][1..] == [];
    } else {
      assert (pieces + [piece])[1..] == pieces[1..] + [piece];
      GreedySnoc(if |text| + |pieces[0]| <= room then text + pieces[0] else text, pieces[1..], piece, room);
    }
  }

  lemma {:induction false} GreedyCString(text: string, pieces: seq<string>, room: nat)
    requires CString(text) && AllCStrings(pieces)
    ensures CString(Greedy(text, pieces, room))
    decreases |pieces|
  {
    if pieces != [] {
      assert pieces[0] in pieces;
      GreedyCString(if |text| + |pieces[0]| <= room then text + pieces[0] else text, pieces[1..], room);
    }
  }

  /** What the caller executes: what was built, or what it was given. */
  datatype Built = Ours | Given(path: Option<string>, argv: Option<seq<string>>)

  // ------------------------------------------------------------ the builder

  class CmdBuilder {
    const area: array<char>
    const argv: array<Pointer>
    var appendPtr: Pointer
    var appendArgvPtr: nat
    var executablePathPtr: Pointer

    /** The strings every command starts with. */
    ghost const proxyPath: string
    ghost const selfId: string

    ghost function Head(): seq<string> { [proxyPath, "-p", selfId] }

    /** The appended part is free: the block holds the head, and both append pointers stand behind it. */
    ghost predicate Valid()
      reads this, area, argv
    {
      && area.Length == BUF_SIZE && argv.Length == MAX_ARGC
      && AllCStrings(Head())
      && Laid(Head(), area[..], argv[..])
      && appendArgvPtr == 3 && appendPtr == Some(|Closed(Head())|) && |Closed(Head())| < BUF_SIZE
      && executablePathPtr == Some(0)
    }

    /** What the executed program would see. */
    ghost function Read(): seq<string>
      reads area, argv
    {
      Argv(argv[..], area[..])
    }

    /** Works on the strings laid so far; both pointers stay when there is no string or no room. */
    method StoreArg(buf: Buffer, str: Option<string>, ghost ss: seq<string>) returns (stored: Pointer)
      requires area.Length == BUF_SIZE && argv.Length == MAX_ARGC
      requires buf.Valid() && buf.area == area && buf.end == BUF_SIZE
      requires NullOrCString(str) && Laid(ss, area[..], argv[..])
      requires buf.top == |Closed(ss)| && appendArgvPtr == |ss|
      modifies this`appendArgvPtr, buf, area, argv
      ensures buf.Valid()
      ensures stored == if str.Some? && Fits(ss + [str.value]) then Some(|Closed(ss)|) else None
      ensures var now := if stored.Some? then ss + [str.value] else ss;
        Laid(now, area[..], argv[..]) && buf.top == |Closed(now)| && appendArgvPtr == |now|
    {
      if str.Some? { ClosedSnoc(ss, str.value); }
      if appendArgvPtr >= MAX_ARGC - 1 {
        return None;
      }
      ghost var before := area[..];
      stored := buf.Store(str);
      assert area[..][..|Closed(ss)|] == before[..|Closed(ss)|];
      if stored == None {
        return None;
      }
      assert area[..][|Closed(ss)|..|Closed(ss)| + |str.value| + 1] == str.value + "\0";
      LaidSnoc(ss, str.value, before, area[..], argv[..]);
      argv[appendArgvPtr] := stored;
      appendArgvPtr := appendArgvPtr + 1;
    }

    /** The three stores of the start, none of them checked. */
    method StoreHead(buf: Buffer, proxyPath: Option<string>, selfId: Option<string>) returns (path: Pointer)
      requires area.Length == BUF_SIZE && argv.Length == MAX_ARGC
      requires buf.Valid() && buf.area == area && buf.end == BUF_SIZE && buf.top == 0 && appendArgvPtr == 0
      requires NullOrCString(proxyPath) && NullOrCString(selfId)
      modifies this`appendArgvPtr, buf, area, argv
      ensures buf.Valid()
      ensures path == if proxyPath.Some? && Fits([proxyPath.value]) then Some(0) else None
      ensures var kept := Started(proxyPath, selfId);
        Laid(kept, area[..], argv[..]) && buf.top == |Closed(kept)| && appendArgvPtr == |kept|
    {
      path := StoreArg(buf, proxyPath, []);
      assert proxyPath.Some? ==> [] + [proxyPath.value] == [proxyPath.value];
      ghost var kept := Keep([], proxyPath);
      var _ := StoreArg(buf, Some("-p"), kept);
      kept := Keep(kept, Some("-p"));
      var _ := StoreArg(buf, selfId, kept);
    }

    /** Whatever it is given, the block holds the strings that fit. The builder is usable exactly when both are
        given and there is room for them and one NUL more. */
    constructor (proxyPath: Option<string>, selfId: Option<string>)
      requires NullOrCString(proxyPath) && NullOrCString(selfId)
      ensures fresh(area) && fresh(argv) && area.Length == BUF_SIZE && argv.Length == MAX_ARGC
      ensures var kept := Started(proxyPath, selfId);
        && Laid(kept, area[..], argv[..]) && appendArgvPtr == |kept|
        && appendPtr == (if |Closed(kept)| < BUF_SIZE then Some(|Closed(kept)|) else None)
      ensures executablePathPtr == if proxyPath.Some? && Fits([proxyPath.value]) then Some(0) else None
      ensures Valid()
         <==> proxyPath.Some? && selfId.Some? && |proxyPath.value| + |selfId.value| + 6 <= BUF_SIZE
      ensures Valid() ==> this.proxyPath == proxyPath.value && this.selfId == selfId.value
    {
      area := new char[BUF_SIZE](_ => '\0');
      argv := new Pointer[MAX_ARGC](_ => None);
      appendPtr, appendArgvPtr := Some(0), 0;
      this.proxyPath := if proxyPath.Some? then proxyPath.value else "";
      this.selfId := if selfId.Some? then selfId.value else "";
      executablePathPtr := None;
      new;
      var buf := new Buffer(area, 0, BUF_SIZE);
      executablePathPtr := StoreHead(buf, proxyPath, selfId);
      ghost var before, kept := area[..], Started(proxyPath, selfId);
      appendPtr := buf.Store(Some(""));
      assert area[..][..|Closed(kept)|] == before[..|Closed(kept)|];
      StartedExactly(proxyPath, selfId);
    }

    ghost function Room(): nat
      requires Valid()
      reads this, area, argv
    {
      BUF_SIZE - appendPtr.value
    }

    /** The error form: the head and one text, or the caller's own command when the text leaves no room for
        its NUL. */
    ghost predicate IsError(built: Built, msg: Option<string>, path: Option<string>, argvIn: Option<seq<string>>)
      requires Valid()
      reads this, area, argv
    {
      var text := Greedy("", Pieces(msg, path, argvIn), Room());
      if |text| < Room() then built == Ours && Read() == Head() + [text] else built == Given(path, argvIn)
    }

    /** So with room for all of it the text is the whole message. */
    lemma ErrorSays(built: Built, msg: string, path: string, argvIn: Option<seq<string>>)
      requires Valid() && IsError(built, Some(msg), Some(path), argvIn)
      requires |Message(msg, path, argvIn)| < Room()
      ensures built == Ours && Read() == Head() + [Message(msg, path, argvIn)]
    {
      WholeMessage(msg, path, argvIn, Room());
    }

    lemma ReadsBack(ss: seq<string>)
      requires AllCStrings(ss) && Laid(ss, area[..], argv[..]) && |ss| < argv.Length && argv[|ss|] == None
      ensures Read() == ss
    {
      LaidReadsBack(ss, area[..], argv[..], 0);
      assert argv[..][0..] == argv[..] && ss[0..] == ss;
    }

    // ---------------------------------------------------------- the error text

    /** The text pushed so far lies behind the head. */
    ghost predicate Texted(buf: Buffer, text: string)
      reads this, area, argv, buf
    {
      && Valid() && buf.Valid() && buf.area == area && buf.end == BUF_SIZE
      && buf.top == appendPtr.value + |text| && area[appendPtr.value..buf.top] == text
    }

    method PushPiece(buf: Buffer, piece: Option<string>, ghost pieces: seq<string>)
      requires Valid() && Texted(buf, Greedy("", pieces, Room())) && NullOrCString(piece)
      modifies buf, area
      ensures Valid() && Texted(buf, Greedy("", pieces + Piece(piece), Room()))
    {
      ghost var before, text := area[..], Greedy("", pieces, Room());
      if piece.Some? {
        GreedySnoc("", pieces, piece.value, Room());
      } else {
        assert pieces + [] == pieces;
      }
      var ok := buf.Push(piece);
      ghost var at := appendPtr.value;
      assert area[..][..at] == before[..at];
      assert area[at..at + |text|] == before[at..at + |text|];
      assert ok ==> area[at..buf.top] == area[at..at + |text|] + piece.value;
    }

    method PushArgs(buf: Buffer, argvIn: seq<string>, ghost pieces: seq<string>)
      requires Valid() && Texted(buf, Greedy("", pieces, Room())) && AllCStrings(argvIn) && argvIn != []
      modifies buf, area
      ensures Valid() && Texted(buf, Greedy("", pieces + ArgPieces(argvIn[1..]), Room()))
    {
      assert argvIn[1..][..0] == [] && pieces + [] == pieces;
      for i := 1 to |argvIn|
        invariant Valid() && Texted(buf, Greedy("", pieces + ArgPieces(argvIn[1..][..i - 1]), Room()))
      {
        ghost var done := pieces + ArgPieces(argvIn[1..][..i - 1]);
        assert argvIn[1..][..i] == argvIn[1..][..i - 1] + [argvIn[i]];
        ArgPiecesSnoc(argvIn[1..][..i - 1], argvIn[i]);
        assert done + [" "] + [argvIn[i]] == pieces + (ArgPieces(argvIn[1..][..i - 1]) + [" ", argvIn[i]]);
        PushPiece(buf, Some(" "), done);
        assert argvIn[i] in argvIn;
        PushPiece(buf, Some(argvIn[i]), done + [" "]);
      }
      assert argvIn[1..][..|argvIn| - 1] == argvIn[1..];
    }

    method PushCause(buf: Buffer, msg: Option<string>)
      requires Valid() && Texted(buf, "") && NullOrCString(msg)
      modifies buf, area
      ensures Valid() && Texted(buf, Greedy("", [ERROR_PREFIX, " "] + Piece(msg), Room()))
    {
      PushPiece(buf, Some(ERROR_PREFIX), []);
      assert [] + [ERROR_PREFIX] == [ERROR_PREFIX];
      PushPiece(buf, Some(" "), [ERROR_PREFIX]);
      assert [ERROR_PREFIX] + [" "] == [ERROR_PREFIX, " "];
      PushPiece(buf, msg, [ERROR_PREFIX, " "]);
    }

    method PushAll(buf: Buffer, msg: Option<string>, path: Option<string>, argvIn: Option<seq<string>>)
      requires Valid() && Texted(buf, "")
      requires NullOrCString(msg) && NullOrCString(path)
      requires argvIn.Some? ==> AllCStrings(argvIn.value) && argvIn.value != []
      modifies buf, area
      ensures Valid() && Texted(buf, Greedy("", Pieces(msg, path, argvIn), Room()))
    {
      PushCause(buf, msg);
      ghost var cause := [ERROR_PREFIX, " "] + Piece(msg);
      PushPiece(buf, Some(IN_EXECUTING), cause);
      PushPiece(buf, path, cause + [IN_EXECUTING]);
      ghost var named := cause + [IN_EXECUTING] + Piece(path);
      if argvIn.Some? {
        PushArgs(buf, argvIn.value, named);
      } else {
        assert named + [] == named;
      }
    }

    /** The pointers of a command with one text behind the head. */
    method PointAtText(ghost text: string)
      requires Valid() && CString(text) && |text| < Room()
      requires area[appendPtr.value..appendPtr.value + |text| + 1] == text + "\0"
      modifies this`appendArgvPtr, argv
      ensures Laid(Head(), area[..], argv[..]) && Read() == Head() + [text]
    {
      ghost var before := argv[..];
      LaidSnoc(Head(), text, area[..], area[..], before);
      argv[appendArgvPtr] := appendPtr;
      appendArgvPtr := appendArgvPtr + 1;
      assert argv[..] == before[3 := appendPtr];
      CloseCommand([text]);
    }

    /** The text with its NUL behind the head, when there is room. */
    method CloseText(buf: Buffer, ghost text: string) returns (ok: bool)
      requires Valid() && Texted(buf, text)
      modifies buf, area
      ensures Valid() && ok == (|text| < Room())
      ensures ok ==> area[appendPtr.value..appendPtr.value + |text| + 1] == text + "\0"
    {
      ghost var before, at := area[..], appendPtr.value;
      var res := buf.Store(Some(""));
      assert area[..][..at + |text|] == before[..at + |text|];
      assert area[..][..at] == before[..at];
      assert area[..][at..at + |text|] == before[at..at + |text|] == text;
      ok := res.Some?;
    }

    /** The error form, whatever has room. The head and both append pointers stay as they are. */
    method ErrorStr(msg: Option<string>, path: Option<string>, argvIn: Option<seq<string>>) returns (built: Built)
      requires Valid() && NullOrCString(msg) && NullOrCString(path)
      requires argvIn.Some? ==> AllCStrings(argvIn.value) && argvIn.value != []
      modifies this`appendPtr, this`appendArgvPtr, area, argv
      ensures Valid() && IsError(built, msg, path, argvIn)
      ensures built.Given? ==> built.path == path && built.argv == argvIn
    {
      var argvBackup, ptrBackup := appendArgvPtr, appendPtr;
      var buf := new Buffer(area, appendPtr.value, BUF_SIZE);
      PushAll(buf, msg, path, argvIn);
      ghost var text := Greedy("", Pieces(msg, path, argvIn), Room());
      var res := CloseText(buf, text);
      if !res {
        appendArgvPtr := argvBackup;
        appendPtr := ptrBackup;
        return Given(path, argvIn);
      }
      PiecesAreCStrings(msg, path, argvIn);
      GreedyCString("", Pieces(msg, path, argvIn), Room());
      PointAtText(text);
      appendArgvPtr := argvBackup;
      appendPtr := ptrBackup;
      built := Ours;
    }

    // ---------------------------------------------------------- the proxy command

    /** Strings laid behind the head while a command is built. */
    ghost predicate Building(buf: Buffer, words: seq<string>)
      reads this, area, argv, buf
    {
      && area.Length == BUF_SIZE && argv.Length == MAX_ARGC
      && buf.Valid() && buf.area == area && buf.end == BUF_SIZE
      && Laid(Head() + words, area[..], argv[..])
      && buf.top == |Closed(Head() + words)| && appendArgvPtr == |Head() + words|
    }

    method StoreWord(buf: Buffer, str: Option<string>, ghost words: seq<string>) returns (ok: bool)
      requires Building(buf, words) && NullOrCString(str)
      modifies this`appendArgvPtr, buf, area, argv
      ensures ok == (str.Some? && Fits(Head() + (words + [str.value])))
      ensures Building(buf, if ok then words + [str.value] else words)
    {
      if str.Some? { ConcatAssoc(Head(), words, [str.value]); }
      var stored := StoreArg(buf, str, Head() + words);
      ok := stored != None;
    }

    /** The caller's words but the first, behind those laid. */
    method StoreArgs(buf: Buffer, argvIn: seq<string>, ghost first: seq<string>)
      returns (ok: bool, ghost words: seq<string>)
      requires Building(buf, first) && Fits(Head() + first) && AllCStrings(argvIn) && argvIn != []
      modifies this`appendArgvPtr, buf, area, argv
      ensures Building(buf, words)
      ensures ok == Fits(Head() + (first + argvIn[1..]))
      ensures ok ==> words == first + argvIn[1..]
    {
      words := first;
      assert argvIn[1..][..0] == [] && words + [] == words;
      for i := 1 to |argvIn|
        invariant words == first + argvIn[1..][..i - 1]
        invariant Building(buf, words) && Fits(Head() + words)
      {
        WordsSnoc(first, argvIn, i);
        assert argvIn[i] in argvIn;
        ok := StoreWord(buf, Some(argvIn[i]), words);
        if !ok {
          Overflows(words + [argvIn[i]], argvIn[i + 1..], first + argvIn[1..]);
          return;
        }
        words := words + [argvIn[i]];
      }
      assert argvIn[1..][..|argvIn| - 1] == argvIn[1..];
      ok := true;
    }

    lemma WordsSnoc(first: seq<string>, argvIn: seq<string>, i: nat)
      requires 1 <= i < |argvIn|
      ensures first + argvIn[1..][..i - 1] + [argvIn[i]] == first + argvIn[1..][..i]
      ensures first + argvIn[1..][..i - 1] + [argvIn[i]] + argvIn[i + 1..] == first + argvIn[1..]
    {
      assert argvIn[1..] == argvIn[1..][..i] + argvIn[i + 1..];
    }

    method StoreWords(buf: Buffer, path: Option<string>, argvIn: seq<string>)
      returns (ok: bool, ghost words: seq<string>)
      requires Building(buf, []) && NullOrCString(path) && AllCStrings(argvIn) && argvIn != []
      modifies this`appendArgvPtr, buf, area, argv
      ensures Building(buf, words)
      ensures ok == (path.Some? && Fits(Head() + (["--", path.value] + argvIn[1..])))
      ensures ok ==> words == ["--", path.value] + argvIn[1..]
    {
      words := [];
      ok := StoreWord(buf, Some("--"), words);
      assert [] + ["--"] == ["--"];
      if !ok {
        if path.Some? { Overflows(["--"], [path.value] + argvIn[1..], ["--", path.value] + argvIn[1..]); }
        return;
      }
      words := ["--"];
      ok := StoreWord(buf, path, words);
      assert path.Some? ==> ["--"] + [path.value] == ["--", path.value];
      if !ok {
        if path.Some? { Overflows(["--", path.value], argvIn[1..], ["--", path.value] + argvIn[1..]); }
        return;
      }
      ok, words := StoreArgs(buf, argvIn, ["--", path.value]);
    }

    lemma Overflows(words: seq<string>, more: seq<string>, all: seq<string>)
      requires words + more == all && !Fits(Head() + words)
      ensures !Fits(Head() + all)
    {
      ConcatAssoc(Head(), words, more);
      if Fits(Head() + words + more) {
        FitsPrefix(Head() + words, more);
      }
    }

    /** The null pointer behind the words laid. */
    method CloseCommand(ghost words: seq<string>)
      requires argv.Length == MAX_ARGC && appendArgvPtr == |Head() + words| < MAX_ARGC
      requires AllCStrings(Head() + words) && Laid(Head() + words, area[..], argv[..])
      modifies this`appendArgvPtr, argv
      ensures Laid(Head(), area[..], argv[..]) && Read() == Head() + words
    {
      ghost var before := argv[..];
      argv[appendArgvPtr] := None;
      assert forall j :: 0 <= j < |Head() + words| ==> argv[..][j] == before[j];
      appendArgvPtr := appendArgvPtr + 1;
      LaidPrefix(Head(), words, area[..], argv[..]);
      ReadsBack(Head() + words);
    }

    method Rollback(argvBackup: nat, ptrBackup: Pointer, path: Option<string>) returns (built: Built)
      requires area.Length == BUF_SIZE && argv.Length == MAX_ARGC && executablePathPtr == Some(0)
      requires AllCStrings(Head()) && Laid(Head(), area[..], argv[..]) && NullOrCString(path)
      requires argvBackup == 3 && ptrBackup == Some(|Closed(Head())|) && |Closed(Head())| < BUF_SIZE
      modifies this`appendPtr, this`appendArgvPtr, area, argv
      ensures Valid() && IsError(built, Some(OVERFLOW), path, None)
      ensures built.Given? ==> built.path == path && built.argv == None
    {
      appendArgvPtr := argvBackup;
      appendPtr := ptrBackup;
      built := ErrorStr(Some(OVERFLOW), path, None);
    }

    /** The command with the caller's words. It is built exactly when there is a path and they fit, and read back as
        they are; otherwise the error form is. The head and both append pointers stay as they are. */
    method ProxyStr(path: Option<string>, argvIn: seq<string>) returns (built: Built)
      requires Valid() && NullOrCString(path) && AllCStrings(argvIn) && argvIn != []
      modifies this`appendPtr, this`appendArgvPtr, area, argv
      ensures Valid()
      ensures if path.Some? && Fits(Head() + (["--", path.value] + argvIn[1..])) then
          built == Ours && Read() == Head() + (["--", path.value] + argvIn[1..])
        else IsError(built, Some(OVERFLOW), path, None)
      ensures built.Given? ==> built.path == path && built.argv == None
    {
      var argvBackup, ptrBackup := appendArgvPtr, appendPtr;
      var buf := new Buffer(area, appendPtr.value, BUF_SIZE);
      assert Head() + [] == Head();
      ghost var words;
      var ok;
      ok, words := StoreWords(buf, path, argvIn);
      LaidPrefix(Head(), words, area[..], argv[..]);
      if !ok {
        built := Rollback(argvBackup, ptrBackup, path);
        return;
      }
      CloseCommand(words);
      appendArgvPtr := argvBackup;
      appendPtr := ptrBackup;
      built := Ours;
    }
  }
}
