/** Building a Windows command line (src/catter-hook/win/impl.cc), and the C runtime's rules for taking
    it apart, as Microsoft documents them under "Parsing C command-line arguments". */
module WinCommandLine {
  import opened Util

  function Backslashes(n: nat): (r: string)
    ensures |r| == n && forall k :: 0 <= k < n ==> r[k] == '\\'
  {
    seq(n, _ => '\\')
  }

  // ------------------------------------------------------------ quoting

  predicate NeedsQuotes(c: char) {
    c == ' ' || c == '\t' || c == '\n' || c == '\U{000B}' || c == '"'
  }

  predicate IsPlain(arg: string) {
    forall k :: 0 <= k < |arg| ==> !NeedsQuotes(arg[k])
  }

  /** The inside of a quoted argument, with `n` backslashes read but not yet written. */
  function Body(s: string, n: nat): string {
    if s == "" then Backslashes(2 * n)
    else if s[0] == '\\' then Body(s[1..], n + 1)
    else if s[0] == '"' then Backslashes(2 * n + 1) + ['"'] + Body(s[1..], 0)
    else Backslashes(n) + [s[0]] + Body(s[1..], 0)
  }

  function Quote(arg: string): string {
    if IsPlain(arg) then arg else ['"'] + Body(arg, 0) + ['"']
  }

  function Tail(args: seq<string>): string {
    if args == [] then "" else " " + Quote(args[0]) + Tail(args[1..])
  }

  function Cmdline(exe: string, args: seq<string>): string {
    Quote(exe) + Tail(args)
  }

  predicate AllPlain(args: seq<string>) { forall k :: 0 <= k < |args| ==> IsPlain(args[k]) }

  /** What needs no quotes is put down with one blank between. */
  lemma {:induction false} PlainIsJoined(exe: string, args: seq<string>)
    requires IsPlain(exe) && AllPlain(args)
    ensures Cmdline(exe, args) == Join([exe] + args, ' ')
    decreases |args|
  {
    if args == [] {
      assert exe + "" == exe;
    } else {
      assert args == [args[0]] + args[1..];
      PlainIsJoined(args[0], args[1..]);
      OneMore(exe, args);
    }
  }

  lemma OneMore(exe: string, args: seq<string>)
    requires args != [] && IsPlain(exe) && IsPlain(args[0]) && Cmdline(args[0], args[1..]) == Join(args, ' ')
    ensures Cmdline(exe, args) == Join([exe] + args, ' ')
  {
    assert ([exe] + args)[1..] == args;
    ConcatAssoc(" ", args[0], Tail(args[1..]));
    ConcatAssoc(exe, [' '], Join(args, ' '));
  }

  lemma {:induction false} BodyIsNoShorter(s: string, n: nat)
    ensures |Body(s, n)| >= |s| + n
  {
    if s != "" {
      BodyIsNoShorter(s[1..], if s[0] == '\\' then n + 1 else 0);
    }
  }

  /** An argument is left as it is exactly when it has no blank, tab, line feed, vertical tab or quote; otherwise it
      is put in quotes. */
  lemma QuoteLeaves(arg: string)
    ensures Quote(arg) == arg <==> forall c :: c in arg ==> c !in " \t\n\U{000B}\""
    ensures Quote(arg) != arg ==>
      |Quote(arg)| >= |arg| + 2 && Quote(arg)[0] == '"' && Quote(arg)[|Quote(arg)| - 1] == '"'
  {
    BodyIsNoShorter(arg, 0);
    assert forall c :: c in " \t\n\U{000B}\"" <==> NeedsQuotes(c);
  }

  method QuoteWin32Arg(arg: string) returns (quoted: string)
    ensures quoted == Quote(arg)
  {
    if IsPlain(arg) {
      return arg;
    }
    quoted := ['"'];
    ghost var all := ['"'] + Body(arg, 0);
    var i := 0;
    while true
      invariant 0 <= i <= |arg|
      invariant all == quoted + Body(arg[i..], 0)
      decreases |arg| - i
    {
      var n := 0;
      while i < |arg| && arg[i] == '\\'
        invariant 0 <= i <= |arg|
        invariant all == quoted + Body(arg[i..], n)
        decreases |arg| - i
      {
        assert arg[i..][1..] == arg[i + 1..];
        i, n := i + 1, n + 1;
      }
      if i == |arg| {
        quoted := quoted + Backslashes(n * 2);
        break;
      }
      BodyStep(quoted, arg, i, n);
      if arg[i] == '"' {
        quoted := quoted + Backslashes(n * 2 + 1) + ['"'];
      } else {
        quoted := quoted + Backslashes(n) + [arg[i]];
      }
      i := i + 1;
    }
    quoted := quoted + ['"'];
  }

  lemma BodyStep(quoted: string, arg: string, i: nat, n: nat)
    requires i < |arg| && arg[i] != '\\'
    ensures quoted + Body(arg[i..], n) ==
            quoted + Backslashes(if arg[i] == '"' then 2 * n + 1 else n) + [arg[i]] + Body(arg[i + 1..], 0)
  {
    assert arg[i..][1..] == arg[i + 1..];
    var b := Backslashes(if arg[i] == '"' then 2 * n + 1 else n);
    assert Body(arg[i..], n) == b + [arg[i]] + Body(arg[i + 1..], 0);
  }

  method CmdlineOf(exe: string, args: seq<string>) returns (full: string)
    ensures full == Cmdline(exe, args)
  {
    full := QuoteWin32Arg(exe);
    for i := 0 to |args|
      invariant Cmdline(exe, args) == full + Tail(args[i..])
    {
      var quoted := QuoteWin32Arg(args[i]);
      assert args[i..][1..] == args[i + 1..];
      assert Tail(args[i..]) == " " + quoted + Tail(args[i + 1..]);
      full := full + (" " + quoted);
    }
  }

  // ------------------------------------------------------------ the C runtime's reading

  predicate IsBlank(c: char) { c == ' ' || c == '\t' }

  /** The program name: quotes only switch blanks on and off, backslashes mean nothing, and the blank
      that ends the name is consumed. */
  function Program(s: string, inQuotes: bool): (string, string) {
    if s == "" then ("", "")
    else if s[0] == '"' then Program(s[1..], !inQuotes)
    else if !inQuotes && IsBlank(s[0]) then ("", s[1..])
    else
      var (name, rest) := Program(s[1..], inQuotes);
      ([s[0]] + name, rest)
  }

  /** One argument, with `n` backslashes read but not yet understood: 2n of them before a quote are n and
      the quote switches, 2n+1 are n and the quote is literal, elsewhere they are themselves; a doubled
      quote inside quotes is one literal quote. */
  function Argument(s: string, n: nat, inQuotes: bool): (r: (string, string))
    ensures |r.1| <= |s|
    decreases |s|
  {
    if s == "" then (Backslashes(n), "")
    else if s[0] == '\\' then Argument(s[1..], n + 1, inQuotes)
    else if s[0] == '"' then
      if n % 2 == 1 then
        var (a, rest) := Argument(s[1..], 0, inQuotes);
        (Backslashes(n / 2) + ['"'] + a, rest)
      else if inQuotes && |s| > 1 && s[1] == '"' then
        var (a, rest) := Argument(s[2..], 0, inQuotes);
        (Backslashes(n / 2) + ['"'] + a, rest)
      else
        var (a, rest) := Argument(s[1..], 0, !inQuotes);
        (Backslashes(n / 2) + a, rest)
    else if !inQuotes && IsBlank(s[0]) then (Backslashes(n), s)
    else
      var (a, rest) := Argument(s[1..], 0, inQuotes);
      (Backslashes(n) + [s[0]] + a, rest)
  }

  lemma ArgumentMoves(s: string)
    requires s != "" && !IsBlank(s[0])
    ensures |Argument(s, 0, false).1| < |s|
  {
  }

  function Arguments(s: string): seq<string>
    decreases |s|
  {
    if s == "" then []
    else if IsBlank(s[0]) then Arguments(s[1..])
    else
      ArgumentMoves(s);
      var (a, rest) := Argument(s, 0, false);
      [a] + Arguments(rest)
  }

  /** argv, as the program receives it. */
  function Argv(cmdline: string): seq<string> {
    var (name, rest) := Program(cmdline, false);
    [name] + Arguments(rest)
  }

  // ------------------------------------------------------------ one argument

  predicate EndsArgument(tail: string) { tail == "" || tail[0] == ' ' }

  lemma {:induction false} ReadBackslashes(k: nat, s: string, n: nat, inQuotes: bool)
    ensures Argument(Backslashes(k) + s, n, inQuotes) == Argument(s, n + k, inQuotes)
    decreases k
  {
    if k == 0 {
      assert Backslashes(0) + s == s;
    } else {
      assert (Backslashes(k) + s)[1..] == Backslashes(k - 1) + s;
      ReadBackslashes(k - 1, s, n + 1, inQuotes);
    }
  }

  lemma BackslashesSnoc(n: nat)
    ensures Backslashes(n + 1) == Backslashes(n) + ['\\']
  {
  }

  lemma {:induction false} ReadPlain(a: string, n: nat, tail: string)
    requires IsPlain(a) && EndsArgument(tail)
    ensures Argument(a + tail, n, false) == (Backslashes(n) + a, tail)
    decreases |a|
  {
    if a == "" {
      assert a + tail == tail && Backslashes(n) + a == Backslashes(n);
    } else {
      assert (a + tail)[1..] == a[1..] + tail;
      assert !NeedsQuotes(a[0]);
      if a[0] == '\\' {
        ReadPlain(a[1..], n + 1, tail);
        BackslashesSnoc(n);
        assert Backslashes(n) + a == Backslashes(n + 1) + a[1..];
      } else {
        ReadPlain(a[1..], 0, tail);
        assert Backslashes(n) + [a[0]] + (Backslashes(0) + a[1..]) == Backslashes(n) + a;
      }
    }
  }

  lemma Regroup(a: string, b: string, c: string, d: string)
    ensures (a + b + c) + d == a + (b + (c + d))
  {
  }

  lemma {:induction false} ReadBody(s: string, n: nat, tail: string)
    requires EndsArgument(tail)
    ensures Argument(Body(s, n) + (['"'] + tail), 0, true) == (Backslashes(n) + s, tail)
    decreases |s|
  {
    var closed := ['"'] + tail;
    if s == "" {
      ReadBackslashes(2 * n, closed, 0, true);
      CloseQuote(n, tail);
      assert Backslashes(n) + s == Backslashes(n);
    } else if s[0] == '\\' {
      ReadBody(s[1..], n + 1, tail);
      BackslashesSnoc(n);
      assert Backslashes(n) + s == Backslashes(n + 1) + s[1..];
    } else {
      ReadBody(s[1..], 0, tail);
      BodyLiteral(s, n, closed);
      Rejoin(n, s);
    }
  }

  lemma BodyLiteral(s: string, n: nat, closed: string)
    requires s != "" && s[0] != '\\'
    ensures var (a, after) := Argument(Body(s[1..], 0) + closed, 0, true);
            Argument(Body(s, n) + closed, 0, true) == (Backslashes(n) + [s[0]] + a, after)
  {
    var k := if s[0] == '"' then 2 * n + 1 else n;
    var rest := Body(s[1..], 0) + closed;
    Regroup(Backslashes(k), [s[0]], Body(s[1..], 0), closed);
    ReadBackslashes(k, [s[0]] + rest, 0, true);
    ReadLiteral(s[0], rest, n, k);
  }

  lemma Rejoin(n: nat, s: string)
    requires s != ""
    ensures Backslashes(n) + [s[0]] + (Backslashes(0) + s[1..]) == Backslashes(n) + s
  {
  }

  lemma CloseQuote(n: nat, tail: string)
    requires EndsArgument(tail)
    ensures Argument(['"'] + tail, 2 * n, true) == (Backslashes(n), tail)
  {
    assert (['"'] + tail)[1..] == tail;
    assert Argument(tail, 0, false) == ("", tail);
    assert Backslashes(n) + "" == Backslashes(n);
  }

  lemma ReadLiteral(c: char, rest: string, n: nat, k: nat)
    requires c != '\\' && k == (if c == '"' then 2 * n + 1 else n)
    ensures var (a, after) := Argument(rest, 0, true);
            Argument([c] + rest, k, true) == (Backslashes(n) + [c] + a, after)
  {
    assert ([c] + rest)[1..] == rest;
  }

  /** What quoting does to one argument, reading undoes, whatever comes behind it. */
  lemma ReadQuote(a: string, tail: string)
    requires EndsArgument(tail)
    ensures Argument(Quote(a) + tail, 0, false) == (a, tail)
  {
    if IsPlain(a) {
      ReadPlain(a, 0, tail);
      assert Backslashes(0) + a == a;
    } else {
      ReadBody(a, 0, tail);
      assert Backslashes(0) + a == a;
      OpenQuote(Body(a, 0) + (['"'] + tail));
      Regroup(['"'], Body(a, 0), ['"'], tail);
    }
  }

  lemma OpenQuote(inner: string)
    ensures Argument(['"'] + inner, 0, false) == Argument(inner, 0, true)
  {
    assert (['"'] + inner)[1..] == inner;
    var (x, rest) := Argument(inner, 0, true);
    assert Backslashes(0) + x == x;
  }

  lemma {:induction false} ReadTail(args: seq<string>)
    ensures EndsArgument(Tail(args))
    ensures Arguments(Tail(args)) == NonEmpty(args)
  {
    if args != [] {
      var a, tail := args[0], Tail(args[1..]);
      ReadTail(args[1..]);
      assert Tail(args) == " " + (Quote(a) + tail);
      assert Tail(args)[1..] == Quote(a) + tail;
      if a == "" {
        assert Quote(a) + tail == tail;
      } else {
        ReadQuote(a, tail);
        QuoteStartsArgument(a);
        assert (Quote(a) + tail)[0] == Quote(a)[0];
      }
    }
  }

  lemma QuoteStartsArgument(a: string)
    requires a != ""
    ensures Quote(a) != "" && !IsBlank(Quote(a)[0])
  {
    if IsPlain(a) { assert !NeedsQuotes(a[0]); }
  }

  // ------------------------------------------------------------ the program name

  /** How many backslashes close a string. */
  function Trailing(s: string): nat {
    if s == "" || s[|s| - 1] != '\\' then 0 else 1 + Trailing(s[..|s| - 1])
  }

  lemma {:induction false} ProgramPlain(exe: string, tail: string)
    requires IsPlain(exe) && EndsArgument(tail)
    ensures Program(exe + tail, false) == (exe, if tail == "" then "" else tail[1..])
  {
    if exe == "" {
      assert exe + tail == tail;
    } else {
      assert !NeedsQuotes(exe[0]);
      assert (exe + tail)[1..] == exe[1..] + tail;
      ProgramPlain(exe[1..], tail);
      assert exe == [exe[0]] + exe[1..];
    }
  }

  lemma {:induction false} ProgramInQuotes(s: string, tail: string)
    requires forall k :: 0 <= k < |s| ==> s[k] != '"'
    requires EndsArgument(tail)
    ensures Program(s + (['"'] + tail), true) == (s, if tail == "" then "" else tail[1..])
  {
    if s == "" {
      assert (s + (['"'] + tail))[1..] == tail;
    } else {
      assert (s + (['"'] + tail))[1..] == s[1..] + (['"'] + tail);
      ProgramInQuotes(s[1..], tail);
      assert s == [s[0]] + s[1..];
    }
  }

  lemma {:induction false} BodyWithoutQuotes(s: string, n: nat)
    requires forall k :: 0 <= k < |s| ==> s[k] != '"'
    ensures Body(s, n) == (Backslashes(n) + s) + Backslashes(Trailing(Backslashes(n) + s))
    decreases |s|
  {
    if s == "" {
      TrailingOfBackslashes(n);
      assert Backslashes(n) + s == Backslashes(n);
      assert Backslashes(2 * n) == Backslashes(n) + Backslashes(n);
    } else if s[0] == '\\' {
      BodyWithoutQuotes(s[1..], n + 1);
      BackslashesSnoc(n);
      assert Backslashes(n) + s == Backslashes(n + 1) + s[1..];
    } else {
      BodyWithoutQuotes(s[1..], 0);
      assert Backslashes(0) + s[1..] == s[1..];
      TrailingBehindLetter(s, n);
    }
  }

  lemma TrailingBehindLetter(s: string, n: nat)
    requires s != "" && s[0] != '\\' && s[0] != '"'
    requires Body(s[1..], 0) == s[1..] + Backslashes(Trailing(s[1..]))
    ensures Body(s, n) == (Backslashes(n) + s) + Backslashes(Trailing(Backslashes(n) + s))
  {
    var head, rest := Backslashes(n) + [s[0]], s[1..];
    TrailingBehind(head, rest);
    HeadAndRest(Backslashes(n), s);
    ConcatAssoc(head, rest, Backslashes(Trailing(rest)));
  }

  lemma HeadAndRest(before: string, s: string)
    requires s != ""
    ensures before + s == before + [s[0]] + s[1..]
  {
  }

  lemma {:induction false} TrailingOfBackslashes(n: nat)
    ensures Trailing(Backslashes(n)) == n
  {
    if n > 0 {
      BackslashesSnoc(n - 1);
      assert Backslashes(n)[..n - 1] == Backslashes(n - 1);
      TrailingOfBackslashes(n - 1);
    }
  }

  lemma {:induction false} TrailingBehind(head: string, s: string)
    requires head != "" && head[|head| - 1] != '\\'
    ensures Trailing(head + s) == Trailing(s)
    decreases |s|
  {
    if s == "" {
      assert head + s == head;
    } else {
      assert (head + s)[..|head + s| - 1] == head + s[..|s| - 1];
      TrailingBehind(head, s[..|s| - 1]);
    }
  }

  lemma {:induction false} ProgramHasNoQuote(s: string, inQuotes: bool)
    ensures '"' !in Program(s, inQuotes).0
  {
    if s != "" {
      ProgramHasNoQuote(s[1..], inQuotes);
      ProgramHasNoQuote(s[1..], !inQuotes);
    }
  }

  /** The program names that quoting is safe for: those it leaves alone, and those without quotes that
      do not end in a backslash. */
  predicate SafeProgram(exe: string) {
    IsPlain(exe) || ('"' !in exe && exe[|exe| - 1] != '\\')
  }

  lemma ProgramName(exe: string, tail: string)
    requires EndsArgument(tail)
    ensures Program(Quote(exe) + tail, false).0 == exe <==> SafeProgram(exe)
    ensures SafeProgram(exe) ==> Program(Quote(exe) + tail, false).1 == if tail == "" then "" else tail[1..]
  {
    if IsPlain(exe) {
      ProgramPlain(exe, tail);
    } else if '"' in exe {
      ProgramHasNoQuote(Quote(exe) + tail, false);
    } else {
      QuotedName(exe, tail);
      assert exe + Backslashes(Trailing(exe)) == exe <==> Trailing(exe) == 0;
    }
  }

  lemma QuotedName(exe: string, tail: string)
    requires EndsArgument(tail) && !IsPlain(exe) && '"' !in exe
    ensures Program(Quote(exe) + tail, false)
         == (exe + Backslashes(Trailing(exe)), if tail == "" then "" else tail[1..])
  {
    BodyWithoutQuotes(exe, 0);
    assert Backslashes(0) + exe == exe;
    var inner := exe + Backslashes(Trailing(exe));
    Regroup(['"'], inner, ['"'], tail);
    assert (['"'] + (inner + (['"'] + tail)))[1..] == inner + (['"'] + tail);
    ProgramInQuotes(inner, tail);
  }

  /** Whatever the arguments, a safe program name and all non-empty arguments arrive as given. */
  lemma CmdlineKeepsNonEmpty(exe: string, args: seq<string>)
    requires SafeProgram(exe)
    ensures Argv(Cmdline(exe, args)) == [exe] + NonEmpty(args)
  {
    ReadTail(args);
    ProgramName(exe, Tail(args));
    if args != [] {
      assert Tail(args)[0] == ' ';
    }
  }

  /** Main result: the program receives exactly the command that was meant if and only if the program
      name is safe and no argument is empty. */
  lemma CmdlineExact(exe: string, args: seq<string>)
    ensures Argv(Cmdline(exe, args)) == [exe] + args <==> SafeProgram(exe) && [] !in args
  {
    ReadTail(args);
    ProgramName(exe, Tail(args));
    NonEmptyKeeps(args);
    if SafeProgram(exe) {
      CmdlineKeepsNonEmpty(exe, args);
      assert Argv(Cmdline(exe, args))[1..] == NonEmpty(args);
    } else {
      assert Argv(Cmdline(exe, args))[0] != exe;
    }
  }

  /** A program name without quotes that is put in quotes arrives with the backslashes at its end twice. */
  lemma QuotedProgram(exe: string)
    requires !IsPlain(exe) && '"' !in exe
    ensures Argv(Cmdline(exe, [])) == [exe + Backslashes(Trailing(exe))]
  {
    QuotedName(exe, "");
    NoArguments(exe);
  }

  lemma NoArguments(exe: string)
    ensures Cmdline(exe, []) == Quote(exe) + "" && Arguments("") == []
  {
  }

  /** A folder name with a blank and a closing backslash is such a program name. */
  lemma UnsafeProgram()
    ensures Argv(Cmdline("a b\\", [])) == ["a b\\\\"]
  {
    var exe := "a b\\";
    assert exe[1] == ' ' && NeedsQuotes(exe[1]);
    assert Trailing(exe) == 1 by { assert exe[..3] == "a b" && "a b"[2] == 'b'; }
    QuotedProgram(exe);
    assert exe + Backslashes(1) == "a b\\\\";
  }
}
