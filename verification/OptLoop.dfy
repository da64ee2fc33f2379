/** The whole ungrouped command line (src/common/option/opt_table.cc, internal_parse_args). */
module OptLoop {
  import opened Util
  import opened OptInfo
  import opened OptOrder
  import opened OptAccept
  import opened OptParse

  // ------------------------------------------------------------ the loop, over any step

  /** What a step makes of the words at a position: an argument or none, and the next position. */
  type Step = (seq<string>, nat) -> (Option<ParsedArg>, nat)

  ghost predicate Progresses(step: Step) {
    forall argv, i :: step(argv, i).1 > i
  }

  /** Where the loop leaves off: at the end, at the `--` that closes option parsing, at an option that
      misses a value, with the position the step left behind, or at an exception (grouped mode only). */
  datatype Stop = AtEnd | AtDashDash(at: nat) | AtMissing(at: nat, next: nat) | AtThrow(at: nat)

  datatype Walked = Walked(args: seq<ParsedArg>, stop: Stop)

  predicate ClosesOptions(dashDash: bool, word: string) {
    dashDash && word == "--"
  }

  /** The loop from position `i` on. */
  function Walk(dashDash: bool, step: Step, argv: seq<string>, i: nat): (w: Walked)
    requires Progresses(step)
    ensures match w.stop
            case AtEnd => true
            case AtDashDash(at) => i <= at < |argv| && ClosesOptions(dashDash, argv[at])
            case AtMissing(at, next) => i <= at < |argv| && step(argv, at) == (None, next) && at < next
            case AtThrow(_) => false
    decreases |argv| - i
  {
    if i >= |argv| then Walked([], AtEnd)
    else if argv[i] == "" then Walk(dashDash, step, argv, i + 1)
    else if ClosesOptions(dashDash, argv[i]) then Walked([], AtDashDash(i))
    else
      var (a, next) := step(argv, i);
      if a.None? then Walked([], AtMissing(i, next))
      else
        var rest := Walk(dashDash, step, argv, next);
        Walked([a.value] + rest.args, rest.stop)
  }

  function StopIndex(argv: seq<string>, stop: Stop): nat {
    match stop
    case AtEnd => |argv|
    case AtDashDash(at) => at
    case AtMissing(at, _) => at
    case AtThrow(at) => at
  }

  // ------------------------------------------------------------ tiling

  predicate AllEmpty(argv: seq<string>, lo: nat, hi: nat)
    requires hi <= |argv|
  {
    forall k :: lo <= k < hi ==> argv[k] == ""
  }

  /** The arguments cover `argv[i..j]` one after the other; between them lie only empty words. */
  ghost predicate Tiles(infos: seq<Info>, argv: seq<string>, i: nat, args: seq<ParsedArg>, j: nat)
    requires j <= |argv|
    decreases |args|
  {
    if args == [] then i <= j && AllEmpty(argv, i, j)
    else
      var b := args[0].index;
      && i <= b < j
      && AllEmpty(argv, i, b)
      && exists e :: b < e <= j && CoversWords(infos, args[0], argv[b..e]) && Tiles(infos, argv, e, args[1..], j)
  }

  /** A step that emits an argument emits one for exactly the words it moves over. */
  ghost predicate StepCovers(infos: seq<Info>, step: Step) {
    forall argv: seq<string>, i: nat :: i < |argv| ==> CoversAt(infos, argv, i, step(argv, i))
  }

  predicate CoversAt(infos: seq<Info>, argv: seq<string>, i: nat, r: (Option<ParsedArg>, nat))
    requires i < |argv|
  {
    r.0.Some? ==> i < r.1 <= |argv| && r.0.value.index == i && CoversWords(infos, r.0.value, argv[i..r.1])
  }

  lemma TilesAfterEmpty(infos: seq<Info>, argv: seq<string>, i: nat, args: seq<ParsedArg>, j: nat)
    requires i < j <= |argv| && argv[i] == "" && Tiles(infos, argv, i + 1, args, j)
    ensures Tiles(infos, argv, i, args, j)
  {
  }

  lemma TilesCons(infos: seq<Info>, argv: seq<string>, a: ParsedArg, next: nat, rest: seq<ParsedArg>, j: nat)
    requires a.index < next <= j <= |argv| && CoversWords(infos, a, argv[a.index..next])
    requires Tiles(infos, argv, next, rest, j)
    ensures Tiles(infos, argv, a.index, [a] + rest, j)
  {
    assert ([a] + rest)[1..] == rest;
  }

  lemma {:induction false} WalkTiles(infos: seq<Info>, dashDash: bool, step: Step, argv: seq<string>, i: nat)
    requires Progresses(step) && StepCovers(infos, step) && i <= |argv|
    ensures var w := Walk(dashDash, step, argv, i);
            var j := StopIndex(argv, w.stop);
            i <= j <= |argv| && Tiles(infos, argv, i, w.args, j)
    decreases |argv| - i
  {
    var w := Walk(dashDash, step, argv, i);
    var j := StopIndex(argv, w.stop);
    if i < |argv| {
      if argv[i] == "" {
        WalkTiles(infos, dashDash, step, argv, i + 1);
        TilesAfterEmpty(infos, argv, i, w.args, j);
      } else if !ClosesOptions(dashDash, argv[i]) {
        var (a, next) := step(argv, i);
        if a.Some? {
          WalkTiles(infos, dashDash, step, argv, next);
          TilesCons(infos, argv, a.value, next, Walk(dashDash, step, argv, next).args, j);
        }
      }
    }
  }

  /** Where no word is empty there are no gaps. */
  lemma TilesWithoutGaps(infos: seq<Info>, argv: seq<string>, i: nat, args: seq<ParsedArg>, j: nat)
    requires j <= |argv| && Tiles(infos, argv, i, args, j)
    requires forall k :: i <= k < j ==> argv[k] != ""
    ensures args == [] ==> i == j
    ensures args != [] ==> args[0].index == i
  {
    assert i < j ==> argv[i] != "";
  }

  // ------------------------------------------------------------ what is emitted depends on what was read

  /** Cutting the command line off behind the words a step moved over changes nothing of the step. */
  ghost predicate StepLocal(step: Step) {
    forall argv: seq<string>, i: nat, j: nat :: i < j <= |argv| && step(argv, i).0.Some? && step(argv, i).1 <= j
      ==> step(argv[..j], i) == step(argv, i)
  }

  /** The loop that starts at `i` comes to stand at `j`. */
  ghost predicate Reaches(dashDash: bool, step: Step, argv: seq<string>, i: nat, j: nat)
    requires Progresses(step) && j <= |argv|
    decreases |argv| - i
  {
    if i >= j then i == j
    else if argv[i] == "" then Reaches(dashDash, step, argv, i + 1, j)
    else
      && !ClosesOptions(dashDash, argv[i])
      && var (a, next) := step(argv, i);
         a.Some? && next <= j && Reaches(dashDash, step, argv, next, j)
  }

  /** Main result: whenever the loop stands at `j`, what it has emitted is the parse of the words
      before `j` alone, and what it will emit is the parse from `j` on. */
  lemma {:induction false} WalkSplits(dashDash: bool, step: Step, argv: seq<string>, i: nat, j: nat)
    requires Progresses(step) && StepLocal(step) && j <= |argv| && Reaches(dashDash, step, argv, i, j)
    ensures Walk(dashDash, step, argv[..j], i).stop == AtEnd
    ensures var after := Walk(dashDash, step, argv, j);
            Walk(dashDash, step, argv, i) == Walked(Walk(dashDash, step, argv[..j], i).args + after.args, after.stop)
    decreases |argv| - i
  {
    var after := Walk(dashDash, step, argv, j);
    if i < j {
      assert argv[..j][i] == argv[i];
      if argv[i] == "" {
        WalkSplits(dashDash, step, argv, i + 1, j);
      } else {
        var (a, next) := step(argv, i);
        assert step(argv[..j], i) == step(argv, i);
        WalkSplits(dashDash, step, argv, next, j);
        ConcatAssoc([a.value], Walk(dashDash, step, argv[..j], next).args, after.args);
      }
    }
  }

  lemma {:induction false} StopIsReached(infos: seq<Info>, dashDash: bool, step: Step, argv: seq<string>, i: nat)
    requires Progresses(step) && StepCovers(infos, step) && i <= |argv|
    ensures var j := StopIndex(argv, Walk(dashDash, step, argv, i).stop);
            i <= j <= |argv| && Reaches(dashDash, step, argv, i, j)
    decreases |argv| - i
  {
    if i < |argv| {
      if argv[i] == "" {
        StopIsReached(infos, dashDash, step, argv, i + 1);
      } else if !ClosesOptions(dashDash, argv[i]) {
        var (a, next) := step(argv, i);
        if a.Some? {
          StopIsReached(infos, dashDash, step, argv, next);
        }
      }
    }
  }

  /** Steps that agree wherever the loop takes one walk alike. */
  lemma {:induction false} SameSteps(dashDash: bool, s: Step, r: Step, argv: seq<string>, i: nat)
    requires Progresses(s) && Progresses(r)
    requires forall k: nat :: k < |argv| && !ClosesOptions(dashDash, argv[k]) ==> s(argv, k) == r(argv, k)
    ensures Walk(dashDash, s, argv, i) == Walk(dashDash, r, argv, i)
    decreases |argv| - i
  {
    if i < |argv| && !ClosesOptions(dashDash, argv[i]) {
      SameSteps(dashDash, s, r, argv, i + 1);
      if s(argv, i).0.Some? {
        SameSteps(dashDash, s, r, argv, s(argv, i).1);
      }
    }
  }

  // ------------------------------------------------------------ the loop of the option table

  function StepOf(t: Table, exclude: Filter): Step
    requires t.WellFormed()
  {
    (argv: seq<string>, i: nat) => if i < |argv| then ParseOne(t, argv, i, exclude) else (None, i + 1)
  }

  lemma StepOfProgresses(t: Table, exclude: Filter)
    requires t.WellFormed()
    ensures Progresses(StepOf(t, exclude))
  {
    forall argv: seq<string>, i: nat ensures StepOf(t, exclude)(argv, i).1 > i {
      if i < |argv| { assert ParseOne(t, argv, i, exclude).1 > i; }
    }
  }

  lemma StepOfCovers(t: Table, exclude: Filter)
    requires t.WellFormed()
    ensures StepCovers(t.infos, StepOf(t, exclude))
  {
    var step := StepOf(t, exclude);
    forall argv: seq<string>, i: nat | i < |argv| ensures CoversAt(t.infos, argv, i, step(argv, i)) {
      ParseOneCovers(t, argv, i, exclude);
    }
  }

  lemma ParseOneCovers(t: Table, argv: seq<string>, i: nat, exclude: Filter)
    requires t.WellFormed() && i < |argv|
    ensures CoversAt(t.infos, argv, i, StepOf(t, exclude)(argv, i))
  {
    ParseOneOutcome(t, argv, i, exclude);
    var r := ParseOne(t, argv, i, exclude);
    assert StepOf(t, exclude)(argv, i) == r;
  }

  lemma StepOfLocal(t: Table, exclude: Filter)
    requires t.WellFormed()
    ensures StepLocal(StepOf(t, exclude))
  {
    var step := StepOf(t, exclude);
    forall argv: seq<string>, i: nat, j: nat | i < j <= |argv| && step(argv, i).0.Some? && step(argv, i).1 <= j
      ensures step(argv[..j], i) == step(argv, i)
    {
      StepOfLocalAt(t, exclude, argv, i, j);
    }
  }

  lemma StepOfLocalAt(t: Table, exclude: Filter, argv: seq<string>, i: nat, j: nat)
    requires t.WellFormed() && i < j <= |argv|
    requires var (a, next) := StepOf(t, exclude)(argv, i); a.Some? && next <= j
    ensures StepOf(t, exclude)(argv[..j], i) == StepOf(t, exclude)(argv, i)
  {
    var r := ParseOne(t, argv, i, exclude);
    assert StepOf(t, exclude)(argv, i) == r;
    ParseOnePrefix(t, argv, i, exclude, j);
  }

  lemma {:induction false} RemainingPrefix(args: seq<string>, i: nat, j: nat)
    requires i <= |args| && i + |Remaining(args, i)| <= j <= |args|
    ensures Remaining(args[..j], i) == Remaining(args, i)
    decreases |args| - i
  {
    if i < |args| && args[i] != "" {
      RemainingPrefix(args, i + 1, j);
    }
  }

  lemma AcceptPrefix(info: Info, args: seq<string>, pre: seq<string>, spelling: string, index: nat)
    requires index < |pre| && |pre| <= |args| && pre == args[..|pre|] && spelling <= args[index] && Accepting(info.kind)
    requires var (a, next) := AcceptInternal(info, args, spelling, index); a.Some? && next <= |pre|
    ensures pre[index] == args[index]
    ensures AcceptInternal(info, pre, spelling, index) == AcceptInternal(info, args, spelling, index)
  {
    assert pre[index] == args[index];
    assert index + 1 < |pre| ==> pre[index + 1] == args[index + 1];
    match info.kind
    case MultiArgClass => AcceptMultiPrefix(info, args, pre, spelling, index);
    case RemainingArgsClass | RemainingArgsJoinedClass => AcceptRemainingPrefix(info, args, pre, spelling, index);
    case _ =>
  }

  lemma AcceptMultiPrefix(info: Info, args: seq<string>, pre: seq<string>, spelling: string, index: nat)
    requires index < |pre| <= |args| && pre == args[..|pre|] && spelling <= args[index] && info.kind.MultiArgClass?
    requires var (a, next) := AcceptInternal(info, args, spelling, index); a.Some? && next <= |pre|
    ensures AcceptInternal(info, pre, spelling, index) == AcceptInternal(info, args, spelling, index)
  {
    var n := index + 1 + info.numArgs;
    assert pre[index] == args[index];
    assert pre[index + 1..n] == args[index + 1..n];
  }

  lemma AcceptSameRest(info: Info, args: seq<string>, pre: seq<string>, spelling: string, index: nat)
    requires index < |pre| <= |args| && pre[index] == args[index] && spelling <= args[index]
    requires info.kind.RemainingArgsClass? || info.kind.RemainingArgsJoinedClass?
    requires Remaining(pre, index + 1) == Remaining(args, index + 1)
    ensures AcceptInternal(info, pre, spelling, index) == AcceptInternal(info, args, spelling, index)
  {
  }

  lemma AcceptRemainingPrefix(info: Info, args: seq<string>, pre: seq<string>, spelling: string, index: nat)
    requires index < |pre| <= |args| && pre == args[..|pre|] && spelling <= args[index]
    requires info.kind.RemainingArgsClass? || info.kind.RemainingArgsJoinedClass?
    requires var (a, next) := AcceptInternal(info, args, spelling, index); a.Some? && next <= |pre|
    ensures AcceptInternal(info, pre, spelling, index) == AcceptInternal(info, args, spelling, index)
  {
    assert pre[index] == args[index];
    RemainingPrefix(args, index + 1, |pre|);
    AcceptSameRest(info, args, pre, spelling, index);
  }

  lemma ConcludePrefix(t: Table, args: seq<string>, pre: seq<string>, index: nat, k: nat)
    requires t.WellFormed() && index < |pre| <= |args| && pre == args[..|pre|] && pre[index] == args[index]
    requires t.firstSearchableIndex <= k < |t.infos|
    requires MatchOpt(t.infos[k], args[index], t.ignoreCase) > 0
    requires !Refuses(t.infos[k].kind, MatchOpt(t.infos[k], args[index], t.ignoreCase) == |args[index]|)
    requires Accepting(t.infos[k].kind)
    requires
      var (a, next) := Conclude(t.infos, t.ignoreCase, t.inputOptionId, t.unknownOptionId, args, index, Some(k));
      a.Some? && next <= |pre|
    ensures Conclude(t.infos, t.ignoreCase, t.inputOptionId, t.unknownOptionId, pre, index, Some(k))
         == Conclude(t.infos, t.ignoreCase, t.inputOptionId, t.unknownOptionId, args, index, Some(k))
  {
    AcceptPrefix(t.infos[k], args, pre, args[index][..MatchOpt(t.infos[k], args[index], t.ignoreCase)], index);
  }

  lemma ParseOnePrefix(t: Table, args: seq<string>, index: nat, exclude: Filter, j: nat)
    requires t.WellFormed() && index < j <= |args|
    requires var (a, next) := ParseOne(t, args, index, exclude); a.Some? && next <= j
    ensures ParseOne(t, args[..j], index, exclude) == ParseOne(t, args, index, exclude)
  {
    var str, pre := args[index], args[..j];
    assert pre[index] == str;
    var c := Chosen(t.infos, t.ignoreCase, str, ScanStart(t, str), exclude);
    if !IsInput(t, str) && c.Some? {
      MatchedOptionAccepts(t, c.value, str);
      ConcludePrefix(t, args, pre, index, c.value);
    }
  }

  /** One positional argument per word from `from` on. */
  function Positional(inputId: nat, argv: seq<string>, from: nat): (r: seq<ParsedArg>)
    requires from <= |argv|
    ensures |r| == |argv| - from
    ensures forall k :: 0 <= k < |r| ==> r[k] == Plain(inputId, argv[from + k], [], from + k)
  {
    seq(|argv| - from, k requires 0 <= k < |argv| - from => Plain(inputId, argv[from + k], [], from + k))
  }

  /** What is delivered for the words behind the `--` at `at`. */
  function DashDashArgs(inputId: nat, asSinglePack: bool, argv: seq<string>, at: nat): seq<ParsedArg>
    requires at < |argv|
  {
    if asSinglePack then [Plain(inputId, "--", argv[at + 1..], at)] else Positional(inputId, argv, at + 1)
  }

  /** What the callback receives, the two counters, whether the loop's asserts hold and whether it
      ends in an exception. */
  datatype Run = Run(args: seq<ParsedArg>, missingIndex: nat, missingCount: nat, assertsHold: bool, thrown: bool)

  function Finish(inputId: nat, asSinglePack: bool, argv: seq<string>, w: Walked): Run
    requires w.stop.AtDashDash? ==> w.stop.at < |argv|
    requires w.stop.AtMissing? ==> w.stop.at < w.stop.next
  {
    match w.stop
    case AtEnd => Run(w.args, 0, 0, true, false)
    case AtDashDash(at) => Run(w.args + DashDashArgs(inputId, asSinglePack, argv, at), 0, 0, true, false)
    case AtMissing(at, next) => Run(w.args, at, next - at - 1, next >= |argv| && next - at - 1 != 0, false)
    case AtThrow(_) => Run(w.args, 0, 0, true, true)
  }

  function WalkOf(t: Table, argv: seq<string>, exclude: Filter): (w: Walked)
    requires t.WellFormed()
    ensures w.stop.AtDashDash? ==> w.stop.at < |argv|
    ensures w.stop.AtMissing? ==> w.stop.at < |argv| && w.stop.at < w.stop.next
  {
    StepOfProgresses(t, exclude);
    Walk(t.dashDashParsing, StepOf(t, exclude), argv, 0)
  }

  function Parse(t: Table, argv: seq<string>, exclude: Filter): Run
    requires t.WellFormed()
  {
    Finish(t.inputOptionId, t.dashDashAsSinglePack, argv, WalkOf(t, argv, exclude))
  }

  /** Main result: on every command line the emitted arguments tile the words in order, with no overlap
      and nothing but empty words left out, up to the end, the closing `--` or the option that misses
      its value. */
  lemma ParseTiles(t: Table, argv: seq<string>, exclude: Filter)
    requires t.WellFormed()
    ensures var w := WalkOf(t, argv, exclude);
            var j := StopIndex(argv, w.stop);
            && j <= |argv| && Tiles(t.infos, argv, 0, w.args, j) && w.args <= Parse(t, argv, exclude).args
            && (!w.stop.AtDashDash? ==> w.args == Parse(t, argv, exclude).args)
  {
    StepOfProgresses(t, exclude);
    StepOfCovers(t, exclude);
    WalkTiles(t.infos, t.dashDashParsing, StepOf(t, exclude), argv, 0);
  }

  /** The loop comes to stand at a word, ahead of an empty one that is not the last, and the option that takes it
      wants the next word. */
  ghost predicate WantsEmptyWord(t: Table, argv: seq<string>, exclude: Filter, at: nat)
    requires t.WellFormed()
  {
    StepOfProgresses(t, exclude);
    && at + 2 < |argv|
    && argv[at] != "" && !ClosesOptions(t.dashDashParsing, argv[at])
    && argv[at + 1] == ""
    && StepWantsNextWord(t, argv[at], exclude)
    && Reaches(t.dashDashParsing, StepOf(t, exclude), argv, 0, at)
  }

  /** A step that misses its value, where the loop comes to it, is where it stops. */
  lemma {:induction false} ReachedMissStops(dashDash: bool, step: Step, argv: seq<string>, i: nat, at: nat)
    requires Progresses(step) && at < |argv| && Reaches(dashDash, step, argv, i, at)
    requires argv[at] != "" && !ClosesOptions(dashDash, argv[at]) && step(argv, at).0.None?
    ensures Walk(dashDash, step, argv, i).stop == AtMissing(at, step(argv, at).1)
    decreases |argv| - i
  {
    if i < at {
      if argv[i] == "" {
        ReachedMissStops(dashDash, step, argv, i + 1, at);
      } else {
        ReachedMissStops(dashDash, step, argv, step(argv, i).1, at);
      }
    }
  }

  lemma {:induction false} StopWord(dashDash: bool, step: Step, argv: seq<string>, i: nat)
    requires Progresses(step)
    ensures var stop := Walk(dashDash, step, argv, i).stop;
      stop.AtMissing? ==> argv[stop.at] != "" && !ClosesOptions(dashDash, argv[stop.at])
    decreases |argv| - i
  {
    if i < |argv| {
      if argv[i] == "" {
        StopWord(dashDash, step, argv, i + 1);
      } else if !ClosesOptions(dashDash, argv[i]) && step(argv, i).0.Some? {
        StopWord(dashDash, step, argv, step(argv, i).1);
      }
    }
  }

  lemma WantingMisses(t: Table, argv: seq<string>, exclude: Filter, at: nat)
    requires t.WellFormed() && at + 2 < |argv| && argv[at + 1] == "" && StepWantsNextWord(t, argv[at], exclude)
    ensures StepMissesValue(t, argv, at, exclude)
    ensures StepOf(t, exclude)(argv, at) == (None, at + 2)
  {
    ParseOneOutcome(t, argv, at, exclude);
    MissingShort(t, argv, at, exclude);
  }

  lemma StopWantsEmptyWord(t: Table, argv: seq<string>, exclude: Filter)
    requires t.WellFormed() && WalkOf(t, argv, exclude).stop.AtMissing?
    requires var at := WalkOf(t, argv, exclude).stop.at;
      at + 2 < |argv| && argv[at + 1] == "" && StepWantsNextWord(t, argv[at], exclude)
    ensures WantsEmptyWord(t, argv, exclude, WalkOf(t, argv, exclude).stop.at)
  {
    StepOfProgresses(t, exclude);
    StepOfCovers(t, exclude);
    StopIsReached(t.infos, t.dashDashParsing, StepOf(t, exclude), argv, 0);
    StopWord(t.dashDashParsing, StepOf(t, exclude), argv, 0);
  }

  /** The same by where the loop stops. */
  lemma AssertsAtStop(t: Table, argv: seq<string>, exclude: Filter)
    requires t.WellFormed()
    ensures var stop := WalkOf(t, argv, exclude).stop;
            !Parse(t, argv, exclude).assertsHold <==>
              && stop.AtMissing?
              && stop.at + 2 < |argv| && argv[stop.at + 1] == ""
              && StepWantsNextWord(t, argv[stop.at], exclude)
  {
    FinishAsserts(t.inputOptionId, t.dashDashAsSinglePack, argv, WalkOf(t, argv, exclude));
    MissingStopOf(t, argv, exclude);
  }

  lemma WantedEmptyWordFails(t: Table, argv: seq<string>, exclude: Filter, at: nat)
    requires t.WellFormed() && WantsEmptyWord(t, argv, exclude, at)
    ensures !Parse(t, argv, exclude).assertsHold
  {
    AssertsAtStop(t, argv, exclude);
    StepOfProgresses(t, exclude);
    WantingMisses(t, argv, exclude, at);
    ReachedMissStops(t.dashDashParsing, StepOf(t, exclude), argv, 0, at);
  }

  lemma FailureWantsEmptyWord(t: Table, argv: seq<string>, exclude: Filter)
    requires t.WellFormed() && !Parse(t, argv, exclude).assertsHold
    ensures exists at :: WantsEmptyWord(t, argv, exclude, at)
  {
    AssertsAtStop(t, argv, exclude);
    StopWantsEmptyWord(t, argv, exclude);
  }

  /** Main result on the asserts: they fail exactly on the command lines on which the loop comes to an option that
      wants its next word, and that word is empty and not the last one. */
  lemma AssertsExact(t: Table, argv: seq<string>, exclude: Filter)
    requires t.WellFormed()
    ensures !Parse(t, argv, exclude).assertsHold <==>
      exists at {:trigger WantsEmptyWord(t, argv, exclude, at)} :: WantsEmptyWord(t, argv, exclude, at)
  {
    if !Parse(t, argv, exclude).assertsHold {
      FailureWantsEmptyWord(t, argv, exclude);
    }
    if at :| WantsEmptyWord(t, argv, exclude, at) {
      WantedEmptyWordFails(t, argv, exclude, at);
    }
  }

  lemma FinishAsserts(inputId: nat, asSinglePack: bool, argv: seq<string>, w: Walked)
    requires w.stop.AtDashDash? ==> w.stop.at < |argv|
    requires w.stop.AtMissing? ==> w.stop.at < w.stop.next
    ensures Finish(inputId, asSinglePack, argv, w).assertsHold
            <==> (w.stop.AtMissing? ==> |argv| <= w.stop.next && w.stop.next != w.stop.at + 1)
  {
  }

  /** At a missing value the position passes the next word, and falls short of the end exactly when
      the option wants that word, it is empty and it is not the last one. */
  predicate MissingAt(t: Table, argv: seq<string>, exclude: Filter, at: nat, next: nat)
    requires t.WellFormed() && at < |argv|
  {
    && next != at + 1
    && (next < |argv| <==> at + 2 < |argv| && argv[at + 1] == "" && StepWantsNextWord(t, argv[at], exclude))
  }

  lemma MissingStopOf(t: Table, argv: seq<string>, exclude: Filter)
    requires t.WellFormed()
    ensures var stop := WalkOf(t, argv, exclude).stop;
            stop.AtMissing? ==> MissingAt(t, argv, exclude, stop.at, stop.next)
  {
    StepOfProgresses(t, exclude);
    var stop := WalkOf(t, argv, exclude).stop;
    if stop.AtMissing? {
      MissingStop(t, argv, exclude, stop.at, stop.next);
    }
  }

  lemma MissingStop(t: Table, argv: seq<string>, exclude: Filter, at: nat, next: nat)
    requires t.WellFormed() && at < |argv| && StepOf(t, exclude)(argv, at) == (None, next)
    ensures MissingAt(t, argv, exclude, at, next)
  {
    ParseOneOutcome(t, argv, at, exclude);
    MissingShort(t, argv, at, exclude);
  }

  /** The loop comes to stand at a word whose option misses its value. */
  ghost predicate ComesToMiss(t: Table, argv: seq<string>, exclude: Filter, at: nat)
    requires t.WellFormed()
  {
    StepOfProgresses(t, exclude);
    && at < |argv| && argv[at] != "" && !ClosesOptions(t.dashDashParsing, argv[at])
    && StepMissesValue(t, argv, at, exclude)
    && Reaches(t.dashDashParsing, StepOf(t, exclude), argv, 0, at)
  }

  /** How many words the option at hand asks for. */
  function Asked(t: Table, word: string, exclude: Filter): nat
    requires t.WellFormed()
  {
    var c := Chosen(t.infos, t.ignoreCase, word, ScanStart(t, word), exclude);
    if c.Some? && t.infos[c.value].kind.MultiArgClass? then t.infos[c.value].numArgs else 1
  }

  /** A missing value is reported for a word exactly when the loop comes to it and its option misses one, with the
      number of words the option asks for. */
  lemma MissingReported(t: Table, argv: seq<string>, exclude: Filter, at: nat)
    requires t.WellFormed()
    ensures var run := Parse(t, argv, exclude);
      && (run.missingCount > 0 && run.missingIndex == at <==> ComesToMiss(t, argv, exclude, at))
      && (run.missingCount == 0 ==> run.missingIndex == 0)
      && (run.missingCount > 0 && run.missingIndex == at ==> run.missingCount == Asked(t, argv[at], exclude))
      && !run.thrown
  {
    MissingAtStop(t, argv, exclude);
    if WalkOf(t, argv, exclude).stop.AtMissing? {
      StopComesToMiss(t, argv, exclude);
      MissingCount(t, argv, exclude);
    }
    if ComesToMiss(t, argv, exclude, at) {
      ComingStops(t, argv, exclude, at);
    }
  }

  lemma MissingCount(t: Table, argv: seq<string>, exclude: Filter)
    requires t.WellFormed() && WalkOf(t, argv, exclude).stop.AtMissing?
    ensures var run := Parse(t, argv, exclude);
      run.missingIndex < |argv| && run.missingCount == Asked(t, argv[run.missingIndex], exclude)
  {
    StepOfProgresses(t, exclude);
    var stop := WalkOf(t, argv, exclude).stop;
    MissesAsked(t, argv, exclude, stop.at);
  }

  lemma MissesAsked(t: Table, argv: seq<string>, exclude: Filter, at: nat)
    requires t.WellFormed() && at < |argv| && ParseOne(t, argv, at, exclude).0.None?
    ensures ParseOne(t, argv, at, exclude).1 == at + 1 + Asked(t, argv[at], exclude)
  {
    ParseOneOutcome(t, argv, at, exclude);
    var word := argv[at];
    var k := Chosen(t.infos, t.ignoreCase, word, ScanStart(t, word), exclude).value;
    AcceptMissesAsked(t.infos[k], argv, word[..MatchOpt(t.infos[k], word, t.ignoreCase)], at);
  }

  lemma AcceptMissesAsked(info: Info, args: seq<string>, spelling: string, index: nat)
    requires index < |args| && spelling <= args[index] && Accepting(info.kind)
    requires ValueMissing(info, args, |spelling| == |args[index]|, index)
    ensures AcceptInternal(info, args, spelling, index)
         == (None, index + 1 + if info.kind.MultiArgClass? then info.numArgs else 1)
  {
  }

  lemma MissingAtStop(t: Table, argv: seq<string>, exclude: Filter)
    requires t.WellFormed()
    ensures var stop, run := WalkOf(t, argv, exclude).stop, Parse(t, argv, exclude);
      (run.missingCount > 0 <==> stop.AtMissing?) && (stop.AtMissing? ==> run.missingIndex == stop.at)
  {
    MissingStopOf(t, argv, exclude);
  }

  lemma StopComesToMiss(t: Table, argv: seq<string>, exclude: Filter)
    requires t.WellFormed() && WalkOf(t, argv, exclude).stop.AtMissing?
    ensures ComesToMiss(t, argv, exclude, WalkOf(t, argv, exclude).stop.at)
  {
    StepOfProgresses(t, exclude);
    StepOfCovers(t, exclude);
    var step, stop := StepOf(t, exclude), WalkOf(t, argv, exclude).stop;
    StopIsReached(t.infos, t.dashDashParsing, step, argv, 0);
    StopWord(t.dashDashParsing, step, argv, 0);
    StopMisses(t, argv, exclude, stop.at, stop.next);
  }

  lemma ComingStops(t: Table, argv: seq<string>, exclude: Filter, at: nat)
    requires t.WellFormed() && ComesToMiss(t, argv, exclude, at)
    ensures WalkOf(t, argv, exclude).stop.AtMissing? && WalkOf(t, argv, exclude).stop.at == at
  {
    StepOfProgresses(t, exclude);
    ParseOneOutcome(t, argv, at, exclude);
    ReachedMissStops(t.dashDashParsing, StepOf(t, exclude), argv, 0, at);
  }

  lemma StopMisses(t: Table, argv: seq<string>, exclude: Filter, at: nat, next: nat)
    requires t.WellFormed() && at < |argv| && StepOf(t, exclude)(argv, at) == (None, next)
    ensures StepMissesValue(t, argv, at, exclude)
  {
    ParseOneOutcome(t, argv, at, exclude);
  }

  /** So they hold on every command line on which no word but the last is empty. */
  lemma AssertsHold(t: Table, argv: seq<string>, exclude: Filter)
    requires t.WellFormed()
    requires forall k :: 0 <= k < |argv| - 1 ==> argv[k] != ""
    ensures Parse(t, argv, exclude).assertsHold
  {
    AssertsAtStop(t, argv, exclude);
  }

  /** The loop comes to stand at a `--` that closes option parsing. */
  ghost predicate ComesToDashes(t: Table, argv: seq<string>, exclude: Filter, at: nat)
    requires t.WellFormed()
  {
    StepOfProgresses(t, exclude);
    t.dashDashParsing && at < |argv| && argv[at] == "--"
    && Reaches(t.dashDashParsing, StepOf(t, exclude), argv, 0, at)
  }

  lemma {:induction false} ReachedDashesStop(step: Step, argv: seq<string>, i: nat, at: nat)
    requires Progresses(step) && at < |argv| && argv[at] == "--" && Reaches(true, step, argv, i, at)
    ensures Walk(true, step, argv, i).stop == AtDashDash(at)
    decreases |argv| - i
  {
    if i < at {
      if argv[i] == "" {
        ReachedDashesStop(step, argv, i + 1, at);
      } else {
        ReachedDashesStop(step, argv, step(argv, i).1, at);
      }
    }
  }

  /** One input holds all the words behind the `--`, under its spelling and at its place. */
  predicate Packed(t: Table, argv: seq<string>, at: nat, args: seq<ParsedArg>)
    requires at < |argv|
  {
    && |args| == 1 && args[0].optionId == t.inputOptionId && args[0].spelling == argv[at] && args[0].index == at
    && args[0].values == argv[at + 1..] && args[0].unaliasedId == None && args[0].unaliasedAdditionalValues == None
  }

  /** An input each, under its own spelling and at its own place. */
  predicate WordByWord(t: Table, argv: seq<string>, at: nat, args: seq<ParsedArg>)
    requires at < |argv|
  {
    && |args| == |argv| - at - 1
    && forall k :: 0 <= k < |args| ==>
         && args[k].optionId == t.inputOptionId && args[k].spelling == argv[at + 1 + k] && args[k].index == at + 1 + k
         && args[k].values == [] && args[k].unaliasedId == None && args[k].unaliasedAdditionalValues == None
  }

  lemma ReachedDashes(t: Table, argv: seq<string>, exclude: Filter, at: nat)
    requires t.WellFormed() && ComesToDashes(t, argv, exclude, at)
    ensures WalkOf(t, argv, exclude).stop == AtDashDash(at)
    ensures Parse(t, argv[..at], exclude) == Run(WalkOf(t, argv, exclude).args, 0, 0, true, false)
  {
    StepOfProgresses(t, exclude);
    StepOfCovers(t, exclude);
    StepOfLocal(t, exclude);
    var step := StepOf(t, exclude);
    ReachedDashesStop(step, argv, 0, at);
    WalkSplits(t.dashDashParsing, step, argv, 0, at);
    assert Walk(t.dashDashParsing, step, argv, at) == Walked([], AtDashDash(at));
    assert WalkOf(t, argv, exclude).args == WalkOf(t, argv[..at], exclude).args;
  }

  /** Without that mode no word stops the loop: `--` is read like any other. */
  lemma DashesAreRead(t: Table, argv: seq<string>, exclude: Filter)
    requires t.WellFormed() && !t.dashDashParsing
    ensures var run := Parse(t, argv, exclude);
      run.missingCount == 0 ==> Tiles(t.infos, argv, 0, run.args, |argv|)
  {
    StepOfProgresses(t, exclude);
    MissingAtStop(t, argv, exclude);
    ParseTiles(t, argv, exclude);
  }

  /** Main result on `--`, wherever the loop comes to one: the words before it parse as if they stood alone, with
      nothing missed; and behind them come the words after it, verbatim, in order and whatever they are: as one input
      spelled `--`, or as an input each. */
  lemma DashDashVerbatim(t: Table, argv: seq<string>, exclude: Filter, at: nat)
    requires t.WellFormed() && ComesToDashes(t, argv, exclude, at)
    ensures var run, before := Parse(t, argv, exclude), Parse(t, argv[..at], exclude);
      && before == Run(before.args, 0, 0, true, false) && run == Run(run.args, 0, 0, true, false)
      && before.args <= run.args
      && var behind := run.args[|before.args|..];
         if t.dashDashAsSinglePack then Packed(t, argv, at, behind) else WordByWord(t, argv, at, behind)
  {
    ReachedDashes(t, argv, exclude, at);
    var args := WalkOf(t, argv, exclude).args;
    var behind := DashDashArgs(t.inputOptionId, t.dashDashAsSinglePack, argv, at);
    assert (args + behind)[|args|..] == behind;
  }

  lemma FastStep(t: Table, argv: seq<string>, k: nat, exclude: Filter)
    requires t.WellFormed() && t.Sorted() && t.PrefixesCovered() && NamesStayPut(t) && k < |argv|
    ensures StepOf(Fast(t), exclude)(argv, k) == StepOf(Linear(t), exclude)(argv, k)
  {
    FastEqualsLinear(t, argv, k, exclude);
  }

  /** Binary search changes nothing of any run. */
  lemma FastRun(t: Table, argv: seq<string>, exclude: Filter)
    requires t.WellFormed() && t.Sorted() && t.PrefixesCovered() && NamesStayPut(t)
    ensures Parse(Fast(t), argv, exclude) == Parse(Linear(t), argv, exclude)
  {
    var f, l := StepOf(Fast(t), exclude), StepOf(Linear(t), exclude);
    StepOfProgresses(Fast(t), exclude);
    StepOfProgresses(Linear(t), exclude);
    forall k: nat | k < |argv| ensures f(argv, k) == l(argv, k) {
      FastStep(t, argv, k, exclude);
    }
    SameSteps(t.dashDashParsing, f, l, argv, 0);
  }
}
