/** Whole command lines in grouped mode (src/common/option/opt_table.cc, internal_parse_args with
    parse_one_arg_grouped). */
module OptGroupedRun {
  import opened Util
  import opened OptInfo
  import opened OptAccept
  import opened OptParse
  import opened OptLoop
  import opened OptGrouped

  // ------------------------------------------------------------ every character is accounted for

  /** The argument is the word's first two characters. */
  predicate PeelsFrom(word: string, a: ParsedArg) {
    |word| >= 2 && a.spelling == SpellingArray(word[..2])
  }

  /** The word without its second character, which is what is left of it behind a dash. */
  function LeftOf(word: string): string
    requires |word| >= 2
  {
    "-" + word[2..]
  }

  /** From `argv` at `i` the arguments account for all words up to `j`, in order, and leave the words `left`: each is
      the first two characters of a word, the rest of which is still to come behind a dash, or covers some whole words
      as they are; only empty words are passed over. */
  ghost predicate Accounts(infos: seq<Info>, argv: seq<string>, i: nat, args: seq<ParsedArg>, left: seq<string>, j: nat)
    decreases |args|
  {
    if args == [] then i <= j <= |argv| && AllEmpty(argv, i, j) && argv == left
    else
      var b := args[0].index;
      && i <= b < |argv| && AllEmpty(argv, i, b)
      && (PeelsHere(infos, argv, args, left, j) || CoversHere(infos, argv, args, left, j))
  }

  ghost predicate PeelsHere(infos: seq<Info>, argv: seq<string>, args: seq<ParsedArg>, left: seq<string>, j: nat)
    requires args != [] && args[0].index < |argv|
    decreases |args|, 0
  {
    var b := args[0].index;
    PeelsFrom(argv[b], args[0]) && Accounts(infos, argv[b := LeftOf(argv[b])], b, args[1..], left, j)
  }

  ghost predicate CoversHere(infos: seq<Info>, argv: seq<string>, args: seq<ParsedArg>, left: seq<string>, j: nat)
    requires args != [] && args[0].index < |argv|
    decreases |args|, 0
  {
    var b := args[0].index;
    exists e :: b < e <= |argv| && CoversWords(infos, args[0], argv[b..e])
      && Accounts(infos, argv, e, args[1..], left, j)
  }

  /** One step's part in it. */
  predicate StepAccounts(infos: seq<Info>, argv: seq<string>, i: nat, r: Grouped)
    requires i < |argv|
  {
    r.Emit? ==>
      && r.arg.index == i
      && (if r.next == i then PeelsFrom(argv[i], r.arg) && r.word == LeftOf(argv[i])
          else i < r.next <= |argv| && r.word == argv[i] && CoversWords(infos, r.arg, argv[i..r.next]))
  }

  ghost predicate AllAccount(infos: seq<Info>, step: GroupedStep) {
    forall argv: seq<string>, i: nat :: i < |argv| && argv[i] != "" ==> StepAccounts(infos, argv, i, step(argv, i))
  }

  lemma AccountsAfterEmpty(infos: seq<Info>, argv: seq<string>, i: nat, args: seq<ParsedArg>, left: seq<string>, j: nat)
    requires i < |argv| && argv[i] == "" && Accounts(infos, argv, i + 1, args, left, j)
    ensures Accounts(infos, argv, i, args, left, j)
  {
  }

  lemma AccountsPeel(infos: seq<Info>, argv: seq<string>, a: ParsedArg, rest: seq<ParsedArg>, left: seq<string>, j: nat)
    requires a.index < |argv| && PeelsFrom(argv[a.index], a)
    requires Accounts(infos, argv[a.index := LeftOf(argv[a.index])], a.index, rest, left, j)
    ensures Accounts(infos, argv, a.index, [a] + rest, left, j)
  {
    assert ([a] + rest)[1..] == rest;
    assert PeelsHere(infos, argv, [a] + rest, left, j);
  }

  lemma AccountsCover(infos: seq<Info>, argv: seq<string>, a: ParsedArg, next: nat, rest: seq<ParsedArg>,
                      left: seq<string>, j: nat)
    requires a.index < next <= |argv| && CoversWords(infos, a, argv[a.index..next])
    requires Accounts(infos, argv, next, rest, left, j)
    ensures Accounts(infos, argv, a.index, [a] + rest, left, j)
  {
    assert ([a] + rest)[1..] == rest;
    assert CoversHere(infos, argv, [a] + rest, left, j);
  }

  lemma AccountsStep(infos: seq<Info>, argv: seq<string>, i: nat, r: Grouped, rest: seq<ParsedArg>,
                     left: seq<string>, j: nat)
    requires i < |argv| && r.Emit? && StepAccounts(infos, argv, i, r)
    requires Accounts(infos, argv[i := r.word], r.next, rest, left, j)
    ensures Accounts(infos, argv, i, [r.arg] + rest, left, j)
  {
    if r.next == i {
      AccountsPeel(infos, argv, r.arg, rest, left, j);
    } else {
      assert argv[i := r.word] == argv;
      AccountsCover(infos, argv, r.arg, r.next, rest, left, j);
    }
  }

  lemma {:induction false} WalkAccounts(infos: seq<Info>, dashDash: bool, step: GroupedStep, argv: seq<string>, i: nat)
    requires AlwaysShrinks(step) && AllAccount(infos, step) && i <= |argv|
    ensures var w := WalkGrouped(dashDash, step, argv, i);
      Accounts(infos, argv, i, w.args, w.argv, StopIndex(w.argv, w.stop))
    decreases |argv| - i, if i < |argv| then |argv[i]| else 0
  {
    var w := WalkGrouped(dashDash, step, argv, i);
    var j := StopIndex(w.argv, w.stop);
    if i < |argv| {
      if argv[i] == "" {
        WalkAccounts(infos, dashDash, step, argv, i + 1);
        AccountsAfterEmpty(infos, argv, i, w.args, w.argv, j);
      } else if !ClosesOptions(dashDash, argv[i]) && step(argv, i).Emit? {
        var r := step(argv, i);
        assert StepAccounts(infos, argv, i, r) && Shrinks(argv, i, r);
        var rest := WalkGrouped(dashDash, step, argv[i := r.word], r.next).args;
        WalkAccounts(infos, dashDash, step, argv[i := r.word], r.next);
        AccountsStep(infos, argv, i, r, rest, w.argv, j);
      }
    }
  }

  lemma PeeledAccounts(t: Table, argv: seq<string>, i: nat)
    requires t.WellFormed() && i < |argv| && argv[i] != "" && !IsInput(t, argv[i])
    requires Chosen(t.infos, t.ignoreCase, argv[i], ScanStart(t, argv[i]), NO_FILTER).None?
    ensures StepAccounts(t.infos, argv, i, ParseOneGrouped(t, argv, i))
  {
    FallbackIsLonger(t, argv[i]);
    assert argv[i..i + 1] == [argv[i]];
  }

  lemma GroupedAccountsAt(t: Table, argv: seq<string>, i: nat)
    requires t.WellFormed() && i < |argv| && argv[i] != ""
    ensures StepAccounts(t.infos, argv, i, ParseOneGrouped(t, argv, i))
  {
    if IsInput(t, argv[i]) || Chosen(t.infos, t.ignoreCase, argv[i], ScanStart(t, argv[i]), NO_FILTER).Some? {
      GroupedAgreesOnTaken(t, argv, i);
      ParseOneOutcome(t, argv, i, NO_FILTER);
    } else {
      PeeledAccounts(t, argv, i);
    }
  }

  lemma GroupedAccounts(t: Table)
    requires t.WellFormed()
    ensures AllAccount(t.infos, GroupedStepOf(t))
  {
    forall argv: seq<string>, i: nat | i < |argv| && argv[i] != ""
      ensures StepAccounts(t.infos, argv, i, GroupedStepOf(t)(argv, i))
    {
      GroupedAccountsAt(t, argv, i);
    }
  }

  /** Main result on grouped runs, for every table and command line: what the callback receives before the loop stops
      accounts, in order, for every character of every word before the stop. */
  lemma GroupedRunAccounts(t: Table, argv: seq<string>)
    requires t.WellFormed()
    ensures var w := WalkGroupedOf(t, argv);
      Accounts(t.infos, argv, 0, w.args, w.argv, StopIndex(w.argv, w.stop)) && w.args <= ParseGrouped(t, argv).args
  {
    GroupedAlwaysShrinks(t);
    GroupedAccounts(t);
    WalkAccounts(t.infos, t.dashDashParsing, GroupedStepOf(t), argv, 0);
  }

  // ------------------------------------------------------------ a line of grouped words and its expansion

  /** How the words of a line read: letters, inputs, and what is delivered from a closing `--` on. */
  datatype LineReading = LineReading(letters: Reading, isInput: string -> bool, input: (string, nat) -> ParsedArg,
                                     behind: (seq<string>, nat) -> seq<ParsedArg>)

  function LineReadingOf(t: Table): LineReading
    requires t.WellFormed()
  {
    LineReading(ReadingOf(t), (word: string) => IsInput(t, word),
                (word: string, i: nat) => Plain(t.inputOptionId, word, [], i),
                (argv: seq<string>, at: nat) =>
                  if at < |argv| then DashDashArgs(t.inputOptionId, t.dashDashAsSinglePack, argv, at) else [])
  }

  /** `-c1...cn`, of which the last character names an option and none that does stands before an `=`. */
  predicate Groups(r: Reading, word: string) {
    |word| >= 2 && word[0] == '-' && Grouping(r, word[1..]) && r.known(word[|word| - 1])
  }

  predicate Grouping(r: Reading, cs: string) { AllCharacters(cs) && Valueless(r, cs) }

  /** Grouped words, inputs and empty words, up to the end or a closing `--`. */
  predicate Line(l: LineReading, dashDash: bool, words: seq<string>) {
    words == [] || ClosesOptions(dashDash, words[0])
    || ((words[0] == "" || Groups(l.letters, words[0]) || l.isInput(words[0])) && Line(l, dashDash, words[1..]))
  }

  /** The same line with each grouped word as separate words. */
  function Expand(l: LineReading, dashDash: bool, words: seq<string>): seq<string> {
    if words == [] || ClosesOptions(dashDash, words[0]) then words
    else (if Groups(l.letters, words[0]) then Separate(words[0][1..]) else [words[0]])
         + Expand(l, dashDash, words[1..])
  }

  /** What such a line means, up to positions. */
  function Meaning(l: LineReading, dashDash: bool, words: seq<string>): seq<ParsedArg> {
    if words == [] then []
    else if ClosesOptions(dashDash, words[0]) then Forget(l.behind(words, 0))
    else if words[0] == "" then Meaning(l, dashDash, words[1..])
    else (if Groups(l.letters, words[0]) then Forget(LetterUnits(l.letters, words[0][1..], 0))
          else Forget([l.input(words[0], 0)]))
         + Meaning(l, dashDash, words[1..])
  }

  predicate UnitStays(l: LineReading, c: char, i: nat) {
    l.letters.unit(c, i).(index := 0) == l.letters.unit(c, 0).(index := 0)
  }

  predicate InputStays(l: LineReading, word: string, i: nat) {
    l.input(word, i).(index := 0) == l.input(word, 0).(index := 0)
  }

  predicate BehindStays(l: LineReading, argv: seq<string>, at: nat) {
    at < |argv| ==> Forget(l.behind(argv, at)) == Forget(l.behind(argv[at..], 0))
  }

  /** Positions aside, a reading does not depend on where it is done. */
  ghost predicate Anywhere(l: LineReading) {
    && (forall c, i: nat {:trigger UnitStays(l, c, i)} :: UnitStays(l, c, i))
    && (forall word, i: nat {:trigger InputStays(l, word, i)} :: InputStays(l, word, i))
    && (forall argv, at: nat {:trigger BehindStays(l, argv, at)} :: BehindStays(l, argv, at))
  }

  lemma ForgetConcat(a: seq<ParsedArg>, b: seq<ParsedArg>)
    ensures Forget(a + b) == Forget(a) + Forget(b)
  {
  }

  /** What a callback receives from a walk. */
  function Received(l: LineReading, args: seq<ParsedArg>, argv: seq<string>, stop: Stop): seq<ParsedArg> {
    args + if stop.AtDashDash? then l.behind(argv, stop.at) else []
  }

  lemma ReceivedCons(l: LineReading, first: seq<ParsedArg>, args: seq<ParsedArg>, argv: seq<string>, stop: Stop)
    ensures Forget(Received(l, first + args, argv, stop)) == Forget(first) + Forget(Received(l, args, argv, stop))
  {
    var behind := if stop.AtDashDash? then l.behind(argv, stop.at) else [];
    ConcatAssoc(first, args, behind);
    ForgetConcat(first, args + behind);
  }

  // ------------------------------------------------------------ the grouped walk

  predicate GroupedReadsInput(l: LineReading, step: GroupedStep, argv: seq<string>, i: nat) {
    i < |argv| && argv[i] != "" && l.isInput(argv[i]) ==> step(argv, i) == Emit(l.input(argv[i], i), argv[i], i + 1)
  }

  ghost predicate GroupedReads(l: LineReading, step: GroupedStep) {
    && Peels(l.letters, step)
    && forall argv: seq<string>, i: nat {:trigger GroupedReadsInput(l, step, argv, i)} ::
         GroupedReadsInput(l, step, argv, i)
  }

  lemma KnownLeavesNothing(r: Reading, cs: string, i: nat)
    requires cs != "" && Valueless(r, cs) && r.known(cs[|cs| - 1])
    ensures Units(r, cs, i) == LetterUnits(r, cs, i)
  {
    UnitsOf(r, cs, i);
  }

  lemma LetterUnitsAnywhere(l: LineReading, cs: string, i: nat)
    requires Anywhere(l)
    ensures Forget(LetterUnits(l.letters, cs, i)) == Forget(LetterUnits(l.letters, cs, 0))
  {
    forall k | 0 <= k < |cs| ensures UnitStays(l, cs[k], i) {
    }
  }

  lemma GroupsIsDashed(r: Reading, word: string)
    requires Groups(r, word)
    ensures word == "-" + word[1..] && word[1..] != "" && word[1..][|word| - 2] == word[|word| - 1] && word != "--"
  {
    NotDashDash(word[1..]);
  }

  lemma {:induction false} GroupedSide(l: LineReading, dashDash: bool, step: GroupedStep, argv: seq<string>, i: nat)
    requires AlwaysShrinks(step) && GroupedReads(l, step) && Anywhere(l)
    requires i <= |argv| && Line(l, dashDash, argv[i..])
    ensures var w := WalkGrouped(dashDash, step, argv, i);
      Forget(Received(l, w.args, w.argv, w.stop)) == Meaning(l, dashDash, argv[i..])
    decreases |argv| - i
  {
    if i < |argv| {
      assert argv[i..][0] == argv[i] && argv[i..][1..] == argv[i + 1..];
      if ClosesOptions(dashDash, argv[i]) {
        assert [] + l.behind(argv, i) == l.behind(argv, i);
        assert BehindStays(l, argv, i);
      } else if argv[i] == "" {
        GroupedSide(l, dashDash, step, argv, i + 1);
      } else if Groups(l.letters, argv[i]) {
        GroupedSideLetters(l, dashDash, step, argv, i);
      } else {
        GroupedSideInput(l, dashDash, step, argv, i);
      }
    }
  }

  lemma {:induction false} GroupedSideLetters(l: LineReading, dashDash: bool, step: GroupedStep,
                                              argv: seq<string>, i: nat)
    requires AlwaysShrinks(step) && GroupedReads(l, step) && Anywhere(l)
    requires i < |argv| && Line(l, dashDash, argv[i + 1..]) && Groups(l.letters, argv[i])
    ensures var w := WalkGrouped(dashDash, step, argv, i);
      Forget(Received(l, w.args, w.argv, w.stop))
      == Forget(LetterUnits(l.letters, argv[i][1..], 0)) + Meaning(l, dashDash, argv[i + 1..])
    decreases |argv| - i, 0
  {
    var cs := argv[i][1..];
    GroupsIsDashed(l.letters, argv[i]);
    var word := GroupedWord(l.letters, dashDash, step, argv, i, cs);
    var later := argv[i := word];
    assert later[i + 1..] == argv[i + 1..];
    GroupedSide(l, dashDash, step, later, i + 1);
    KnownLeavesNothing(l.letters, cs, i);
    LetterUnitsAnywhere(l, cs, i);
    var w := WalkGrouped(dashDash, step, later, i + 1);
    ReceivedCons(l, LetterUnits(l.letters, cs, i), w.args, w.argv, w.stop);
  }

  lemma {:induction false} GroupedSideInput(l: LineReading, dashDash: bool, step: GroupedStep,
                                            argv: seq<string>, i: nat)
    requires AlwaysShrinks(step) && GroupedReads(l, step) && Anywhere(l)
    requires i < |argv| && Line(l, dashDash, argv[i + 1..]) && argv[i] != "" && !ClosesOptions(dashDash, argv[i])
    requires l.isInput(argv[i])
    ensures var w := WalkGrouped(dashDash, step, argv, i);
      Forget(Received(l, w.args, w.argv, w.stop))
      == Forget([l.input(argv[i], 0)]) + Meaning(l, dashDash, argv[i + 1..])
    decreases |argv| - i, 0
  {
    var a := l.input(argv[i], i);
    MovedWalk(dashDash, step, argv, i, a) by { assert GroupedReadsInput(l, step, argv, i); }
    assert argv[i := argv[i]] == argv;
    GroupedSide(l, dashDash, step, argv, i + 1);
    var w := WalkGrouped(dashDash, step, argv, i + 1);
    ReceivedCons(l, [a], w.args, w.argv, w.stop);
    assert Forget([a]) == Forget([l.input(argv[i], 0)]) by { assert InputStays(l, argv[i], i); }
  }

  // ------------------------------------------------------------ the walk over separate words

  predicate ReadsLetter(l: LineReading, step: Step, argv: seq<string>, i: nat, c: char) {
    i < |argv| && argv[i] == "-" + [c] && Character(c) ==> step(argv, i) == (Some(l.letters.unit(c, i)), i + 1)
  }

  predicate ReadsInput(l: LineReading, step: Step, argv: seq<string>, i: nat) {
    i < |argv| && argv[i] != "" && l.isInput(argv[i]) ==> step(argv, i) == (Some(l.input(argv[i], i)), i + 1)
  }

  ghost predicate SeparateReads(l: LineReading, step: Step) {
    && (forall argv: seq<string>, i: nat, c: char {:trigger ReadsLetter(l, step, argv, i, c)} ::
          ReadsLetter(l, step, argv, i, c))
    && (forall argv: seq<string>, i: nat {:trigger ReadsInput(l, step, argv, i)} :: ReadsInput(l, step, argv, i))
  }

  lemma ForgetHead(a: ParsedArg, args: seq<ParsedArg>)
    ensures Forget([a] + args) == [a.(index := 0)] + Forget(args)
  {
  }

  lemma LettersCons(l: LineReading, cs: string, i: nat, units: seq<ParsedArg>)
    requires cs != "" && l.letters.unit(cs[0], i).(index := 0) == l.letters.unit(cs[0], 0).(index := 0)
    requires Forget(units) == Forget(LetterUnits(l.letters, cs[1..], 0))
    ensures Forget([l.letters.unit(cs[0], i)] + units) == Forget(LetterUnits(l.letters, cs, 0))
  {
    ForgetHead(l.letters.unit(cs[0], i), units);
    assert LetterUnits(l.letters, cs, 0) == [l.letters.unit(cs[0], 0)] + LetterUnits(l.letters, cs[1..], 0);
    ForgetHead(l.letters.unit(cs[0], 0), LetterUnits(l.letters, cs[1..], 0));
  }

  lemma SeparateHead(argv: seq<string>, i: nat, cs: string)
    requires cs != "" && AllCharacters(cs) && i + |cs| <= |argv| && argv[i..i + |cs|] == Separate(cs)
    ensures argv[i] == "-" + [cs[0]] && Character(cs[0]) && argv[i] != "" && argv[i] != "--"
    ensures argv[i + 1..i + |cs|] == Separate(cs[1..]) && AllCharacters(cs[1..])
  {
    var words := argv[i..i + |cs|];
    assert argv[i] == words[0] && words[0][1] == cs[0];
    assert argv[i + 1..i + |cs|] == words[1..];
  }

  lemma WalkOne(dashDash: bool, step: Step, argv: seq<string>, i: nat, a: ParsedArg)
    requires Progresses(step) && i < |argv| && argv[i] != "" && argv[i] != "--" && step(argv, i) == (Some(a), i + 1)
    ensures var w, next := Walk(dashDash, step, argv, i), Walk(dashDash, step, argv, i + 1);
      w == Walked([a] + next.args, next.stop)
  {
  }

  /** Letters one after another from `i` on, each at its own position. */
  lemma {:induction false} LettersWalk(l: LineReading, dashDash: bool, step: Step,
                                       argv: seq<string>, i: nat, cs: string)
    returns (units: seq<ParsedArg>)
    requires Progresses(step) && SeparateReads(l, step) && Anywhere(l) && AllCharacters(cs)
    requires i + |cs| <= |argv| && argv[i..i + |cs|] == Separate(cs)
    ensures Forget(units) == Forget(LetterUnits(l.letters, cs, 0))
    ensures var w, next := Walk(dashDash, step, argv, i), Walk(dashDash, step, argv, i + |cs|);
      w == Walked(units + next.args, next.stop)
    decreases |cs|
  {
    if cs == "" {
      units := [];
      assert [] + Walk(dashDash, step, argv, i).args == Walk(dashDash, step, argv, i).args;
    } else {
      SeparateHead(argv, i, cs);
      var a := l.letters.unit(cs[0], i);
      assert ReadsLetter(l, step, argv, i, cs[0]) && UnitStays(l, cs[0], i);
      var rest := LettersWalk(l, dashDash, step, argv, i + 1, cs[1..]);
      units := [a] + rest;
      LettersCons(l, cs, i, rest);
      WalkOne(dashDash, step, argv, i, a);
      ConcatAssoc([a], rest, Walk(dashDash, step, argv, i + |cs|).args);
    }
  }

  /** What the program is given from word `i` on, the places of its arguments left out. */
  function Given(l: LineReading, dashDash: bool, step: Step, argv: seq<string>, i: nat): seq<ParsedArg>
    requires Progresses(step) && i <= |argv|
  {
    var w := Walk(dashDash, step, argv, i);
    Forget(Received(l, w.args, argv, w.stop))
  }

  lemma LettersReceived(l: LineReading, dashDash: bool, step: Step, argv: seq<string>, i: nat, cs: string)
    requires Progresses(step) && SeparateReads(l, step) && Anywhere(l) && AllCharacters(cs)
    requires i + |cs| <= |argv| && argv[i..i + |cs|] == Separate(cs)
    ensures Given(l, dashDash, step, argv, i)
         == Forget(LetterUnits(l.letters, cs, 0)) + Given(l, dashDash, step, argv, i + |cs|)
  {
    var units := LettersWalk(l, dashDash, step, argv, i, cs);
    var next := Walk(dashDash, step, argv, i + |cs|);
    ReceivedCons(l, units, next.args, argv, next.stop);
  }

  lemma CutBehind(argv: seq<string>, i: nat, first: seq<string>, later: seq<string>)
    requires i <= |argv| && argv[i..] == first + later
    ensures i + |first| <= |argv| && argv[i..i + |first|] == first && argv[i + |first|..] == later
  {
    assert argv[i..i + |first|] == argv[i..][..|first|];
    assert argv[i + |first|..] == argv[i..][|first|..];
  }

  lemma GroupOpensLine(l: LineReading, dashDash: bool, words: seq<string>)
    requires Line(l, dashDash, words) && words != [] && Groups(l.letters, words[0])
    ensures !ClosesOptions(dashDash, words[0]) && Line(l, dashDash, words[1..]) && AllCharacters(words[0][1..])
    ensures Expand(l, dashDash, words) == Separate(words[0][1..]) + Expand(l, dashDash, words[1..])
    ensures Meaning(l, dashDash, words)
         == Forget(LetterUnits(l.letters, words[0][1..], 0)) + Meaning(l, dashDash, words[1..])
  {
    GroupsIsDashed(l.letters, words[0]);
  }

  lemma OtherOpensLine(l: LineReading, dashDash: bool, words: seq<string>)
    requires Line(l, dashDash, words) && words != [] && !ClosesOptions(dashDash, words[0])
    requires !Groups(l.letters, words[0])
    ensures Line(l, dashDash, words[1..]) && (words[0] != "" ==> l.isInput(words[0]))
    ensures Expand(l, dashDash, words) == [words[0]] + Expand(l, dashDash, words[1..])
    ensures Meaning(l, dashDash, words)
         == (if words[0] == "" then [] else Forget([l.input(words[0], 0)])) + Meaning(l, dashDash, words[1..])
  {
    assert [] + Meaning(l, dashDash, words[1..]) == Meaning(l, dashDash, words[1..]);
  }

  lemma ClosingReceived(l: LineReading, dashDash: bool, step: Step, argv: seq<string>, i: nat)
    requires Progresses(step) && Anywhere(l) && i < |argv| && ClosesOptions(dashDash, argv[i])
    ensures Given(l, dashDash, step, argv, i) == Forget(l.behind(argv[i..], 0))
  {
    assert BehindStays(l, argv, i);
    assert [] + l.behind(argv, i) == l.behind(argv, i);
  }

  lemma OtherReceived(l: LineReading, dashDash: bool, step: Step, argv: seq<string>, i: nat)
    requires Progresses(step) && SeparateReads(l, step) && Anywhere(l)
    requires i < |argv| && !ClosesOptions(dashDash, argv[i]) && (argv[i] != "" ==> l.isInput(argv[i]))
    ensures Given(l, dashDash, step, argv, i)
         == (if argv[i] == "" then [] else Forget([l.input(argv[i], 0)])) + Given(l, dashDash, step, argv, i + 1)
  {
    var next := Walk(dashDash, step, argv, i + 1);
    if argv[i] == "" {
      var received := Forget(Received(l, next.args, argv, next.stop));
      assert [] + received == received;
    } else {
      var a := l.input(argv[i], i);
      assert ReadsInput(l, step, argv, i) && InputStays(l, argv[i], i);
      ReceivedCons(l, [a], next.args, argv, next.stop);
      assert Forget([a]) == Forget([l.input(argv[i], 0)]);
    }
  }

  lemma NothingGiven(l: LineReading, dashDash: bool, step: Step, argv: seq<string>, i: nat)
    requires Progresses(step) && i == |argv|
    ensures Given(l, dashDash, step, argv, i) == []
  {
  }

  lemma ClosingGiven(l: LineReading, dashDash: bool, step: Step, words: seq<string>, argv: seq<string>, i: nat)
    requires Progresses(step) && Anywhere(l) && i <= |argv| && words != [] && ClosesOptions(dashDash, words[0])
    requires argv[i..] == Expand(l, dashDash, words)
    ensures Given(l, dashDash, step, argv, i) == Meaning(l, dashDash, words)
  {
    assert i < |argv| && argv[i] == argv[i..][0];
    ClosingReceived(l, dashDash, step, argv, i);
  }

  lemma LettersMean(l: LineReading, dashDash: bool, words: seq<string>, given: seq<ParsedArg>, later: seq<ParsedArg>)
    requires Line(l, dashDash, words) && words != [] && Groups(l.letters, words[0])
    requires given == Forget(LetterUnits(l.letters, words[0][1..], 0)) + later
    ensures later == Meaning(l, dashDash, words[1..]) ==> given == Meaning(l, dashDash, words)
  {
    GroupOpensLine(l, dashDash, words);
  }

  lemma LettersAhead(l: LineReading, dashDash: bool, words: seq<string>, argv: seq<string>, i: nat)
    requires Line(l, dashDash, words) && words != [] && Groups(l.letters, words[0])
    requires i <= |argv| && argv[i..] == Expand(l, dashDash, words)
    ensures var cs := words[0][1..];
      && i + |cs| <= |argv| && AllCharacters(cs) && argv[i..i + |cs|] == Separate(cs)
      && Line(l, dashDash, words[1..]) && argv[i + |cs|..] == Expand(l, dashDash, words[1..])
  {
    GroupOpensLine(l, dashDash, words);
    CutBehind(argv, i, Separate(words[0][1..]), Expand(l, dashDash, words[1..]));
  }

  lemma OtherGiven(l: LineReading, dashDash: bool, step: Step, words: seq<string>, argv: seq<string>, i: nat)
    requires Progresses(step) && SeparateReads(l, step) && Anywhere(l) && Line(l, dashDash, words)
    requires words != [] && !ClosesOptions(dashDash, words[0]) && !Groups(l.letters, words[0])
    requires i <= |argv| && argv[i..] == Expand(l, dashDash, words)
    ensures i < |argv| && Line(l, dashDash, words[1..]) && argv[i + 1..] == Expand(l, dashDash, words[1..])
    ensures Given(l, dashDash, step, argv, i + 1) == Meaning(l, dashDash, words[1..])
        ==> Given(l, dashDash, step, argv, i) == Meaning(l, dashDash, words)
  {
    OtherOpensLine(l, dashDash, words);
    CutBehind(argv, i, [words[0]], Expand(l, dashDash, words[1..]));
    assert argv[i] == argv[i..i + 1][0] == words[0];
    OtherReceived(l, dashDash, step, argv, i);
  }

  lemma {:induction false} SeparateSide(l: LineReading, dashDash: bool, step: Step, words: seq<string>,
                                        argv: seq<string>, i: nat)
    requires Progresses(step) && SeparateReads(l, step) && Anywhere(l) && Line(l, dashDash, words)
    requires i <= |argv| && argv[i..] == Expand(l, dashDash, words)
    ensures Given(l, dashDash, step, argv, i) == Meaning(l, dashDash, words)
    decreases |words|, 1
  {
    if words == [] {
      NothingGiven(l, dashDash, step, argv, i);
    } else if ClosesOptions(dashDash, words[0]) {
      ClosingGiven(l, dashDash, step, words, argv, i);
    } else if Groups(l.letters, words[0]) {
      SeparateGroup(l, dashDash, step, words, argv, i);
    } else {
      OtherGiven(l, dashDash, step, words, argv, i);
      SeparateSide(l, dashDash, step, words[1..], argv, i + 1);
    }
  }

  lemma {:induction false} SeparateGroup(l: LineReading, dashDash: bool, step: Step, words: seq<string>,
                                         argv: seq<string>, i: nat)
    requires Progresses(step) && SeparateReads(l, step) && Anywhere(l) && Line(l, dashDash, words)
    requires words != [] && Groups(l.letters, words[0])
    requires i <= |argv| && argv[i..] == Expand(l, dashDash, words)
    ensures Given(l, dashDash, step, argv, i) == Meaning(l, dashDash, words)
    decreases |words|, 0
  {
    LettersAhead(l, dashDash, words, argv, i);
    LettersGiven(l, dashDash, step, argv, i, words[0][1..], Meaning(l, dashDash, words[1..])) by {
      SeparateSide(l, dashDash, step, words[1..], argv, i + |words[0][1..]|);
    }
    LettersMean(l, dashDash, words, Given(l, dashDash, step, argv, i), Meaning(l, dashDash, words[1..]));
  }

  lemma LettersGiven(l: LineReading, dashDash: bool, step: Step, argv: seq<string>, i: nat, cs: string,
                     later: seq<ParsedArg>)
    requires Progresses(step) && SeparateReads(l, step) && Anywhere(l) && AllCharacters(cs)
    requires i + |cs| <= |argv| && argv[i..i + |cs|] == Separate(cs)
    requires Given(l, dashDash, step, argv, i + |cs|) == later
    ensures Given(l, dashDash, step, argv, i) == Forget(LetterUnits(l.letters, cs, 0)) + later
  {
    LettersReceived(l, dashDash, step, argv, i, cs);
  }

  // ------------------------------------------------------------ for a table of flags

  lemma ReadingAnywhere(t: Table)
    requires t.WellFormed()
    ensures Anywhere(LineReadingOf(t))
  {
    var l := LineReadingOf(t);
    forall c, i: nat ensures UnitStays(l, c, i) {
      UnitIndex(t, c, i, 0);
    }
    forall argv, at: nat ensures BehindStays(l, argv, at) {
      if at < |argv| { BehindAnywhere(t.inputOptionId, t.dashDashAsSinglePack, argv, at); }
    }
  }

  lemma BehindAnywhere(inputId: nat, asSinglePack: bool, argv: seq<string>, at: nat)
    requires at < |argv|
    ensures Forget(DashDashArgs(inputId, asSinglePack, argv, at))
         == Forget(DashDashArgs(inputId, asSinglePack, argv[at..], 0))
  {
    assert argv[at..][1..] == argv[at + 1..];
  }

  lemma FlagsGroupedReads(t: Table)
    requires FlagTable(t)
    ensures GroupedReads(LineReadingOf(t), GroupedStepOf(t))
  {
    GroupedStepPeels(t);
  }

  lemma FlagsSeparateReads(t: Table)
    requires FlagTable(t)
    ensures SeparateReads(LineReadingOf(t), StepOf(t, NO_FILTER))
  {
    var l, step := LineReadingOf(t), StepOf(t, NO_FILTER);
    forall argv: seq<string>, i: nat, c: char ensures ReadsLetter(l, step, argv, i, c) {
      if i < |argv| && argv[i] == "-" + [c] && Character(c) { SeparateRound(t, argv, i, c); }
    }
  }

  lemma GroupedReceives(t: Table, argv: seq<string>)
    requires t.WellFormed()
    ensures var w := WalkGroupedOf(t, argv);
      ParseGrouped(t, argv).args == Received(LineReadingOf(t), w.args, w.argv, w.stop)
  {
    var w := WalkGroupedOf(t, argv);
    assert w.args + [] == w.args;
  }

  lemma SeparateReceives(t: Table, argv: seq<string>)
    requires t.WellFormed()
    ensures var w := WalkOf(t, argv, NO_FILTER);
      Parse(t, argv, NO_FILTER).args == Received(LineReadingOf(t), w.args, argv, w.stop)
  {
    var w := WalkOf(t, argv, NO_FILTER);
    assert w.args + [] == w.args;
  }

  /** Main result on whole lines: in a table of flags a command line of grouped words whose last letters are known, of
      inputs and of a closing `--` with anything behind it gives, positions aside, what its expansion into separate
      words gives. */
  lemma GroupedLineExpands(t: Table, argv: seq<string>)
    requires FlagTable(t) && Line(LineReadingOf(t), t.dashDashParsing, argv)
    ensures Forget(ParseGrouped(t, argv).args)
         == Forget(Parse(t, Expand(LineReadingOf(t), t.dashDashParsing, argv), NO_FILTER).args)
  {
    var l, words := LineReadingOf(t), Expand(LineReadingOf(t), t.dashDashParsing, argv);
    ReadingAnywhere(t);
    GroupedAlwaysShrinks(t);
    FlagsGroupedReads(t);
    StepOfProgresses(t, NO_FILTER);
    FlagsSeparateReads(t);
    assert argv[0..] == argv && words[0..] == words;
    GroupedSide(l, t.dashDashParsing, GroupedStepOf(t), argv, 0);
    SeparateSide(l, t.dashDashParsing, StepOf(t, NO_FILTER), argv, words, 0);
    GroupedReceives(t, argv);
    SeparateReceives(t, words);
  }
}
