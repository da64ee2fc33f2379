/** Grouped short options: `-abc` for `-a -b -c`, by rewriting the word in place
    (src/common/option/opt_table.cc, parse_one_arg_grouped). */
module OptGrouped {
  import opened Util
  import opened OptInfo
  import opened OptAccept
  import opened OptParse
  import opened OptLoop

  /** A grouped step emits an argument, leaves `word` in place of the one it looked at and goes on from
      `next`; or it misses a value; or it throws. */
  datatype Grouped = Emit(arg: ParsedArg, word: string, next: nat) | Miss(next: nat) | Throw

  /** The last of the entries from `lo` up to `hi` that `takes`. */
  function LastBefore(infos: seq<Info>, lo: nat, hi: nat, takes: Info -> bool): (r: Option<nat>)
    requires lo <= hi <= |infos|
    ensures r.Some? ==> lo <= r.value < hi && takes(infos[r.value])
    decreases hi
  {
    if lo == hi then None
    else if takes(infos[hi - 1]) then Some(hi - 1)
    else LastBefore(infos, lo, hi - 1, takes)
  }

  lemma {:induction false} LastBeforeIs(infos: seq<Info>, lo: nat, hi: nat, takes: Info -> bool)
    requires lo <= hi <= |infos|
    ensures var r := LastBefore(infos, lo, hi, takes);
            forall j :: (if r.Some? then r.value + 1 else lo) <= j < hi ==> !takes(infos[j])
    decreases hi
  {
    if lo < hi && !takes(infos[hi - 1]) {
      LastBeforeIs(infos, lo, hi - 1, takes);
    }
  }

  /** A flag whose spelling is the first two characters of the word. */
  function ShortFlag(str: string, ignoreCase: bool): Info -> bool {
    (info: Info) => info.kind.FlagClass? && MatchOpt(info, str, ignoreCase) == 2
  }

  /** No option took the whole word, so only its first two characters are looked at. */
  function PeelOff(infos: seq<Info>, unknownId: nat, str: string, index: nat, fallback: Option<nat>): Grouped
    requires AliasesOk(infos) && str != ""
    requires fallback.Some? ==> fallback.value < |infos| && infos[fallback.value].kind.FlagClass? && |str| > 2
  {
    if fallback.Some? then
      var info := infos[fallback.value];
      if str[2] == '=' then Emit(Plain(unknownId, str, [], index), str, index + 1)
      else Emit(WithAlias(infos, info, Plain(info.id, SpellingArray(str[..2]), [], index)), "-" + str[2..], index)
    else if |str| == 1 then Throw
    else if str[1] != '-' then Emit(Plain(unknownId, SpellingArray(str[..2]), [], index), "-" + str[2..], index)
    else Emit(Plain(unknownId, str, [], index), str, index + 1)
  }

  function FallbackFlag(t: Table, str: string): Option<nat>
    requires t.WellFormed()
  {
    LastBefore(t.infos, ScanStart(t, str), |t.infos|, ShortFlag(str, t.ignoreCase))
  }

  function GroupedOf(infos: seq<Info>, ignoreCase: bool, inputId: nat, unknownId: nat,
                     args: seq<string>, index: nat, chosen: Option<nat>, fallback: Option<nat>): Grouped
    requires AliasesOk(infos) && index < |args| && args[index] != ""
    requires chosen.Some? ==>
      && chosen.value < |infos|
      && Accepting(infos[chosen.value].kind)
      && !Refuses(infos[chosen.value].kind, MatchOpt(infos[chosen.value], args[index], ignoreCase) == |args[index]|)
    requires chosen.None? && fallback.Some? ==>
      fallback.value < |infos| && infos[fallback.value].kind.FlagClass? && |args[index]| > 2
  {
    if chosen.Some? then
      var (a, next) := Conclude(infos, ignoreCase, inputId, unknownId, args, index, chosen);
      if a.Some? then Emit(a.value, args[index], next) else Miss(next)
    else PeelOff(infos, unknownId, args[index], index, fallback)
  }

  function ParseOneGrouped(t: Table, args: seq<string>, index: nat): Grouped
    requires t.WellFormed() && index < |args| && args[index] != ""
  {
    var str := args[index];
    if IsInput(t, str) then Emit(Plain(t.inputOptionId, str, [], index), str, index + 1)
    else
      FallbackIsLonger(t, str);
      GroupedOf(t.infos, t.ignoreCase, t.inputOptionId, t.unknownOptionId, args, index,
                Chosen(t.infos, t.ignoreCase, str, ScanStart(t, str), NO_FILTER), FallbackFlag(t, str))
  }

  /** A short flag that did not take the word is followed by more characters. */
  lemma FallbackIsLonger(t: Table, str: string)
    requires t.WellFormed()
    ensures Chosen(t.infos, t.ignoreCase, str, ScanStart(t, str), NO_FILTER).None? && FallbackFlag(t, str).Some?
        ==> |str| > 2
  {
    var f := FallbackFlag(t, str);
    var takes := Taker(str, t.ignoreCase, NO_FILTER);
    FirstFromIs(t.infos, ScanStart(t, str), takes);
    if f.Some? {
      assert ShortFlag(str, t.ignoreCase)(t.infos[f.value]);
      assert takes(t.infos[f.value]) <==> |str| == 2;
    }
  }

  // ------------------------------------------------------------ the loop, over any step

  type GroupedStep = (seq<string>, nat) -> Grouped

  predicate Shrinks(argv: seq<string>, i: nat, r: Grouped)
    requires i < |argv|
  {
    match r
    case Emit(_, word, next) => next > i || (next == i && |word| < |argv[i]|)
    case Miss(next) => next > i
    case Throw => true
  }

  ghost predicate AlwaysShrinks(step: GroupedStep) {
    forall argv: seq<string>, i: nat :: i < |argv| && argv[i] != "" ==> Shrinks(argv, i, step(argv, i))
  }

  datatype GroupedWalk = GroupedWalk(args: seq<ParsedArg>, argv: seq<string>, stop: Stop)

  /** Each round either moves on or leaves a shorter word behind. */
  function WalkGrouped(dashDash: bool, step: GroupedStep, argv: seq<string>, i: nat): (w: GroupedWalk)
    requires AlwaysShrinks(step)
    ensures |w.argv| == |argv|
    ensures match w.stop
            case AtEnd => true
            case AtDashDash(at) => i <= at < |argv| && ClosesOptions(dashDash, w.argv[at])
            case AtMissing(at, next) =>
              i <= at < |argv| && w.argv[at] != "" && step(w.argv, at) == Miss(next) && at < next
            case AtThrow(at) => i <= at < |argv| && w.argv[at] != "" && step(w.argv, at) == Throw
    decreases |argv| - i, if i < |argv| then |argv[i]| else 0
  {
    if i >= |argv| then GroupedWalk([], argv, AtEnd)
    else if argv[i] == "" then WalkGrouped(dashDash, step, argv, i + 1)
    else if ClosesOptions(dashDash, argv[i]) then GroupedWalk([], argv, AtDashDash(i))
    else
      assert Shrinks(argv, i, step(argv, i));
      match step(argv, i)
      case Throw => GroupedWalk([], argv, AtThrow(i))
      case Miss(next) => GroupedWalk([], argv, AtMissing(i, next))
      case Emit(a, word, next) =>
        var rest := WalkGrouped(dashDash, step, argv[i := word], next);
        GroupedWalk([a] + rest.args, rest.argv, rest.stop)
  }

  function GroupedStepOf(t: Table): GroupedStep
    requires t.WellFormed()
  {
    (argv: seq<string>, i: nat) => if i < |argv| && argv[i] != "" then ParseOneGrouped(t, argv, i) else Throw
  }

  lemma PeelOffShrinks(infos: seq<Info>, unknownId: nat, args: seq<string>, index: nat, fallback: Option<nat>)
    requires AliasesOk(infos) && index < |args| && args[index] != ""
    requires fallback.Some? ==> fallback.value < |infos| && infos[fallback.value].kind.FlagClass? && |args[index]| > 2
    ensures Shrinks(args, index, PeelOff(infos, unknownId, args[index], index, fallback))
  {
  }

  lemma ConcludedShrinks(t: Table, args: seq<string>, index: nat, k: nat)
    requires t.WellFormed() && index < |args| && args[index] != ""
    requires t.firstSearchableIndex <= k < |t.infos| && Takes(t.infos[k], args[index], t.ignoreCase, NO_FILTER)
    ensures Shrinks(args, index,
                    GroupedOf(t.infos, t.ignoreCase, t.inputOptionId, t.unknownOptionId, args, index, Some(k), None))
  {
  }

  lemma ParseOneGroupedShrinks(t: Table, args: seq<string>, index: nat)
    requires t.WellFormed() && index < |args| && args[index] != ""
    ensures Shrinks(args, index, ParseOneGrouped(t, args, index))
  {
    var str := args[index];
    var chosen, fallback := Chosen(t.infos, t.ignoreCase, str, ScanStart(t, str), NO_FILTER), FallbackFlag(t, str);
    FallbackIsLonger(t, str);
    if !IsInput(t, str) {
      if chosen.Some? {
        ConcludedShrinks(t, args, index, chosen.value);
      } else {
        PeelOffShrinks(t.infos, t.unknownOptionId, args, index, fallback);
      }
    }
  }

  /** Main result on termination: for every table each grouped step moves on or shortens the word, so
      the loop ends on every command line. */
  lemma GroupedAlwaysShrinks(t: Table)
    requires t.WellFormed()
    ensures AlwaysShrinks(GroupedStepOf(t))
  {
    forall argv: seq<string>, i: nat | i < |argv| && argv[i] != ""
      ensures Shrinks(argv, i, GroupedStepOf(t)(argv, i))
    {
      ParseOneGroupedShrinks(t, argv, i);
    }
  }

  function WalkGroupedOf(t: Table, argv: seq<string>): (w: GroupedWalk)
    requires t.WellFormed()
    ensures |w.argv| == |argv|
    ensures w.stop.AtDashDash? ==> w.stop.at < |argv|
    ensures w.stop.AtMissing? ==> w.stop.at < w.stop.next
  {
    GroupedAlwaysShrinks(t);
    WalkGrouped(t.dashDashParsing, GroupedStepOf(t), argv, 0)
  }

  function ParseGrouped(t: Table, argv: seq<string>): Run
    requires t.WellFormed()
  {
    var w := WalkGroupedOf(t, argv);
    Finish(t.inputOptionId, t.dashDashAsSinglePack, w.argv, Walked(w.args, w.stop))
  }

  // ------------------------------------------------------------ one step

  /** On an input, and on a word that some option takes, grouped mode does what the other mode does. */
  lemma GroupedAgreesOnTaken(t: Table, args: seq<string>, index: nat)
    requires t.WellFormed() && index < |args| && args[index] != ""
    requires IsInput(t, args[index])
      || Chosen(t.infos, t.ignoreCase, args[index], ScanStart(t, args[index]), NO_FILTER).Some?
    ensures ParseOneGrouped(t, args, index) ==
      var (a, next) := ParseOne(t, args, index, NO_FILTER);
      if a.Some? then Emit(a.value, args[index], next) else Miss(next)
  {
  }

  /** The option is a flag whose spelling is the word's first two characters, and the last such. */
  predicate LastShortFlag(t: Table, str: string, k: nat)
    requires t.WellFormed()
  {
    && ScanStart(t, str) <= k < |t.infos| && ShortFlag(str, t.ignoreCase)(t.infos[k])
    && forall j :: k < j < |t.infos| ==> !ShortFlag(str, t.ignoreCase)(t.infos[j])
  }

  predicate NoShortFlag(t: Table, str: string)
    requires t.WellFormed()
  {
    forall j :: ScanStart(t, str) <= j < |t.infos| ==> !ShortFlag(str, t.ignoreCase)(t.infos[j])
  }

  /** What a word's first two characters stand for when no option takes the word: the last flag that they spell, or
      an unknown option if there is none. */
  lemma PeelingNames(t: Table, args: seq<string>, index: nat)
    requires t.WellFormed() && index < |args| && args[index] != "" && !IsInput(t, args[index])
    requires Chosen(t.infos, t.ignoreCase, args[index], ScanStart(t, args[index]), NO_FILTER).None?
    ensures var str, r := args[index], ParseOneGrouped(t, args, index);
      r.Emit? && r.next == index ==>
        if NoShortFlag(t, str) then r.arg.optionId == t.unknownOptionId && str[1] != '-'
        else |str| > 2 && str[2] != '=' && exists k: nat :: LastShortFlag(t, str, k) && r.arg.optionId == k + 1
    ensures var str, r := args[index], ParseOneGrouped(t, args, index);
      r.Emit? && r.next > index ==> if NoShortFlag(t, str) then str[1] == '-' else |str| > 2 && str[2] == '='
  {
    var str := args[index];
    FallbackIsLonger(t, str);
    LastBeforeIs(t.infos, ScanStart(t, str), |t.infos|, ShortFlag(str, t.ignoreCase));
    var f := FallbackFlag(t, str);
    if f.Some? { assert LastShortFlag(t, str, f.value); }
  }

  /** On any other word nothing is lost: it is unknown as a whole, or its first two characters are emitted and
      the rest stays behind a dash. */
  lemma PeelingConserves(t: Table, args: seq<string>, index: nat)
    requires t.WellFormed() && index < |args| && args[index] != "" && !IsInput(t, args[index])
    requires Chosen(t.infos, t.ignoreCase, args[index], ScanStart(t, args[index]), NO_FILTER).None?
    ensures var str, r := args[index], ParseOneGrouped(t, args, index);
      match r
      case Emit(a, word, next) =>
        if next == index then
          |str| >= 2 && word == "-" + str[2..] && ('\0' !in str[..2] ==> a.spelling == str[..2])
        else a == Plain(t.unknownOptionId, str, [], index) && word == str && next == index + 1
      case Miss(_) => false
      case Throw => |str| == 1
  {
    var str := args[index];
    FallbackIsLonger(t, str);
    if |str| >= 2 {
      TwoCharacters(str[..2]);
    }
  }

  lemma TwoCharacters(s: string)
    requires |s| == 2
    ensures '\0' !in s ==> SpellingArray(s) == s
  {
    assert s == [s[0]] + [s[1]] && s[1..] == [s[1]] && s[1..][1..] == "";
    assert UpToNul("") == "";
    if '\0' !in s {
      assert UpToNul(s[1..]) == [s[1]] + UpToNul(s[1..][1..]);
    }
  }

  // ------------------------------------------------------------ exceptions

  /** A step throws exactly on a word of one character that carries a prefix and that no option takes. */
  lemma ThrowsExactly(t: Table, args: seq<string>, index: nat)
    requires t.WellFormed() && index < |args| && args[index] != ""
    ensures ParseOneGrouped(t, args, index) == Throw <==>
              var str := args[index];
              && |str| == 1 && !IsInput(t, str)
              && Chosen(t.infos, t.ignoreCase, str, ScanStart(t, str), NO_FILTER).None?
  {
    var str := args[index];
    var f := FallbackFlag(t, str);
    if !IsInput(t, str) && Chosen(t.infos, t.ignoreCase, str, ScanStart(t, str), NO_FILTER).None? {
      FallbackIsLonger(t, str);
    }
  }

  /** No command line ends in an exception if and only if every word of one character is an input or an option. */
  lemma NeverThrowsExactly(t: Table)
    requires t.WellFormed()
    ensures (forall argv :: !ParseGrouped(t, argv).thrown) <==> forall c :: Read(t, [c])
  {
    if c :| !Read(t, [c]) {
      LoneCharacterThrows(t, c);
    } else {
      forall argv ensures !ParseGrouped(t, argv).thrown {
        ThrownWord(t, argv);
      }
    }
  }

  /** The word is an input, or some option takes it. */
  predicate Read(t: Table, word: string)
    requires t.WellFormed()
  {
    IsInput(t, word) || Chosen(t.infos, t.ignoreCase, word, ScanStart(t, word), NO_FILTER).Some?
  }

  lemma LoneCharacterThrows(t: Table, c: char)
    requires t.WellFormed() && !Read(t, [c])
    ensures ParseGrouped(t, [[c]]).thrown
  {
    GroupedAlwaysShrinks(t);
    ThrowsExactly(t, [[c]], 0);
    assert GroupedStepOf(t)([[c]], 0) == Throw;
    assert [c] != "--";
  }

  lemma ThrownWord(t: Table, argv: seq<string>)
    requires t.WellFormed()
    ensures ParseGrouped(t, argv).thrown ==> exists c :: !Read(t, [c])
  {
    var w := WalkGroupedOf(t, argv);
    GroupedAlwaysShrinks(t);
    if w.stop.AtThrow? {
      var at := w.stop.at;
      assert GroupedStepOf(t)(w.argv, at) == Throw;
      ThrowsExactly(t, w.argv, at);
      assert w.argv[at] == [w.argv[at][0]];
    }
  }

  /** With dash prefixes only, no command line ends in an exception. */
  lemma DashPrefixesNeverThrow(t: Table, argv: seq<string>)
    requires t.WellFormed() && forall p :: p in t.prefixesUnion ==> p != "" && p[0] == '-'
    ensures !ParseGrouped(t, argv).thrown
  {
    var w := WalkGroupedOf(t, argv);
    GroupedAlwaysShrinks(t);
    if w.stop.AtThrow? {
      var at := w.stop.at;
      assert GroupedStepOf(t)(w.argv, at) == Throw;
      DashPrefixStep(t, w.argv, at);
    }
  }

  lemma DashPrefixStep(t: Table, argv: seq<string>, at: nat)
    requires t.WellFormed() && forall p :: p in t.prefixesUnion ==> p != "" && p[0] == '-'
    requires at < |argv| && argv[at] != ""
    ensures GroupedStepOf(t)(argv, at) != Throw
  {
    ThrowsExactly(t, argv, at);
    var str := argv[at];
    forall p | p in t.prefixesUnion && p <= str && |str| == 1 ensures str == "-" {
      assert str[0] == p[0];
    }
  }

  // ------------------------------------------------------------ grouped against separate

  /** A character an option may be named by here. */
  predicate Letter(c: char) { Character(c) && c != '=' }

  /** A character of a grouped word. */
  predicate Character(c: char) { c != '-' && c != '\0' }

  predicate ShortName(info: Info) {
    info.prefixes == ["-"] && |info.Name()| == 1 && Letter(info.Name()[0])
  }

  /** Case-sensitive flags with the prefix `-` and distinct names of one letter. */
  predicate FlagTable(t: Table) {
    && t.WellFormed() && !t.ignoreCase && !t.tablegenMode
    && (forall p :: p in t.prefixesUnion ==> p == "-")
    && (forall k :: t.firstSearchableIndex <= k < |t.infos| && t.infos[k].prefixes != []
          ==> t.infos[k].kind.FlagClass? && ShortName(t.infos[k]))
    && (forall j, k :: t.firstSearchableIndex <= j < k < |t.infos|
          && t.infos[j].prefixes != [] && t.infos[k].prefixes != []
          ==> t.infos[j].Name() != t.infos[k].Name())
  }

  function Named(c: char): Info -> bool {
    (info: Info) => info.prefixes != [] && info.Name() == [c]
  }

  function Lookup(t: Table, c: char): (r: Option<nat>)
    requires t.WellFormed()
    ensures r.Some? ==> t.firstSearchableIndex <= r.value < |t.infos| && Named(c)(t.infos[r.value])
  {
    FirstFrom(t.infos, t.firstSearchableIndex, Named(c))
  }

  /** What `-c` means by itself. */
  function Unit(t: Table, c: char, index: nat): ParsedArg
    requires t.WellFormed()
  {
    var k := Lookup(t, c);
    if k.Some? then WithAlias(t.infos, t.infos[k.value], Plain(t.infos[k.value].id, "-" + [c], [], index))
    else Plain(t.unknownOptionId, "-" + [c], [], index)
  }

  lemma ShortMatch(info: Info, str: string)
    requires ShortName(info) && |str| > 1 && str[0] == '-'
    ensures MatchOpt(info, str, false) == if str[1] == info.Name()[0] then 2 else 0
  {
    var rest := str[1..];
    assert "-" <= str;
    assert MatchPrefixes(info.Name(), info.prefixes[1..], str, false) == 0;
    assert info.Name() <= rest <==> rest[0] == info.Name()[0];
  }

  /** In a flag table the first character decides both what takes the word and what its fallback is. */
  lemma FirstLetterDecides(t: Table, str: string)
    requires FlagTable(t) && |str| > 1 && str[0] == '-'
    ensures !IsInput(t, str)
    ensures Chosen(t.infos, false, str, t.firstSearchableIndex, NO_FILTER)
            == if |str| == 2 then Lookup(t, str[1]) else None
    ensures FallbackFlag(t, str) == Lookup(t, str[1])
  {
    assert t.prefixesUnion[0] in t.prefixesUnion && "-" <= str;
    var takes, short, named := Taker(str, false, NO_FILTER), ShortFlag(str, false), Named(str[1]);
    forall j | t.firstSearchableIndex <= j < |t.infos|
      ensures short(t.infos[j]) == named(t.infos[j])
      ensures takes(t.infos[j]) == (named(t.infos[j]) && |str| == 2)
    {
      LetterTakes(t.infos[j], str);
    }
    LastAgrees(t.infos, t.firstSearchableIndex, |t.infos|, short, named);
    OnlyNamed(t, str[1]);
    FirstAgrees(t.infos, t.firstSearchableIndex, takes, named, |str| == 2);
  }

  lemma {:induction false} FirstAgrees(infos: seq<Info>, lo: nat, f: Info -> bool, g: Info -> bool, on: bool)
    requires lo <= |infos| && forall k :: lo <= k < |infos| ==> f(infos[k]) == (g(infos[k]) && on)
    ensures FirstFrom(infos, lo, f) == if on then FirstFrom(infos, lo, g) else None
    decreases |infos| - lo
  {
    if lo < |infos| { FirstAgrees(infos, lo + 1, f, g, on); }
  }

  lemma {:induction false} LastAgrees(infos: seq<Info>, lo: nat, hi: nat, f: Info -> bool, g: Info -> bool)
    requires lo <= hi <= |infos| && forall k :: lo <= k < hi ==> f(infos[k]) == g(infos[k])
    ensures LastBefore(infos, lo, hi, f) == LastBefore(infos, lo, hi, g)
    decreases hi
  {
    if lo < hi { LastAgrees(infos, lo, hi - 1, f, g); }
  }

  /** Distinct names: at most one option has the name. */
  lemma OnlyNamed(t: Table, c: char)
    requires FlagTable(t)
    ensures LastBefore(t.infos, t.firstSearchableIndex, |t.infos|, Named(c)) == Lookup(t, c)
  {
    var last := LastBefore(t.infos, t.firstSearchableIndex, |t.infos|, Named(c));
    var first := Lookup(t, c);
    LastBeforeIs(t.infos, t.firstSearchableIndex, |t.infos|, Named(c));
    FirstFromIs(t.infos, t.firstSearchableIndex, Named(c));
    if last.Some? { assert Named(c)(t.infos[last.value]); }
    if first.Some? { assert Named(c)(t.infos[first.value]); }
  }

  lemma LetterTakes(info: Info, str: string)
    requires info.prefixes != [] ==> info.kind.FlagClass? && ShortName(info)
    requires |str| > 1 && str[0] == '-'
    ensures ShortFlag(str, false)(info) == Named(str[1])(info)
    ensures Taker(str, false, NO_FILTER)(info) == (Named(str[1])(info) && |str| == 2)
  {
    if info.prefixes != [] {
      ShortMatch(info, str);
      assert info.Name() == [info.Name()[0]];
    }
  }

  lemma ShortSpelling(c: char)
    requires c != '\0'
    ensures SpellingArray("-" + [c]) == "-" + [c]
  {
    assert UpToNul([c]) == [c] by { assert [c][1..] == ""; }
    assert ("-" + [c])[1..] == [c];
  }

  /** One round on `-c...`: a known flag that is given a value is unknown with it; any other character gives its
      unit, and `-...` is left in place unless it was the last and known. */
  lemma GroupedRound(t: Table, argv: seq<string>, i: nat, cs: string)
    requires FlagTable(t) && i < |argv| && argv[i] == "-" + cs && cs != "" && Character(cs[0])
    ensures GroupedStepOf(t)(argv, i) == Peeled(ReadingOf(t), cs, argv[i], i)
  {
    var str := argv[i];
    var c := cs[0];
    assert str[1] == c;
    FirstLetterDecides(t, str);
    ShortSpelling(c);
    assert str[..2] == "-" + [c];
    assert str[2..] == cs[1..];
    if |cs| > 1 {
      assert str[2] == cs[1];
    }
    var k := Lookup(t, c);
    if k.Some? {
      assert t.infos[k.value].kind.FlagClass? && ShortName(t.infos[k.value]);
      ShortMatch(t.infos[k.value], str);
    }
  }

  /** How characters read: what each means, which name an option, what a lone `-` means, and what an unknown
      word means. */
  datatype Reading = Reading(unit: (char, nat) -> ParsedArg, known: char -> bool, dash: nat -> ParsedArg,
                             whole: (string, nat) -> ParsedArg)

  function ReadingOf(t: Table): Reading
    requires t.WellFormed()
  {
    Reading((c: char, i: nat) => Unit(t, c, i),
            (c: char) => Lookup(t, c).Some?, (i: nat) => Plain(t.inputOptionId, "-", [], i),
            (word: string, i: nat) => Plain(t.unknownOptionId, word, [], i))
  }

  /** The letters' units, all at one position. */
  function LetterUnits(r: Reading, cs: string, index: nat): (units: seq<ParsedArg>)
    ensures |units| == |cs| && forall k :: 0 <= k < |cs| ==> units[k] == r.unit(cs[k], index)
  {
    seq(|cs|, k requires 0 <= k < |cs| => r.unit(cs[k], index))
  }

  /** An unknown last letter leaves `-` behind, which is then read as an input. */
  function LeftOver(r: Reading, cs: string, index: nat): seq<ParsedArg> {
    if cs != "" && r.known(cs[|cs| - 1]) then [] else [r.dash(index)]
  }

  /** The word is a known flag that is given a value. */
  predicate GivenValue(r: Reading, cs: string) { |cs| > 1 && r.known(cs[0]) && cs[1] == '=' }

  /** Nowhere in the word is a known flag given a value. */
  predicate Valueless(r: Reading, cs: string) {
    forall k :: 0 <= k < |cs| - 1 && cs[k + 1] == '=' ==> !r.known(cs[k])
  }

  lemma ValuelessTail(r: Reading, cs: string)
    requires cs != "" && !GivenValue(r, cs)
    ensures Valueless(r, cs) <==> Valueless(r, cs[1..])
  {
    var tail := cs[1..];
    assert forall k :: 1 <= k < |cs| ==> cs[k] == tail[k - 1];
    if Valueless(r, tail) {
      forall k | 0 <= k < |cs| - 1 && cs[k + 1] == '=' ensures !r.known(cs[k]) {
        if k > 0 { assert tail[k - 1 + 1] == '=' && !r.known(tail[k - 1]); }
      }
    }
    if Valueless(r, cs) {
      forall k | 0 <= k < |tail| - 1 && tail[k + 1] == '=' ensures !r.known(tail[k]) {
        assert cs[k + 1 + 1] == '=' && !r.known(cs[k + 1]);
      }
    }
  }

  /** What a word `-c1...cn` means. */
  function Units(r: Reading, cs: string, index: nat): seq<ParsedArg> {
    if cs == "" then [r.dash(index)]
    else if GivenValue(r, cs) then [r.whole("-" + cs, index)]
    else [r.unit(cs[0], index)] + if |cs| == 1 && r.known(cs[0]) then [] else Units(r, cs[1..], index)
  }

  /** Without values: the letters' units and what is left over. */
  lemma {:induction false} UnitsOf(r: Reading, cs: string, index: nat)
    requires Valueless(r, cs)
    ensures Units(r, cs, index) == LetterUnits(r, cs, index) + LeftOver(r, cs, index)
  {
    if cs != "" {
      var unit, rest := [r.unit(cs[0], index)], cs[1..];
      assert LetterUnits(r, cs, index) == unit + LetterUnits(r, rest, index);
      if |cs| > 1 || !r.known(cs[0]) {
        ValuelessTail(r, cs);
        UnitsOf(r, rest, index);
        assert |cs| > 1 ==> rest[|cs| - 2] == cs[|cs| - 1];
        ConcatAssoc(unit, LetterUnits(r, rest, index), LeftOver(r, rest, index));
      }
    }
  }

  /** With one: fewer than there are characters. */
  lemma {:induction false} FewerUnits(r: Reading, cs: string, index: nat)
    requires !Valueless(r, cs)
    ensures |Units(r, cs, index)| < |cs|
  {
    if !GivenValue(r, cs) {
      ValuelessTail(r, cs);
      FewerUnits(r, cs[1..], index);
    }
  }

  /** One round on such a word: the first unit, and the rest of the word left in place. */
  function Peeled(r: Reading, cs: string, word: string, i: nat): Grouped {
    if cs == "" then Emit(r.dash(i), word, i + 1)
    else if GivenValue(r, cs) then Emit(r.whole(word, i), word, i + 1)
    else if |cs| == 1 && r.known(cs[0]) then Emit(r.unit(cs[0], i), word, i + 1)
    else Emit(r.unit(cs[0], i), "-" + cs[1..], i)
  }

  ghost predicate Peels(r: Reading, step: GroupedStep) {
    forall argv: seq<string>, i: nat, cs: string ::
      i < |argv| && argv[i] == "-" + cs && AllCharacters(cs) ==> step(argv, i) == Peeled(r, cs, argv[i], i)
  }

  predicate AllCharacters(cs: string) { forall k :: 0 <= k < |cs| ==> Character(cs[k]) }

  lemma PeeledWalk(dashDash: bool, step: GroupedStep, argv: seq<string>, i: nat, a: ParsedArg, word: string)
    requires AlwaysShrinks(step) && i < |argv| && argv[i] != "" && !ClosesOptions(dashDash, argv[i])
    requires step(argv, i) == Emit(a, word, i)
    ensures var rest := WalkGrouped(dashDash, step, argv[i := word], i);
      WalkGrouped(dashDash, step, argv, i) == GroupedWalk([a] + rest.args, rest.argv, rest.stop)
  {
    assert Shrinks(argv, i, step(argv, i));
  }

  lemma MovedWalk(dashDash: bool, step: GroupedStep, argv: seq<string>, i: nat, a: ParsedArg)
    requires AlwaysShrinks(step) && i < |argv| && argv[i] != "" && !ClosesOptions(dashDash, argv[i])
    requires step(argv, i) == Emit(a, argv[i], i + 1)
    ensures var next := WalkGrouped(dashDash, step, argv[i := argv[i]], i + 1);
      WalkGrouped(dashDash, step, argv, i) == GroupedWalk([a] + next.args, next.argv, next.stop)
  {
  }

  lemma {:induction false} GroupedWord(r: Reading, dashDash: bool, step: GroupedStep,
                                       argv: seq<string>, i: nat, cs: string)
    returns (word: string)
    requires Peels(r, step) && AlwaysShrinks(step)
    requires i < |argv| && argv[i] == "-" + cs && AllCharacters(cs)
    ensures var next := WalkGrouped(dashDash, step, argv[i := word], i + 1);
      WalkGrouped(dashDash, step, argv, i) == GroupedWalk(Units(r, cs, i) + next.args, next.argv, next.stop)
    decreases |cs|
  {
    NotDashDash(cs);
    assert step(argv, i) == Peeled(r, cs, argv[i], i);
    if cs == "" || GivenValue(r, cs) || (|cs| == 1 && r.known(cs[0])) {
      word := argv[i];
      MovedWalk(dashDash, step, argv, i, Units(r, cs, i)[0]);
    } else {
      var shorter := argv[i := "-" + cs[1..]];
      word := GroupedWord(r, dashDash, step, shorter, i, cs[1..]);
      PeeledOnce(r, dashDash, step, argv, i, cs, WalkGrouped(dashDash, step, argv[i := word], i + 1)) by {
        assert shorter[i := word] == argv[i := word];
      }
    }
  }

  lemma PeeledOnce(r: Reading, dashDash: bool, step: GroupedStep, argv: seq<string>, i: nat, cs: string,
                   next: GroupedWalk)
    requires AlwaysShrinks(step) && i < |argv| && argv[i] == "-" + cs && argv[i] != "--"
    requires cs != "" && !GivenValue(r, cs) && !(|cs| == 1 && r.known(cs[0]))
    requires step(argv, i) == Emit(r.unit(cs[0], i), "-" + cs[1..], i)
    requires WalkGrouped(dashDash, step, argv[i := "-" + cs[1..]], i)
          == GroupedWalk(Units(r, cs[1..], i) + next.args, next.argv, next.stop)
    ensures WalkGrouped(dashDash, step, argv, i) == GroupedWalk(Units(r, cs, i) + next.args, next.argv, next.stop)
  {
    PeeledWalk(dashDash, step, argv, i, r.unit(cs[0], i), "-" + cs[1..]);
    ConcatAssoc([r.unit(cs[0], i)], Units(r, cs[1..], i), next.args);
  }

  lemma NotDashDash(cs: string)
    requires AllCharacters(cs)
    ensures "-" + cs != "--"
  {
    if |cs| == 1 { assert ("-" + cs)[1] == cs[0]; }
  }

  lemma GroupedStepPeels(t: Table)
    requires FlagTable(t)
    ensures Peels(ReadingOf(t), GroupedStepOf(t))
  {
    forall argv: seq<string>, i: nat, cs: string | i < |argv| && argv[i] == "-" + cs && AllCharacters(cs)
      ensures GroupedStepOf(t)(argv, i) == Peeled(ReadingOf(t), cs, argv[i], i)
    {
      PeelsAt(t, argv, i, cs);
    }
  }

  lemma PeelsAt(t: Table, argv: seq<string>, i: nat, cs: string)
    requires FlagTable(t) && i < |argv| && argv[i] == "-" + cs && AllCharacters(cs)
    ensures GroupedStepOf(t)(argv, i) == Peeled(ReadingOf(t), cs, argv[i], i)
  {
    if cs == "" {
      assert argv[i] == "-";
    } else {
      GroupedRound(t, argv, i, cs);
    }
  }

  function Separate(cs: string): (r: seq<string>)
    ensures |r| == |cs| && forall k :: 0 <= k < |cs| ==> r[k] == "-" + [cs[k]]
  {
    seq(|cs|, k requires 0 <= k < |cs| => "-" + [cs[k]])
  }

  /** The letters' units, each at its own position. */
  function SeparateUnits(r: Reading, cs: string): (units: seq<ParsedArg>)
    ensures |units| == |cs| && forall k :: 0 <= k < |cs| ==> units[k] == r.unit(cs[k], k)
  {
    seq(|cs|, k requires 0 <= k < |cs| => r.unit(cs[k], k))
  }

  lemma SeparateRound(t: Table, argv: seq<string>, i: nat, c: char)
    requires FlagTable(t) && i < |argv| && argv[i] == "-" + [c] && Character(c)
    ensures ParseOne(t, argv, i, NO_FILTER) == (Some(Unit(t, c, i)), i + 1)
  {
    var str := argv[i];
    FirstLetterDecides(t, str);
    assert str[1] == c;
    var k := Lookup(t, c);
    if k.Some? {
      assert t.infos[k.value].kind.FlagClass? && ShortName(t.infos[k.value]);
      ShortMatch(t.infos[k.value], str);
      assert str[..2] == str;
    }
  }

  lemma {:induction false} SeparateWalk(r: Reading, dashDash: bool, step: Step, cs: string, i: nat)
    requires i <= |cs| && AllCharacters(cs) && Progresses(step)
    requires forall k :: 0 <= k < |cs| ==> step(Separate(cs), k) == (Some(r.unit(cs[k], k)), k + 1)
    ensures Walk(dashDash, step, Separate(cs), i) == Walked(SeparateUnits(r, cs)[i..], AtEnd)
    decreases |cs| - i
  {
    if i < |cs| {
      assert Separate(cs)[i][1] == cs[i];
      SeparateWalk(r, dashDash, step, cs, i + 1);
      assert SeparateUnits(r, cs)[i..] == [r.unit(cs[i], i)] + SeparateUnits(r, cs)[i + 1..];
    }
  }

  /** Arguments up to their position on the command line. */
  function Forget(args: seq<ParsedArg>): (r: seq<ParsedArg>)
    ensures |r| == |args| && forall k :: 0 <= k < |r| ==> r[k] == args[k].(index := 0)
  {
    seq(|args|, k requires 0 <= k < |args| => args[k].(index := 0))
  }

  /** Main result on grouping: one word `-c1...cn` gives the same options, spellings and alias values
      as the words `-c1` to `-cn` exactly when the last character names an option and no option stands before an
      `=`. With none before an `=` and an unknown last character it gives one input `-` more. */
  lemma GroupedEqualsSeparate(t: Table, cs: string)
    requires FlagTable(t) && cs != "" && AllCharacters(cs)
    ensures var grouped := Forget(ParseGrouped(t, ["-" + cs]).args);
            var separate := Forget(Parse(t, Separate(cs), NO_FILTER).args);
            && (grouped == separate <==> Lookup(t, cs[|cs| - 1]).Some? && NoValues(t, cs))
            && (Lookup(t, cs[|cs| - 1]).None? && NoValues(t, cs)
                ==> grouped == separate + [Plain(t.inputOptionId, "-", [], 0)])
  {
    var r := ReadingOf(t);
    GroupedSingle(t, cs);
    SeparateRun(t, cs);
    ReadingForgets(t);
    if NoValues(t, cs) {
      assert Valueless(r, cs);
      UnitsOf(r, cs, 0);
      ForgetUnits(r, cs);
    } else {
      assert !Valueless(r, cs);
      FewerUnits(r, cs, 0);
    }
  }

  /** No option stands directly before an `=`. */
  predicate NoValues(t: Table, cs: string)
    requires t.WellFormed()
  {
    forall k :: 0 <= k < |cs| - 1 && cs[k + 1] == '=' ==> Lookup(t, cs[k]).None?
  }

  lemma ReadingForgets(t: Table)
    requires t.WellFormed()
    ensures forall c, i: nat, j: nat :: ReadingOf(t).unit(c, i).(index := 0) == ReadingOf(t).unit(c, j).(index := 0)
  {
    forall c, i: nat, j: nat ensures ReadingOf(t).unit(c, i).(index := 0) == ReadingOf(t).unit(c, j).(index := 0) {
      UnitIndex(t, c, i, j);
    }
  }

  lemma ForgetUnits(r: Reading, cs: string)
    requires forall c, i: nat, j: nat :: r.unit(c, i).(index := 0) == r.unit(c, j).(index := 0)
    requires cs != "" && r.dash(0).index == 0
    ensures Forget(LetterUnits(r, cs, 0) + LeftOver(r, cs, 0)) == Forget(SeparateUnits(r, cs)) + LeftOver(r, cs, 0)
  {
    assert Forget(LetterUnits(r, cs, 0)) == Forget(SeparateUnits(r, cs));
  }

  lemma GroupedSingle(t: Table, cs: string)
    requires FlagTable(t) && AllCharacters(cs)
    ensures ParseGrouped(t, ["-" + cs]).args == Units(ReadingOf(t), cs, 0)
  {
    GroupedAlwaysShrinks(t);
    GroupedStepPeels(t);
    var word := GroupedWord(ReadingOf(t), t.dashDashParsing, GroupedStepOf(t), ["-" + cs], 0, cs);
  }

  lemma SeparateRun(t: Table, cs: string)
    requires FlagTable(t) && AllCharacters(cs)
    ensures Parse(t, Separate(cs), NO_FILTER).args == SeparateUnits(ReadingOf(t), cs)
  {
    StepOfProgresses(t, NO_FILTER);
    forall k | 0 <= k < |cs|
      ensures StepOf(t, NO_FILTER)(Separate(cs), k) == (Some(ReadingOf(t).unit(cs[k], k)), k + 1) {
      SeparateRound(t, Separate(cs), k, cs[k]);
    }
    SeparateWalk(ReadingOf(t), t.dashDashParsing, StepOf(t, NO_FILTER), cs, 0);
  }

  lemma UnitIndex(t: Table, c: char, i: nat, j: nat)
    requires t.WellFormed()
    ensures Unit(t, c, i).(index := 0) == Unit(t, c, j).(index := 0)
  {
  }

  // ------------------------------------------------------------ the `--` that grouping makes up

  /** What a round leaves in place of a word, if it does not move on. */
  function Left(known: char -> bool, word: string): Option<string> {
    if |word| < 2 || word[0] != '-' || word[1] == '-' then None
    else if known(word[1]) && (|word| == 2 || word[2] == '=') then None
    else Some("-" + word[2..])
  }

  /** `-...-` with no other dash, in which no option stands before an `=`: its rounds end in `--`. */
  predicate MakesDashes(known: char -> bool, word: string) {
    && |word| >= 2 && word[0] == '-' && word[|word| - 1] == '-'
    && (forall k :: 1 <= k < |word| - 1 ==> word[k] != '-')
    && (forall k :: 1 <= k < |word| - 1 && word[k + 1] == '=' ==> !known(word[k]))
  }

  lemma LeftMakesDashes(known: char -> bool, word: string)
    requires word != "--"
    ensures MakesDashes(known, word)
       <==> Left(known, word).Some? && MakesDashes(known, Left(known, word).value)
  {
    var left := Left(known, word);
    if left.Some? {
      var w := left.value;
      assert forall k :: 1 <= k < |w| ==> w[k] == word[k + 1];
      if MakesDashes(known, w) {
        forall k | 1 <= k < |word| - 1 ensures word[k] != '-' && (word[k + 1] == '=' ==> !known(word[k])) {
          if k > 1 { assert w[k - 1] != '-' && (w[k] == '=' ==> !known(w[k - 1])); }
        }
      }
      if MakesDashes(known, word) {
        forall k | 1 <= k < |w| - 1 ensures w[k] != '-' && (w[k + 1] == '=' ==> !known(w[k])) {
          assert word[k + 1] != '-' && (word[k + 2] == '=' ==> !known(word[k + 1]));
        }
      }
    }
  }

  predicate Rounds(known: char -> bool, argv: seq<string>, i: nat, r: Grouped)
    requires i < |argv|
  {
    r.Emit? && match Left(known, argv[i])
      case None => r.word == argv[i] && r.next == i + 1
      case Some(word) => r.word == word && r.next == i
  }

  ghost predicate AlwaysRounds(known: char -> bool, step: GroupedStep) {
    forall argv: seq<string>, i: nat :: i < |argv| && argv[i] != "" ==> Rounds(known, argv, i, step(argv, i))
  }

  /** The first of the words from `i` on whose rounds end in `--`. */
  predicate FirstDashes(known: char -> bool, argv: seq<string>, i: nat, at: nat) {
    i <= at < |argv| && MakesDashes(known, argv[at]) && forall j :: i <= j < at ==> !MakesDashes(known, argv[j])
  }

  /** The walk stops at a word exactly when that is the first. */
  ghost predicate Closes(known: char -> bool, step: GroupedStep, argv: seq<string>, i: nat, at: nat)
    requires AlwaysShrinks(step)
  {
    var stop := WalkGrouped(true, step, argv, i).stop;
    (stop.AtEnd? || stop.AtDashDash?) && (stop == AtDashDash(at) <==> FirstDashes(known, argv, i, at))
  }

  lemma {:induction false} WalkCloses(known: char -> bool, step: GroupedStep, argv: seq<string>, i: nat, at: nat)
    requires AlwaysShrinks(step) && AlwaysRounds(known, step)
    ensures Closes(known, step, argv, i, at)
    decreases |argv| - i, if i < |argv| then |argv[i]| else 0
  {
    if i < |argv| && argv[i] != "--" {
      if argv[i] == "" {
        EmptyCloses(known, step, argv, i, at) by { WalkCloses(known, step, argv, i + 1, at); }
      } else {
        assert Shrinks(argv, i, step(argv, i)) && Rounds(known, argv, i, step(argv, i));
        RoundCloses(known, step, argv, i, at) by {
          WalkCloses(known, step, argv[i := step(argv, i).word], step(argv, i).next, at);
        }
      }
    }
  }

  lemma EmptyCloses(known: char -> bool, step: GroupedStep, argv: seq<string>, i: nat, at: nat)
    requires AlwaysShrinks(step) && i < |argv| && argv[i] == "" && Closes(known, step, argv, i + 1, at)
    ensures Closes(known, step, argv, i, at)
  {
  }

  lemma RoundCloses(known: char -> bool, step: GroupedStep, argv: seq<string>, i: nat, at: nat)
    requires AlwaysShrinks(step) && i < |argv| && argv[i] != "" && argv[i] != "--"
    requires Rounds(known, argv, i, step(argv, i)) && Shrinks(argv, i, step(argv, i))
    requires Closes(known, step, argv[i := step(argv, i).word], step(argv, i).next, at)
    ensures Closes(known, step, argv, i, at)
  {
    LeftMakesDashes(known, argv[i]);
    FirstMoves(known, argv, i, step(argv, i).word, step(argv, i).next, at);
  }

  lemma FirstMoves(known: char -> bool, argv: seq<string>, i: nat, word: string, next: nat, at: nat)
    requires i < |argv| && (MakesDashes(known, word) <==> MakesDashes(known, argv[i]))
    requires next == i || (next == i + 1 && !MakesDashes(known, word))
    ensures FirstDashes(known, argv[i := word], next, at) <==> FirstDashes(known, argv, i, at)
  {
    var moved := argv[i := word];
    assert forall j :: 0 <= j < |argv| ==> (MakesDashes(known, moved[j]) <==> MakesDashes(known, argv[j]));
  }

  /** What lies behind the word that closes option parsing is left as it was. */
  lemma {:induction false} BehindUntouched(dashDash: bool, step: GroupedStep, argv: seq<string>, i: nat)
    requires AlwaysShrinks(step)
    ensures var w := WalkGrouped(dashDash, step, argv, i);
      w.stop.AtDashDash? ==> w.argv[w.stop.at + 1..] == argv[w.stop.at + 1..]
    decreases |argv| - i, if i < |argv| then |argv[i]| else 0
  {
    if i < |argv| {
      if argv[i] == "" {
        BehindUntouched(dashDash, step, argv, i + 1);
      } else {
        assert Shrinks(argv, i, step(argv, i));
        if step(argv, i).Emit? {
          BehindUntouched(dashDash, step, argv[i := step(argv, i).word], step(argv, i).next);
        }
      }
    }
  }

  lemma FlagRounds(t: Table)
    requires FlagTable(t)
    ensures AlwaysRounds(ReadingOf(t).known, GroupedStepOf(t))
  {
    forall argv: seq<string>, i: nat | i < |argv| && argv[i] != ""
      ensures Rounds(ReadingOf(t).known, argv, i, GroupedStepOf(t)(argv, i))
    {
      FlagRound(t, argv, i);
    }
  }

  lemma FlagRound(t: Table, argv: seq<string>, i: nat)
    requires FlagTable(t) && i < |argv| && argv[i] != ""
    ensures Rounds(ReadingOf(t).known, argv, i, GroupedStepOf(t)(argv, i))
  {
    if |argv[i]| == 1 || argv[i][0] != '-' {
      assert IsInput(t, argv[i]);
    } else {
      DashedRound(t, argv, i);
    }
  }

  lemma DashedRound(t: Table, argv: seq<string>, i: nat)
    requires FlagTable(t) && i < |argv| && |argv[i]| > 1 && argv[i][0] == '-'
    ensures Rounds(ReadingOf(t).known, argv, i, ParseOneGrouped(t, argv, i))
  {
    var str := argv[i];
    FirstLetterDecides(t, str);
    var k := Lookup(t, str[1]);
    if k.Some? {
      assert t.infos[k.value].kind.FlagClass? && ShortName(t.infos[k.value]);
      ShortMatch(t.infos[k.value], str);
    }
  }

  lemma BehindPositional(t: Table, argv: seq<string>)
    requires t.WellFormed()
    ensures var w := WalkGroupedOf(t, argv);
      w.stop.AtDashDash? ==>
        ParseGrouped(t, argv).args == w.args + DashDashArgs(t.inputOptionId, t.dashDashAsSinglePack, argv, w.stop.at)
  {
    GroupedAlwaysShrinks(t);
    BehindUntouched(t.dashDashParsing, GroupedStepOf(t), argv, 0);
    var w := WalkGroupedOf(t, argv);
    if w.stop.AtDashDash? {
      SameBehind(t.inputOptionId, t.dashDashAsSinglePack, w.argv, argv, w.stop.at);
    }
  }

  lemma SameBehind(inputId: nat, asSinglePack: bool, a: seq<string>, b: seq<string>, at: nat)
    requires at < |a| == |b| && a[at + 1..] == b[at + 1..]
    ensures DashDashArgs(inputId, asSinglePack, a, at) == DashDashArgs(inputId, asSinglePack, b, at)
  {
  }

  /** Main result on `--` in grouped mode: the loop stops at a word exactly when it is the first of the form `-...-`
      with no other dash and no option before an `=`. Nothing else stops it before the end, and the words behind are
      positional as they are. */
  lemma GroupedClosesExactly(t: Table, argv: seq<string>, at: nat)
    requires FlagTable(t) && t.dashDashParsing
    ensures var stop := WalkGroupedOf(t, argv).stop;
      && (stop.AtEnd? || stop.AtDashDash?)
      && (stop == AtDashDash(at) <==> FirstDashes((c: char) => Lookup(t, c).Some?, argv, 0, at))
    ensures var w := WalkGroupedOf(t, argv);
      w.stop == AtDashDash(at) ==>
        ParseGrouped(t, argv).args == w.args + DashDashArgs(t.inputOptionId, t.dashDashAsSinglePack, argv, at)
  {
    BehindPositional(t, argv);
    GroupedAlwaysShrinks(t);
    FlagRounds(t);
    WalkCloses(ReadingOf(t).known, GroupedStepOf(t), argv, 0, at);
  }

  /** So a known letter and a dash turn everything behind the word into positional arguments. */
  lemma TrailingDashClosesOptions(t: Table, c: char, argv: seq<string>)
    requires FlagTable(t) && t.dashDashParsing && Letter(c) && Lookup(t, c).Some?
    requires |argv| > 0 && argv[0] == ['-', c, '-']
    ensures WalkGroupedOf(t, argv) == GroupedWalk([Unit(t, c, 0)], argv[0 := "--"], AtDashDash(0))
  {
    GroupedAlwaysShrinks(t);
    TrailingDashRound(t, argv, c);
    OneRoundThenClosed(GroupedStepOf(t), argv, Unit(t, c, 0));
  }

  lemma TrailingDashRound(t: Table, argv: seq<string>, c: char)
    requires FlagTable(t) && |argv| > 0 && argv[0] == ['-', c, '-'] && Letter(c) && Lookup(t, c).Some?
    ensures GroupedStepOf(t)(argv, 0) == Emit(Unit(t, c, 0), "--", 0)
  {
    assert ['-', c, '-'] == "-" + [c, '-'] && "-" + [c, '-'][1..] == "--";
    GroupedRound(t, argv, 0, [c, '-']);
  }

  lemma OneRoundThenClosed(step: GroupedStep, argv: seq<string>, a: ParsedArg)
    requires AlwaysShrinks(step) && |argv| > 0 && |argv[0]| == 3 && step(argv, 0) == Emit(a, "--", 0)
    ensures WalkGrouped(true, step, argv, 0) == GroupedWalk([a], argv[0 := "--"], AtDashDash(0))
  {
    var next := WalkGrouped(true, step, argv[0 := "--"], 0);
    assert next == GroupedWalk([], argv[0 := "--"], AtDashDash(0));
    assert [a] + [] == [a];
  }

  // ------------------------------------------------------------ binary search in grouped mode

  lemma {:induction false} LastSkips(infos: seq<Info>, lo: nat, mid: nat, hi: nat, takes: Info -> bool)
    requires lo <= mid <= hi <= |infos|
    requires forall k :: lo <= k < mid ==> !takes(infos[k])
    ensures LastBefore(infos, lo, hi, takes) == LastBefore(infos, mid, hi, takes)
    decreases hi
  {
    if mid < hi {
      LastSkips(infos, lo, mid, hi - 1, takes);
    }
  }

  /** The binary search start changes no grouped step either. */
  lemma GroupedFastEqualsLinear(t: Table, args: seq<string>, index: nat)
    requires t.WellFormed() && t.Sorted() && t.PrefixesCovered() && NamesStayPut(t)
    requires index < |args| && args[index] != ""
    ensures ParseOneGrouped(Fast(t), args, index) == ParseOneGrouped(Linear(t), args, index)
  {
    FastChoosesSame(t, args[index], NO_FILTER);
    FastFallback(t, args[index]);
  }

  lemma FastFallback(t: Table, str: string)
    requires t.WellFormed() && t.Sorted() && t.PrefixesCovered() && NamesStayPut(t)
    ensures FallbackFlag(Fast(t), str) == FallbackFlag(Linear(t), str)
  {
    BinaryStartExact(t);
    assert SkipsNoMatch(t, str);
    LastSkips(t.infos, t.firstSearchableIndex, ScanStart(Fast(t), str), |t.infos|, ShortFlag(str, t.ignoreCase));
  }

  lemma {:induction false} SameGroupedSteps(dashDash: bool, r: GroupedStep, s: GroupedStep, words: seq<string>, i: nat)
    requires AlwaysShrinks(r) && AlwaysShrinks(s)
    requires forall w: seq<string>, k: nat :: k < |w| && w[k] != "" ==> r(w, k) == s(w, k)
    ensures WalkGrouped(dashDash, r, words, i) == WalkGrouped(dashDash, s, words, i)
    decreases |words| - i, if i < |words| then |words[i]| else 0
  {
    if i < |words| {
      if words[i] == "" {
        SameGroupedSteps(dashDash, r, s, words, i + 1);
      } else {
        assert Shrinks(words, i, r(words, i));
        if r(words, i).Emit? {
          SameGroupedSteps(dashDash, r, s, words[i := r(words, i).word], r(words, i).next);
        }
      }
    }
  }

  /** Nor any grouped run. */
  lemma GroupedFastRun(t: Table, argv: seq<string>)
    requires t.WellFormed() && t.Sorted() && t.PrefixesCovered() && NamesStayPut(t)
    ensures ParseGrouped(Fast(t), argv) == ParseGrouped(Linear(t), argv)
  {
    var f, l := GroupedStepOf(Fast(t)), GroupedStepOf(Linear(t));
    GroupedAlwaysShrinks(Fast(t));
    GroupedAlwaysShrinks(Linear(t));
    forall w: seq<string>, k: nat | k < |w| && w[k] != "" ensures f(w, k) == l(w, k) {
      GroupedFastEqualsLinear(t, w, k);
    }
    SameGroupedSteps(t.dashDashParsing, f, l, argv, 0);
  }

  /** So grouping agrees with separate words in the fast mode as well. */
  lemma FastGroupedEqualsSeparate(t: Table, cs: string)
    requires FlagTable(Linear(t)) && t.Sorted() && t.PrefixesCovered() && NamesStayPut(t)
    requires cs != "" && AllCharacters(cs)
    ensures Forget(ParseGrouped(Fast(t), ["-" + cs]).args) == Forget(Parse(Fast(t), Separate(cs), NO_FILTER).args)
            <==> Lookup(t, cs[|cs| - 1]).Some? && NoValues(t, cs)
  {
    GroupedFastRun(t, ["-" + cs]);
    FastRun(t, Separate(cs), NO_FILTER);
    GroupedEqualsSeparate(Linear(t), cs);
  }
}
