/** One step of the ungrouped parser: which option takes the word at hand, and the binary-search
    start against the linear scan (src/common/option/opt_table.cc). */
module OptParse {
  import opened Util
  import opened OptInfo
  import opened OptOrder
  import opened OptAccept

  /** Drops the leading prefix characters. */
  function LTrimAllOf(str: string, chars: seq<char>): string {
    if str != "" && str[0] in chars then LTrimAllOf(str[1..], chars) else str
  }

  /** What is dropped are prefix characters, and what is left does not start with one. */
  lemma {:induction false} LTrimMeans(str: string, chars: seq<char>)
    ensures var left := LTrimAllOf(str, chars); var n := |str| - |left|;
      && 0 <= n && left == str[n..] && (forall k :: 0 <= k < n ==> str[k] in chars)
      && (left != "" ==> left[0] !in chars)
  {
    if str != "" && str[0] in chars {
      LTrimMeans(str[1..], chars);
      var n := |str[1..]| - |LTrimAllOf(str[1..], chars)|;
      assert forall k :: 1 <= k < n + 1 ==> str[k] == str[1..][k - 1];
    }
  }

  predicate IsInput(t: Table, arg: string) {
    arg == "-" || forall p :: p in t.prefixesUnion ==> !(p <= arg)
  }

  predicate NameMatches(name: string, rest: string, ignoreCase: bool) {
    if ignoreCase then StartsWithInsensitive(rest, name) else name <= rest
  }

  function MatchPrefixes(name: string, prefixes: seq<string>, str: string, ignoreCase: bool): (r: nat)
    ensures r <= |str|
  {
    if prefixes == [] then 0
    else if prefixes[0] <= str && NameMatches(name, str[|prefixes[0]|..], ignoreCase) then |prefixes[0]| + |name|
    else MatchPrefixes(name, prefixes[1..], str, ignoreCase)
  }

  /** The length of `str` that option `info` matches; 0 for no match. */
  function MatchOpt(info: Info, str: string, ignoreCase: bool): (r: nat)
    ensures r <= |str|
  {
    MatchPrefixes(info.Name(), info.prefixes, str, ignoreCase)
  }

  /** A match is one of the prefixes followed by the name, and a missing match means no prefix with
      the name after it opens the string. */
  lemma {:induction false} MatchMeans(name: string, prefixes: seq<string>, str: string, ignoreCase: bool)
    ensures var r := MatchPrefixes(name, prefixes, str, ignoreCase);
            && (r > 0 ==>
                  exists p ::
                    p in prefixes && p <= str && r == |p| + |name| && NameMatches(name, str[|p|..], ignoreCase))
            && (r == 0 && name != "" ==>
                  forall p :: p in prefixes ==> !(p <= str && NameMatches(name, str[|p|..], ignoreCase)))
  {
    if prefixes != [] {
      var p0 := prefixes[0];
      MatchMeans(name, prefixes[1..], str, ignoreCase);
      assert p0 in prefixes && forall p :: p in prefixes[1..] ==> p in prefixes;
      if !(p0 <= str && NameMatches(name, str[|p0|..], ignoreCase)) {
        assert forall p :: p in prefixes && p != p0 ==> p in prefixes[1..];
      }
    }
  }

  /** A match splits the string: prefix, name as written, and the rest. */
  lemma MatchParts(info: Info, ignoreCase: bool, str: string) returns (p: string, n: string, tail: string)
    requires MatchOpt(info, str, ignoreCase) > 0
    ensures p in info.prefixes && str == p + (n + tail) && Writes(info.Name(), n, ignoreCase)
    ensures MatchOpt(info, str, ignoreCase) == |p| + |info.Name()|
  {
    var name := info.Name();
    MatchMeans(name, info.prefixes, str, ignoreCase);
    p :| p in info.prefixes && p <= str && MatchOpt(info, str, ignoreCase) == |p| + |name|
         && NameMatches(name, str[|p|..], ignoreCase);
    n, tail := SplitAtName(name, str[|p|..], ignoreCase);
  }

  lemma SplitAtName(name: string, rest: string, ignoreCase: bool) returns (n: string, tail: string)
    requires NameMatches(name, rest, ignoreCase)
    ensures rest == n + tail && Writes(name, n, ignoreCase)
  {
    n, tail := rest[..|name|], rest[|name|..];
  }

  type Filter = Info -> bool

  const NO_FILTER: Filter := (info: Info) => false

  /** The option matches the word, is not excluded and does not refuse the word. */
  predicate Takes(info: Info, str: string, ignoreCase: bool, exclude: Filter) {
    var size := MatchOpt(info, str, ignoreCase);
    size > 0 && !exclude(info) && !Refuses(info.kind, size == |str|)
  }

  /** The first entry from `start` on that `takes`. */
  function FirstFrom(infos: seq<Info>, start: nat, takes: Info -> bool): (r: Option<nat>)
    requires start <= |infos|
    ensures r.Some? ==> start <= r.value < |infos| && takes(infos[r.value])
    decreases |infos| - start
  {
    if start == |infos| then None
    else if takes(infos[start]) then Some(start)
    else FirstFrom(infos, start + 1, takes)
  }

  lemma {:induction false} FirstFromIs(infos: seq<Info>, start: nat, takes: Info -> bool)
    requires start <= |infos|
    ensures var r := FirstFrom(infos, start, takes);
            forall j :: start <= j < (if r.Some? then r.value else |infos|) ==> !takes(infos[j])
    decreases |infos| - start
  {
    if start < |infos| && !takes(infos[start]) {
      FirstFromIs(infos, start + 1, takes);
    }
  }

  function Taker(str: string, ignoreCase: bool, exclude: Filter): Info -> bool {
    (info: Info) => Takes(info, str, ignoreCase, exclude)
  }

  /** The option the scan ends on when it begins at `start`. */
  function Chosen(infos: seq<Info>, ignoreCase: bool, str: string, start: nat, exclude: Filter): (r: Option<nat>)
    requires start <= |infos|
    ensures r.Some? ==> start <= r.value < |infos| && Takes(infos[r.value], str, ignoreCase, exclude)
  {
    FirstFrom(infos, start, Taker(str, ignoreCase, exclude))
  }

  function ScanStart(t: Table, str: string): (r: nat)
    requires t.WellFormed()
    ensures t.firstSearchableIndex <= r <= |t.infos|
  {
    if t.tablegenMode then LowerBound(Names(t.infos), t.firstSearchableIndex, LTrimAllOf(str, t.prefixChars))
    else t.firstSearchableIndex
  }

  lemma MatchedOptionAccepts(t: Table, k: nat, str: string)
    requires t.WellFormed() && t.firstSearchableIndex <= k < |t.infos|
    requires MatchOpt(t.infos[k], str, t.ignoreCase) > 0
    ensures Accepting(t.infos[k].kind)
  {
  }

  /** The word is a lone `-`, or starts with no prefix, or no option took it. */
  function Conclude(infos: seq<Info>, ignoreCase: bool, inputId: nat, unknownId: nat,
                    args: seq<string>, index: nat, chosen: Option<nat>)
    : (r: (Option<ParsedArg>, nat))
    requires AliasesOk(infos) && index < |args|
    requires chosen.Some? ==>
      && chosen.value < |infos|
      && Accepting(infos[chosen.value].kind)
      && var size := MatchOpt(infos[chosen.value], args[index], ignoreCase);
         !Refuses(infos[chosen.value].kind, size == |args[index]|)
    ensures r.1 > index
  {
    var str := args[index];
    match chosen
    case Some(k) =>
      var spelling := str[..MatchOpt(infos[k], str, ignoreCase)];
      AcceptOutcomes(infos[k], args, spelling, index);
      Accept(infos, infos[k], args, spelling, false, index)
    case None =>
      if str != "" && str[0] == '/' then (Some(Plain(inputId, str, [], index)), index + 1)
      else (Some(Plain(unknownId, str, [], index)), index + 1)
  }

  /** What one call of the ungrouped parser returns and where it leaves the position. */
  function ParseOne(t: Table, args: seq<string>, index: nat, exclude: Filter): (r: (Option<ParsedArg>, nat))
    requires t.WellFormed() && index < |args|
    ensures r.1 > index
  {
    var str := args[index];
    if IsInput(t, str) then (Some(Plain(t.inputOptionId, str, [], index)), index + 1)
    else
      Conclude(t.infos, t.ignoreCase, t.inputOptionId, t.unknownOptionId, args, index,
               Chosen(t.infos, t.ignoreCase, str, ScanStart(t, str), exclude))
  }

  function KindOf(infos: seq<Info>, id: nat): Kind {
    if 1 <= id <= |infos| then infos[id - 1].kind else UnknownClass
  }

  function NumArgsOf(infos: seq<Info>, id: nat): nat {
    if 1 <= id <= |infos| then infos[id - 1].numArgs else 0
  }

  /** The argument stands for exactly these words. */
  predicate CoversWords(infos: seq<Info>, a: ParsedArg, words: seq<string>) {
    Covers(KindOf(infos, a.optionId), NumArgsOf(infos, a.optionId), a.spelling, a.values, words)
  }

  /** A step emits an argument that covers exactly the words it moved over, or it misses a value and
      then stops short of the end only at an empty word that is not the last one. */
  predicate StepResult(infos: seq<Info>, args: seq<string>, index: nat, missing: bool, r: (Option<ParsedArg>, nat)) {
    if missing then
      && r.0.None?
      && r.1 >= index + 2
      && (r.1 < |args| ==> r.1 == index + 2 && args[index + 1] == "")
    else
      && r.0.Some?
      && index < r.1 <= |args|
      && r.0.value.index == index
      && CoversWords(infos, r.0.value, args[index..r.1])
  }

  /** The step chose an option that misses its value. */
  predicate StepMissesValue(t: Table, args: seq<string>, index: nat, exclude: Filter)
    requires t.WellFormed() && index < |args|
  {
    var str := args[index];
    var c := Chosen(t.infos, t.ignoreCase, str, ScanStart(t, str), exclude);
    && !IsInput(t, str)
    && c.Some?
    && ValueMissing(t.infos[c.value], args, MatchOpt(t.infos[c.value], str, t.ignoreCase) == |str|, index)
  }

  /** Main result on one step of the ungrouped parser. */
  lemma ParseOneOutcome(t: Table, args: seq<string>, index: nat, exclude: Filter)
    requires t.WellFormed() && index < |args|
    ensures StepResult(t.infos, args, index, StepMissesValue(t, args, index, exclude),
                       ParseOne(t, args, index, exclude))
  {
    var str := args[index];
    var c := Chosen(t.infos, t.ignoreCase, str, ScanStart(t, str), exclude);
    if IsInput(t, str) || c.None? {
      assert args[index..index + 1] == [str];
    } else {
      ConcludeOutcome(t.infos, t.ignoreCase, t.inputOptionId, t.unknownOptionId, args, index, c.value);
    }
  }

  lemma FirstFromUnique(infos: seq<Info>, start: nat, k: nat, takes: Info -> bool)
    requires start <= k < |infos| && takes(infos[k])
    requires forall j :: start <= j < k ==> !takes(infos[j])
    ensures FirstFrom(infos, start, takes) == Some(k)
  {
    FirstFromIs(infos, start, takes);
  }

  lemma FirstTakerIsChosen(infos: seq<Info>, ignoreCase: bool, str: string, start: nat, exclude: Filter, k: nat)
    requires start <= k < |infos| && Takes(infos[k], str, ignoreCase, exclude)
    requires forall j {:trigger Takes(infos[j], str, ignoreCase, exclude)} ::
      start <= j < k ==> !Takes(infos[j], str, ignoreCase, exclude)
    ensures Chosen(infos, ignoreCase, str, start, exclude) == Some(k)
  {
    var takes := Taker(str, ignoreCase, exclude);
    forall j | start <= j < k ensures !takes(infos[j]) {
      assert !Takes(infos[j], str, ignoreCase, exclude);
    }
    FirstFromUnique(infos, start, k, takes);
  }

  lemma AcceptedAs(infos: seq<Info>, args: seq<string>, spelling: string, index: nat, k: nat)
    requires AliasesOk(infos) && Numbered(infos) && index < |args| && k < |infos| && Accepting(infos[k].kind)
    requires spelling <= args[index]
    ensures var a := Accept(infos, infos[k], args, spelling, false, index).0;
      a.Some? ==>
        && a.value.optionId == k + 1 && a.value.spelling == spelling
        && a.value.UnaliasedOpt() == (if infos[k].aliasId != 0 then infos[k].aliasId else k + 1)
  {
    AcceptOutcomes(infos[k], args, spelling, index);
    var a := AcceptInternal(infos[k], args, spelling, index).0;
    if a.Some? {
      AliasMeaning(infos, infos[k], a.value);
    }
  }

  lemma ChosenIsParsed(t: Table, args: seq<string>, index: nat, exclude: Filter, k: nat)
    requires t.WellFormed() && index < |args| && !IsInput(t, args[index]) && k < |t.infos|
    requires Chosen(t.infos, t.ignoreCase, args[index], ScanStart(t, args[index]), exclude) == Some(k)
    ensures Accepting(t.infos[k].kind)
    ensures var a := ParseOne(t, args, index, exclude).0;
      a.Some? ==>
        && a.value.optionId == k + 1
        && a.value.spelling == args[index][..MatchOpt(t.infos[k], args[index], t.ignoreCase)]
        && a.value.UnaliasedOpt() == (if t.infos[k].aliasId != 0 then t.infos[k].aliasId else k + 1)
  {
    MatchedOptionAccepts(t, k, args[index]);
    AcceptedAs(t.infos, args, args[index][..MatchOpt(t.infos[k], args[index], t.ignoreCase)], index, k);
  }

  /** Which option it is: the first from the scan's start that takes the word, under the spelling it matched,
      and known by the name of its alias target. */
  lemma FirstTakerIsParsed(t: Table, args: seq<string>, index: nat, exclude: Filter, k: nat)
    requires t.WellFormed() && index < |args| && !IsInput(t, args[index])
    requires ScanStart(t, args[index]) <= k < |t.infos| && Takes(t.infos[k], args[index], t.ignoreCase, exclude)
    requires forall j {:trigger Takes(t.infos[j], args[index], t.ignoreCase, exclude)} ::
      ScanStart(t, args[index]) <= j < k ==> !Takes(t.infos[j], args[index], t.ignoreCase, exclude)
    ensures var a := ParseOne(t, args, index, exclude).0;
      a.Some? ==>
        && a.value.optionId == k + 1
        && a.value.spelling == args[index][..MatchOpt(t.infos[k], args[index], t.ignoreCase)]
        && a.value.UnaliasedOpt() == (if t.infos[k].aliasId != 0 then t.infos[k].aliasId else k + 1)
  {
    FirstTakerIsChosen(t.infos, t.ignoreCase, args[index], ScanStart(t, args[index]), exclude, k);
    ChosenIsParsed(t, args, index, exclude, k);
  }

  /** The option matches the word and may have it. */
  predicate MayHave(t: Table, str: string, exclude: Filter, k: nat)
    requires k < |t.infos|
  {
    var size := MatchOpt(t.infos[k], str, t.ignoreCase);
    size > 0 && !exclude(t.infos[k])
    && (size == |str| || t.infos[k].kind.JoinedClass? || t.infos[k].kind.CommaJoinedClass?
        || t.infos[k].kind.JoinedOrSeparateClass? || t.infos[k].kind.JoinedAndSeparateClass?
        || t.infos[k].kind.RemainingArgsJoinedClass?)
  }

  predicate NoTaker(t: Table, str: string, exclude: Filter)
    requires t.WellFormed()
  {
    forall k :: ScanStart(t, str) <= k < |t.infos| ==> !MayHave(t, str, exclude, k)
  }

  predicate IsFirstTaker(t: Table, str: string, exclude: Filter, k: nat)
    requires t.WellFormed()
  {
    ScanStart(t, str) <= k < |t.infos| && MayHave(t, str, exclude, k)
    && forall j :: ScanStart(t, str) <= j < k ==> !MayHave(t, str, exclude, j)
  }

  lemma MayHaveIsTakes(t: Table, str: string, exclude: Filter, k: nat)
    requires t.WellFormed() && t.firstSearchableIndex <= k < |t.infos|
    ensures MayHave(t, str, exclude, k) <==> Takes(t.infos[k], str, t.ignoreCase, exclude)
  {
    if MatchOpt(t.infos[k], str, t.ignoreCase) > 0 {
      MatchedOptionAccepts(t, k, str);
    }
  }

  lemma ChosenIsFirst(t: Table, str: string, exclude: Filter)
    requires t.WellFormed()
    ensures var c := Chosen(t.infos, t.ignoreCase, str, ScanStart(t, str), exclude);
      if c.Some? then IsFirstTaker(t, str, exclude, c.value) else NoTaker(t, str, exclude)
  {
    var taker := Taker(str, t.ignoreCase, exclude);
    FirstFromIs(t.infos, ScanStart(t, str), taker);
    forall k | ScanStart(t, str) <= k < |t.infos| ensures MayHave(t, str, exclude, k) <==> taker(t.infos[k]) {
      MayHaveIsTakes(t, str, exclude, k);
    }
  }

  predicate Prefixed(t: Table, str: string) { str != "-" && exists p :: p in t.prefixesUnion && p <= str }

  /** The options' part of a step's reading. */
  ghost predicate ReadAsOption(t: Table, str: string, exclude: Filter, a: Option<ParsedArg>)
    requires t.WellFormed()
  {
    a.Some? ==> exists k: nat :: IsFirstTaker(t, str, exclude, k) && a.value.optionId == k + 1
  }

  lemma ReadsInput(t: Table, args: seq<string>, index: nat, exclude: Filter)
    requires t.WellFormed() && index < |args| && !Prefixed(t, args[index])
    ensures ParseOne(t, args, index, exclude).0 == Some(Plain(t.inputOptionId, args[index], [], index))
  {
  }

  lemma ReadsUntaken(t: Table, args: seq<string>, index: nat, exclude: Filter)
    requires t.WellFormed() && index < |args| && Prefixed(t, args[index]) && NoTaker(t, args[index], exclude)
    ensures ParseOne(t, args, index, exclude).0 ==
      var id := if args[index] != "" && args[index][0] == '/' then t.inputOptionId else t.unknownOptionId;
      Some(Plain(id, args[index], [], index))
  {
    ChosenIsFirst(t, args[index], exclude);
  }

  lemma ReadsOption(t: Table, args: seq<string>, index: nat, exclude: Filter)
    requires t.WellFormed() && index < |args| && Prefixed(t, args[index]) && !NoTaker(t, args[index], exclude)
    ensures ReadAsOption(t, args[index], exclude, ParseOne(t, args, index, exclude).0)
  {
    var str := args[index];
    ChosenIsFirst(t, str, exclude);
    ChosenIsParsed(t, args, index, exclude,
                   Chosen(t.infos, t.ignoreCase, str, ScanStart(t, str), exclude).value);
  }

  /** Main result on what a word is read as. A lone `-`, or a word that no known prefix opens, is an input as it stands;
      otherwise the first option from the scan's start that matches it with a prefix and its name, is not excluded and
      does not refuse it has it; otherwise it is an input if it starts with a slash, and unknown. */
  lemma WordIsReadAs(t: Table, args: seq<string>, index: nat, exclude: Filter)
    requires t.WellFormed() && index < |args|
    ensures
      var str, a := args[index], ParseOne(t, args, index, exclude).0;
      if !Prefixed(t, str) then a == Some(Plain(t.inputOptionId, str, [], index))
      else if !NoTaker(t, str, exclude) then ReadAsOption(t, str, exclude, a)
      else a == Some(Plain(if str != "" && str[0] == '/' then t.inputOptionId else t.unknownOptionId, str, [], index))
  {
    if !Prefixed(t, args[index]) {
      ReadsInput(t, args, index, exclude);
    } else if NoTaker(t, args[index], exclude) {
      ReadsUntaken(t, args, index, exclude);
    } else {
      ReadsOption(t, args, index, exclude);
    }
  }

  /** The option the step chose wants the next word as its value. */
  predicate StepWantsNextWord(t: Table, word: string, exclude: Filter)
    requires t.WellFormed()
  {
    var c := Chosen(t.infos, t.ignoreCase, word, ScanStart(t, word), exclude);
    && !IsInput(t, word) && c.Some?
    && WantsNextWord(t.infos[c.value].kind, MatchOpt(t.infos[c.value], word, t.ignoreCase) == |word|)
  }

  /** A step that misses its value stops short of the end exactly when the option wants the next word
      and that word is empty but not the last. */
  lemma MissingShort(t: Table, args: seq<string>, index: nat, exclude: Filter)
    requires t.WellFormed() && index < |args| && StepMissesValue(t, args, index, exclude)
    ensures ParseOne(t, args, index, exclude).1 < |args| <==>
              StepWantsNextWord(t, args[index], exclude) && index + 2 < |args| && args[index + 1] == ""
  {
    var word := args[index];
    var k := Chosen(t.infos, t.ignoreCase, word, ScanStart(t, word), exclude).value;
    var spelling := word[..MatchOpt(t.infos[k], word, t.ignoreCase)];
    assert spelling == word <==> |spelling| == |word|;
    MissingReachesEnd(t.infos[k], args, spelling, index);
  }

  lemma ConcludeOutcome(infos: seq<Info>, ignoreCase: bool, inputId: nat, unknownId: nat,
                        args: seq<string>, index: nat, k: nat)
    requires AliasesOk(infos) && index < |args| && k < |infos| && infos[k].id == k + 1 && Accepting(infos[k].kind)
    requires !Refuses(infos[k].kind, MatchOpt(infos[k], args[index], ignoreCase) == |args[index]|)
    ensures StepResult(infos, args, index,
              ValueMissing(infos[k], args, MatchOpt(infos[k], args[index], ignoreCase) == |args[index]|, index),
              Conclude(infos, ignoreCase, inputId, unknownId, args, index, Some(k)))
  {
    var spelling := args[index][..MatchOpt(infos[k], args[index], ignoreCase)];
    assert spelling == args[index] <==> |spelling| == |args[index]|;
    AcceptOutcome(infos, args, spelling, index, k);
  }

  lemma AcceptOutcome(infos: seq<Info>, args: seq<string>, spelling: string, index: nat, k: nat)
    requires AliasesOk(infos) && index < |args| && k < |infos| && infos[k].id == k + 1 && Accepting(infos[k].kind)
    requires spelling <= args[index] && !Refuses(infos[k].kind, spelling == args[index])
    ensures StepResult(infos, args, index, ValueMissing(infos[k], args, spelling == args[index], index),
              Accept(infos, infos[k], args, spelling, false, index))
  {
    var info := infos[k];
    AcceptOutcomes(info, args, spelling, index);
    if ValueMissing(info, args, spelling == args[index], index) {
      MissingReachesEnd(info, args, spelling, index);
    } else {
      var a := AcceptInternal(info, args, spelling, index).0.value;
      assert WithAlias(infos, info, a).optionId == k + 1;
    }
  }

  // ------------------------------------------------------------ binary search against linear scan

  /** The options passed over by the binary search match nothing. */
  predicate SkipsNoMatch(t: Table, str: string)
    requires t.WellFormed()
  {
    var start := LowerBound(Names(t.infos), t.firstSearchableIndex, LTrimAllOf(str, t.prefixChars));
    forall k :: t.firstSearchableIndex <= k < start ==> MatchOpt(t.infos[k], str, t.ignoreCase) == 0
  }

  /** `n` is a way to write option name `name`. */
  predicate Writes(name: string, n: string, ignoreCase: bool) {
    if ignoreCase then EqualInsensitive(n, name) else n == name
  }

  /** However the name is written, trimming prefix characters off its front does not carry it past
      its own place in the order. */
  ghost predicate StaysPut(name: string, chars: seq<char>, ignoreCase: bool) {
    forall n :: Writes(name, n, ignoreCase) ==> !NameLess(name, LTrimAllOf(n, chars))
  }

  ghost predicate NamesStayPut(t: Table)
    requires t.WellFormed()
  {
    forall k :: t.firstSearchableIndex <= k < |t.infos| && t.infos[k].prefixes != []
      ==> StaysPut(t.infos[k].Name(), t.prefixChars, t.ignoreCase)
  }

  /** The check a table author makes: no name starts, in either case, with a prefix character. */
  predicate NameClean(name: string, chars: seq<char>) {
    name == "" || forall c :: c in chars ==> ToLower(c) != ToLower(name[0])
  }

  predicate NamesClean(t: Table)
    requires t.WellFormed()
  {
    forall k :: t.firstSearchableIndex <= k < |t.infos| && t.infos[k].prefixes != []
      ==> NameClean(t.infos[k].Name(), t.prefixChars)
  }

  lemma CleanStaysPut(name: string, chars: seq<char>, ignoreCase: bool)
    requires NameClean(name, chars)
    ensures StaysPut(name, chars, ignoreCase)
  {
    forall n | Writes(name, n, ignoreCase) ensures !NameLess(name, LTrimAllOf(n, chars)) {
      assert EqualInsensitive(n, name) && EqualInsensitive(name, n);
      if name != "" {
        assert ToLower(n[0]) == ToLower(name[0]);
        assert LTrimAllOf(n, chars) == n;
        TotalPreorder(name, n, n);
      }
    }
  }

  lemma {:induction false} LTrimPrefix(p: string, rest: string, chars: seq<char>)
    requires forall c :: c in p ==> c in chars
    ensures LTrimAllOf(p + rest, chars) == LTrimAllOf(rest, chars)
  {
    if p == "" {
      assert p + rest == rest;
    } else {
      assert (p + rest)[1..] == p[1..] + rest;
      LTrimPrefix(p[1..], rest, chars);
    }
  }

  lemma {:induction false} LTrimSuffix(n: string, tail: string, chars: seq<char>)
    ensures var m := LTrimAllOf(n, chars);
            && |m| <= |n| && (|m| == |n| ==> m == n)
            && (m != "" ==> LTrimAllOf(n + tail, chars) == m + tail)
  {
    if n != "" && n[0] in chars {
      LTrimSuffix(n[1..], tail, chars);
      assert (n + tail)[1..] == n[1..] + tail;
    }
  }

  /** A name above a string that does not extend it stays above every extension of that string. */
  lemma {:induction false} NotLessExtends(name: string, m: string, tail: string)
    requires m != "" && !NameLess(name, m) && (|m| < |name| || EqualInsensitive(m, name))
    ensures !NameLess(name, m + tail)
  {
    if EqualInsensitive(m, name) {
      assert (m + tail)[..|name|] == m;
      PrefixNotLess(name, m + tail);
    } else {
      assert m[..|m|] == m;
      if EqualInsensitive(name[..|m|], m) {
        PrefixNotLess(m, name);
        TotalPreorder(m, name, m);
        assert false;
      }
      DifferenceDecides(name, m, tail);
    }
  }

  lemma EqualTail(a: string, b: string)
    requires a != "" && b != "" && ToLower(a[0]) == ToLower(b[0]) && EqualInsensitive(a[1..], b[1..])
    ensures EqualInsensitive(a, b)
  {
    forall i | 0 <= i < |a| ensures ToLower(a[i]) == ToLower(b[i]) {
      if i > 0 { assert ToLower(a[1..][i - 1]) == ToLower(b[1..][i - 1]); }
    }
  }

  lemma {:induction false} DifferenceDecides(name: string, m: string, tail: string)
    requires |m| < |name| && !EqualInsensitive(name[..|m|], m)
    ensures StrCmpOptName(name, m + tail, false) == StrCmpOptName(name, m, false)
  {
    if m == "" {
      assert false;
    } else if ToLower(name[0]) == ToLower(m[0]) {
      assert name[..|m|][1..] == name[1..][..|m| - 1];
      if EqualInsensitive(name[1..][..|m| - 1], m[1..]) {
        EqualTail(name[..|m|], m);
      }
      DifferenceDecides(name[1..], m[1..], tail);
      assert (m + tail)[1..] == m[1..] + tail;
      StrCmpTail(name, m);
      StrCmpTail(name, m + tail);
    } else {
      StrCmpIsLex(name, m);
      StrCmpIsLex(name, m + tail);
      RankInjective(ToLower(name[0]), ToLower(m[0]));
    }
  }

  lemma AboveEmpty(name: string)
    requires name != ""
    ensures NameLess(name, "")
  {
  }

  /** A matching name that stays put is never below the trimmed string. */
  lemma MatchNotLess(info: Info, chars: seq<char>, ignoreCase: bool, str: string)
    requires info.PrefixesOf(chars) && StaysPut(info.Name(), chars, ignoreCase) && MatchOpt(info, str, ignoreCase) > 0
    ensures !NameLess(info.Name(), LTrimAllOf(str, chars))
  {
    var name := info.Name();
    var p, n, tail := MatchParts(info, ignoreCase, str);
    LTrimPrefix(p, n + tail, chars);
    LTrimSuffix(n, tail, chars);
    var m := LTrimAllOf(n, chars);
    if name != "" {
      AboveEmpty(name);
      NotLessExtends(name, m, tail);
    }
  }

  /** Main result: in a sorted table the binary search passes over no matching option, on any string,
      exactly when every option name stays put under trimming. */
  lemma BinaryStartExact(t: Table)
    requires t.WellFormed() && t.Sorted() && t.PrefixesCovered()
    ensures NamesStayPut(t) <==> forall str :: SkipsNoMatch(t, str)
  {
    if NamesStayPut(t) {
      forall str ensures SkipsNoMatch(t, str) {
        var start := LowerBound(Names(t.infos), t.firstSearchableIndex, LTrimAllOf(str, t.prefixChars));
        forall k | t.firstSearchableIndex <= k < start
          ensures MatchOpt(t.infos[k], str, t.ignoreCase) == 0
        {
          if MatchOpt(t.infos[k], str, t.ignoreCase) > 0 {
            MatchNotLess(t.infos[k], t.prefixChars, t.ignoreCase, str);
          }
        }
      }
    } else {
      var k, n :| t.firstSearchableIndex <= k < |t.infos| && t.infos[k].prefixes != []
                  && Writes(t.infos[k].Name(), n, t.ignoreCase)
                  && NameLess(t.infos[k].Name(), LTrimAllOf(n, t.prefixChars));
      SkipsWitness(t, k, n);
      assert !SkipsNoMatch(t, t.infos[k].prefixes[0] + n);
    }
  }

  lemma SkipsWitness(t: Table, k: nat, n: string)
    requires t.WellFormed() && t.Sorted() && t.PrefixesCovered()
    requires t.firstSearchableIndex <= k < |t.infos| && t.infos[k].prefixes != []
    requires Writes(t.infos[k].Name(), n, t.ignoreCase) && NameLess(t.infos[k].Name(), LTrimAllOf(n, t.prefixChars))
    ensures var str := t.infos[k].prefixes[0] + n;
            && n != ""
            && MatchOpt(t.infos[k], str, t.ignoreCase) == |str|
            && k < LowerBound(Names(t.infos), t.firstSearchableIndex, LTrimAllOf(str, t.prefixChars))
  {
    var info := t.infos[k];
    var p := info.prefixes[0];
    FirstPrefixMatches(info.Name(), info.prefixes, n, t.ignoreCase);
    assert p in info.prefixes;
    LTrimPrefix(p, n, t.prefixChars);
    BelowIsSkipped(Names(t.infos), t.firstSearchableIndex, k, LTrimAllOf(n, t.prefixChars));
  }

  lemma FirstPrefixMatches(name: string, prefixes: seq<string>, n: string, ignoreCase: bool)
    requires prefixes != [] && Writes(name, n, ignoreCase)
    ensures MatchPrefixes(name, prefixes, prefixes[0] + n, ignoreCase) == |prefixes[0] + n|
  {
    assert (prefixes[0] + n)[|prefixes[0]|..] == n && n[..|n|] == n;
  }

  lemma BelowIsSkipped(names: seq<string>, first: nat, k: nat, key: string)
    requires SortedFrom(names, first) && first <= k < |names| && NameLess(names[k], key)
    ensures k < LowerBound(names, first, key)
  {
    var r := LowerBound(names, first, key);
    if r <= k {
      TotalPreorder(names[r], names[k], key);
    }
  }

  lemma {:induction false} FirstSkips(infos: seq<Info>, lo: nat, hi: nat, takes: Info -> bool)
    requires lo <= hi <= |infos|
    requires forall k :: lo <= k < hi ==> !takes(infos[k])
    ensures FirstFrom(infos, lo, takes) == FirstFrom(infos, hi, takes)
    decreases hi - lo
  {
    if lo < hi {
      FirstSkips(infos, lo + 1, hi, takes);
    }
  }

  function Fast(t: Table): Table { t.(tablegenMode := true) }

  function Linear(t: Table): Table { t.(tablegenMode := false) }

  /** Main result: with names that stay put, starting at the lower bound returns the same argument and
      the same position as the full scan, for every command line and every filter. */
  lemma FastEqualsLinear(t: Table, args: seq<string>, index: nat, exclude: Filter)
    requires t.WellFormed() && t.Sorted() && t.PrefixesCovered() && NamesStayPut(t) && index < |args|
    ensures Fast(t).WellFormed() && Linear(t).WellFormed()
    ensures ParseOne(Fast(t), args, index, exclude) == ParseOne(Linear(t), args, index, exclude)
  {
    FastChoosesSame(t, args[index], exclude);
  }

  lemma FastChoosesSame(t: Table, str: string, exclude: Filter)
    requires t.WellFormed() && t.Sorted() && t.PrefixesCovered() && NamesStayPut(t)
    ensures Chosen(t.infos, t.ignoreCase, str, ScanStart(Fast(t), str), exclude)
            == Chosen(t.infos, t.ignoreCase, str, t.firstSearchableIndex, exclude)
  {
    BinaryStartExact(t);
    assert SkipsNoMatch(t, str);
    FirstSkips(t.infos, t.firstSearchableIndex, ScanStart(Fast(t), str), Taker(str, t.ignoreCase, exclude));
  }

  /** Every searchable option can be asked for: the prefix it is spelled with by default is not empty, and is one
      the table knows. */
  predicate PrefixesUnited(t: Table) {
    forall k :: 0 <= k < |t.infos| && t.infos[k].prefixes != [] && t.firstSearchableIndex <= k ==>
      t.infos[k].prefixes[0] != "" && t.infos[k].prefixes[0] in t.prefixesUnion
  }

  /** A command line on which the two modes differ when name `k`, written `n`, does not stay put: the option as it is
      spelled by default, and as many words behind it as any option asks for. */
  function Telling(t: Table, k: nat, n: string): seq<string>
    requires t.WellFormed() && k < |t.infos| && t.infos[k].prefixes != []
  {
    var str := t.infos[k].prefixes[0] + n;
    var c := Chosen(t.infos, t.ignoreCase, str, t.firstSearchableIndex, NO_FILTER);
    [str] + seq(1 + if c.Some? then t.infos[c.value].numArgs else 0, _ => "x")
  }

  lemma LinearChoosesBefore(t: Table, k: nat, str: string)
    requires t.WellFormed() && t.firstSearchableIndex <= k < |t.infos| && str != ""
    requires MatchOpt(t.infos[k], str, t.ignoreCase) == |str|
    ensures var c := Chosen(t.infos, t.ignoreCase, str, t.firstSearchableIndex, NO_FILTER);
      c.Some? && c.value <= k
  {
    var takes := Taker(str, t.ignoreCase, NO_FILTER);
    FirstFromIs(t.infos, t.firstSearchableIndex, takes);
    assert takes(t.infos[k]);
  }

  /** With enough words behind it an option misses nothing. */
  lemma EnoughIsAccepted(t: Table, args: seq<string>, c: nat)
    requires t.WellFormed() && t.firstSearchableIndex <= c < |t.infos| && args != []
    requires Takes(t.infos[c], args[0], t.ignoreCase, NO_FILTER)
    requires |args| == 2 + t.infos[c].numArgs && args[1] != ""
    ensures Accepting(t.infos[c].kind)
    ensures var spelling := args[0][..MatchOpt(t.infos[c], args[0], t.ignoreCase)];
      AcceptInternal(t.infos[c], args, spelling, 0).0.Some?
  {
    MatchedOptionAccepts(t, c, args[0]);
    var spelling := args[0][..MatchOpt(t.infos[c], args[0], t.ignoreCase)];
    assert spelling == args[0] <==> |spelling| == |args[0]|;
    AcceptOutcomes(t.infos[c], args, spelling, 0);
  }

  /** The linear mode emits the option it chose. */
  lemma LinearEmits(t: Table, args: seq<string>, c: nat)
    requires t.WellFormed() && !t.tablegenMode && t.firstSearchableIndex <= c < |t.infos|
    requires args != [] && !IsInput(t, args[0])
    requires Chosen(t.infos, t.ignoreCase, args[0], t.firstSearchableIndex, NO_FILTER) == Some(c)
    requires |args| == 2 + t.infos[c].numArgs && args[1] != ""
    ensures Accepting(t.infos[c].kind)
    ensures var a := ParseOne(t, args, 0, NO_FILTER).0; a.Some? && a.value.optionId == c + 1
  {
    EnoughIsAccepted(t, args, c);
    ChosenIsParsed(t, args, 0, NO_FILTER, c);
  }

  /** No mode emits an option that lies before where its scan starts. */
  lemma EmitsNoEarlier(t: Table, args: seq<string>, c: nat)
    requires t.WellFormed() && args != [] && !IsInput(t, args[0])
    requires c < ScanStart(t, args[0]) && Accepting(t.infos[c].kind)
    ensures var a := ParseOne(t, args, 0, NO_FILTER).0; a.Some? ==> a.value.optionId != c + 1
  {
    var f := Chosen(t.infos, t.ignoreCase, args[0], ScanStart(t, args[0]), NO_FILTER);
    if f.Some? {
      ChosenIsParsed(t, args, 0, NO_FILTER, f.value);
    }
  }

  lemma SpelledIsNoInput(t: Table, k: nat, n: string)
    requires t.WellFormed() && PrefixesUnited(t) && n != ""
    requires t.firstSearchableIndex <= k < |t.infos| && t.infos[k].prefixes != []
    ensures !IsInput(t, t.infos[k].prefixes[0] + n)
  {
    var p := t.infos[k].prefixes[0];
    assert p <= p + n && |p + n| > 1;
  }

  /** An option the linear mode chooses before the fast one's start is parsed by the linear mode only. */
  lemma SkippedDiffers(t: Table, args: seq<string>, c: nat)
    requires t.WellFormed() && args != [] && !IsInput(t, args[0]) && c < |t.infos|
    requires Chosen(t.infos, t.ignoreCase, args[0], t.firstSearchableIndex, NO_FILTER) == Some(c)
    requires c < LowerBound(Names(t.infos), t.firstSearchableIndex, LTrimAllOf(args[0], t.prefixChars))
    requires |args| == 2 + t.infos[c].numArgs && args[1] != ""
    ensures Fast(t).WellFormed() && Linear(t).WellFormed()
    ensures var fast, linear := ParseOne(Fast(t), args, 0, NO_FILTER).0, ParseOne(Linear(t), args, 0, NO_FILTER).0;
      linear.Some? && (fast.Some? ==> fast.value.optionId != linear.value.optionId)
  {
    LinearEmits(Linear(t), args, c);
    EmitsNoEarlier(Fast(t), args, c);
  }

  /** And only then: a name that does not stay put gives a command line on which the two modes differ, whatever the
      other options are. */
  lemma UnstableNameDiffers(t: Table, k: nat, n: string)
    requires t.WellFormed() && t.Sorted() && t.PrefixesCovered() && PrefixesUnited(t)
    requires t.firstSearchableIndex <= k < |t.infos| && t.infos[k].prefixes != []
    requires Writes(t.infos[k].Name(), n, t.ignoreCase) && NameLess(t.infos[k].Name(), LTrimAllOf(n, t.prefixChars))
    ensures Fast(t).WellFormed() && Linear(t).WellFormed()
    ensures var fast, linear := ParseOne(Fast(t), Telling(t, k, n), 0, NO_FILTER).0,
                                ParseOne(Linear(t), Telling(t, k, n), 0, NO_FILTER).0;
      linear.Some? && (fast.Some? ==> fast.value.optionId != linear.value.optionId)
  {
    var args, str := Telling(t, k, n), t.infos[k].prefixes[0] + n;
    SkipsWitness(t, k, n);
    SpelledIsNoInput(t, k, n);
    LinearChoosesBefore(t, k, str);
    var c := Chosen(t.infos, t.ignoreCase, str, t.firstSearchableIndex, NO_FILTER).value;
    SkippedDiffers(t, args, c);
  }

  /** The two modes make the same of a word. */
  predicate ModesAgree(t: Table, args: seq<string>, index: nat)
    requires t.WellFormed() && index < |args|
  {
    ParseOne(Fast(t), args, index, NO_FILTER) == ParseOne(Linear(t), args, index, NO_FILTER)
  }

  lemma UnstableNameDisagrees(t: Table)
    requires t.WellFormed() && t.Sorted() && t.PrefixesCovered() && PrefixesUnited(t) && !NamesStayPut(t)
    ensures exists args: seq<string> :: args != [] && args[0] != "" && !ModesAgree(t, args, 0)
  {
    var k, n :| t.firstSearchableIndex <= k < |t.infos| && t.infos[k].prefixes != []
                && Writes(t.infos[k].Name(), n, t.ignoreCase)
                && NameLess(t.infos[k].Name(), LTrimAllOf(n, t.prefixChars));
    UnstableNameDiffers(t, k, n);
    SkipsWitness(t, k, n);
    var args := Telling(t, k, n);
    assert args[0] != "" && !ModesAgree(t, args, 0);
  }

  /** Main result on the fast mode: without a filter it parses every word of every command line as the full scan
      does if and only if every option name stays put under trimming. */
  lemma FastModeExact(t: Table)
    requires t.WellFormed() && t.Sorted() && t.PrefixesCovered() && PrefixesUnited(t)
    ensures NamesStayPut(t) <==>
      forall args: seq<string>, index: nat {:trigger ModesAgree(t, args, index)} ::
        index < |args| ==> ModesAgree(t, args, index)
  {
    if NamesStayPut(t) {
      forall args: seq<string>, index: nat | index < |args| ensures ModesAgree(t, args, index) {
        FastEqualsLinear(t, args, index, NO_FILTER);
      }
    } else {
      UnstableNameDisagrees(t);
    }
  }

  /** Main result on the scan order: of two options that match one string, the earlier one has the
      longer name, so the first match is the longest. */
  lemma MaximalMunch(t: Table, i: nat, j: nat, str: string)
    requires t.WellFormed() && t.Sorted() && t.PrefixesCovered() && NamesClean(t)
    requires t.firstSearchableIndex <= i < j < |t.infos|
    requires MatchOpt(t.infos[i], str, t.ignoreCase) > 0 && MatchOpt(t.infos[j], str, t.ignoreCase) > 0
    ensures |t.infos[i].Name()| >= |t.infos[j].Name()|
    ensures t.infos[j].Name() != ""
        ==> MatchOpt(t.infos[i], str, t.ignoreCase) >= MatchOpt(t.infos[j], str, t.ignoreCase)
  {
    var x, y := t.infos[i].Name(), t.infos[j].Name();
    assert StrCmpOptName(Names(t.infos)[i], Names(t.infos)[j], false) <= 0;
    var key := LTrimAllOf(str, t.prefixChars);
    if y != "" {
      CleanMatchIsPrefix(t.infos[j], t.prefixChars, t.ignoreCase, str);
      if x == "" {
        PrefixNotLess(x, y);
        assert false;
      }
      CleanMatchIsPrefix(t.infos[i], t.prefixChars, t.ignoreCase, str);
      LongerPrefixFirst(x, y, key);
    }
  }

  lemma CleanMatchIsPrefix(info: Info, chars: seq<char>, ignoreCase: bool, str: string)
    requires info.PrefixesOf(chars) && NameClean(info.Name(), chars)
    requires MatchOpt(info, str, ignoreCase) > 0 && info.Name() != ""
    ensures var key := LTrimAllOf(str, chars);
            && StartsWithInsensitive(key, info.Name())
            && MatchOpt(info, str, ignoreCase) == |str| - |key| + |info.Name()|
  {
    var name := info.Name();
    var p, n, tail := MatchParts(info, ignoreCase, str);
    LTrimPrefix(p, n + tail, chars);
    assert EqualInsensitive(n, name) && ToLower(n[0]) == ToLower(name[0]);
    assert (n + tail)[..|name|] == n;
  }
}
