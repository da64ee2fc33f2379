/** The option table as the program keeps it, and its parsing loops
    (src/common/option/opt_table.h, opt_table.cc). */
module OptTable {
  import opened Util
  import opened OptInfo
  import opened OptOrder
  import opened OptAccept
  import opened OptParse
  import opened OptLoop
  import opened OptGrouped

  predicate Special(kind: Kind) { kind.GroupClass? || kind.InputClass? || kind.UnknownClass? }

  /** How many entries from `i` on come before the first ordinary option. */
  function SpecialRun(infos: seq<Info>, i: nat): (n: nat)
    requires i <= |infos|
    ensures i + n <= |infos|
    decreases |infos| - i
  {
    if i == |infos| || !Special(infos[i].kind) then 0 else 1 + SpecialRun(infos, i + 1)
  }

  /** The first ordinary option; a table of special entries only is searched from its start. */
  function FirstSearchable(infos: seq<Info>): nat {
    var n := SpecialRun(infos, 0);
    if n == |infos| then 0 else n
  }

  /** It is no group, input or unknown entry, and only such come before it. */
  lemma FirstSearchableMeans(infos: seq<Info>)
    ensures var n := FirstSearchable(infos);
      if forall k :: 0 <= k < |infos| ==> Special(infos[k].kind) then n == 0
      else n < |infos| && !Special(infos[n].kind) && forall k :: 0 <= k < n ==> Special(infos[k].kind)
    ensures forall kind :: Special(kind) <==> kind == GroupClass || kind == InputClass || kind == UnknownClass
  {
    SpecialRunIs(infos, 0);
  }

  lemma {:induction false} SpecialRunIs(infos: seq<Info>, i: nat)
    requires i <= |infos|
    ensures var end := i + SpecialRun(infos, i);
      (forall k :: i <= k < end ==> Special(infos[k].kind)) && (end < |infos| ==> !Special(infos[end].kind))
    decreases |infos| - i
  {
    if i < |infos| && Special(infos[i].kind) { SpecialRunIs(infos, i + 1); }
  }

  /** What the constructor and the accessors ask of the table's author. */
  predicate Authored(infos: seq<Info>) {
    && (forall k :: 0 <= k < |infos| ==> infos[k].id == k + 1 && infos[k].WellNamed())
    && (forall k :: FirstSearchable(infos) <= k < |infos| && infos[k].prefixes != [] ==> Accepting(infos[k].kind))
    && AliasesOk(infos)
    && (forall j, k :: 0 <= j < k < SpecialRun(infos, 0) && infos[j].kind.InputClass? ==> !infos[k].kind.InputClass?)
    && (forall j, k :: 0 <= j < k < SpecialRun(infos, 0) && infos[j].kind.UnknownClass?
          ==> !infos[k].kind.UnknownClass?)
  }

  /** `id` names the entry of the leading special ones that has `kind`, or is 0 for none. */
  predicate SpecialId(infos: seq<Info>, n: nat, kind: Kind, id: nat)
    requires n <= |infos|
  {
    if id == 0 then forall k :: 0 <= k < n ==> infos[k].kind != kind
    else id <= n && infos[id - 1].kind == kind
  }

  /** The prefixes of the entries from `first` up to `n`. */
  ghost predicate UnionOf(infos: seq<Info>, first: nat, n: nat, union: seq<string>)
    requires n <= |infos|
  {
    && (forall k, p :: first <= k < n && p in infos[k].prefixes ==> p in union)
    && (forall p :: p in union ==> exists k :: first <= k < n && p in infos[k].prefixes)
  }

  /** Exactly the characters of the prefixes. */
  ghost predicate CharsOf(union: seq<string>, chars: seq<char>) {
    && (forall p, c :: p in union && c in p ==> c in chars)
    && (forall c :: c in chars ==> exists p :: p in union && c in p)
  }

  /** The union and the characters the constructor builds from the prefixes it is given. */
  ghost predicate PrefixesBuilt(infos: seq<Info>, first: nat, given: seq<string>, union: seq<string>,
                                chars: seq<char>) {
    (if given != [] then union == given else UnionOf(infos, first, |infos|, union)) && CharsOf(union, chars)
  }

  lemma AuthoredIsOk(infos: seq<Info>, union: seq<string>, inputId: nat, unknownId: nat)
    requires Authored(infos) && union != []
    requires SpecialId(infos, SpecialRun(infos, 0), InputClass, inputId)
    requires SpecialId(infos, SpecialRun(infos, 0), UnknownClass, unknownId)
    ensures TableOk(infos, FirstSearchable(infos), union, inputId, unknownId)
  {
  }

  /** A union the constructor builds itself covers every searchable option's prefixes, which is what
      the fast mode needs. */
  lemma BuiltPrefixesCover(t: Table)
    requires PrefixesBuilt(t.infos, t.firstSearchableIndex, [], t.prefixesUnion, t.prefixChars)
    ensures t.PrefixesCovered()
  {
    forall k, p, c | t.firstSearchableIndex <= k < |t.infos| && p in t.infos[k].prefixes && c in p
      ensures c in t.prefixChars
    {
      assert p in t.prefixesUnion;
    }
  }

  /** Adds what is new, as inserting into a std::set does. */
  function Insert<T(==,!new)>(s: seq<T>, x: T): (r: seq<T>)
    ensures forall y :: y in r <==> y in s || y == x
  {
    if x in s then s else s + [x]
  }

  method InsertAll(s: seq<char>, chars: string) returns (r: seq<char>)
    ensures forall c :: c in r <==> c in s || c in chars
  {
    r := s;
    for j := 0 to |chars|
      invariant forall c :: c in r <==> c in s || c in chars[..j]
    {
      assert chars[..j + 1] == chars[..j] + [chars[j]];
      r := Insert(r, chars[j]);
    }
    assert chars[..|chars|] == chars;
  }

  lemma CharsGrow(union: seq<string>, i: nat, chars: seq<char>)
    requires i < |union|
    requires exists before :: CharsOf(union[..i], before) && forall c :: c in chars <==> c in before || c in union[i]
    ensures CharsOf(union[..i + 1], chars)
  {
    assert union[..i + 1] == union[..i] + [union[i]];
    var before :| CharsOf(union[..i], before) && forall c :: c in chars <==> c in before || c in union[i];
    forall c | c in chars ensures exists p :: p in union[..i + 1] && c in p {
      if c in before {
        var p :| p in union[..i] && c in p;
        assert p in union[..i + 1];
      } else {
        assert union[i] in union[..i + 1];
      }
    }
  }

  class OptTable {
    const infos: seq<Info>
    var ignoreCase: bool
    var groupedShortOptions: bool
    var dashDashParsing: bool
    var dashDashAsSinglePack: bool
    var inputOptionId: nat
    var unknownOptionId: nat
    var tablegenMode: bool
    var firstSearchableIndex: nat
    var prefixesUnion: seq<string>
    var prefixChars: seq<char>

    function View(): Table
      reads this
    {
      Table(infos, ignoreCase, groupedShortOptions, dashDashParsing, dashDashAsSinglePack, inputOptionId,
            unknownOptionId, tablegenMode, firstSearchableIndex, prefixesUnion, prefixChars)
    }

    /** The constructor finds the special entries and the searchable ones, and builds the union of
        prefixes unless it is given one; the table it makes is well formed. */
    constructor (infos: seq<Info>, ignoreCase: bool, prefixesUnion: seq<string>)
      requires Authored(infos)
      requires prefixesUnion != [] || exists k :: FirstSearchable(infos) <= k < |infos| && infos[k].prefixes != []
      ensures this.infos == infos && View().WellFormed()
      ensures this.ignoreCase == ignoreCase && firstSearchableIndex == FirstSearchable(infos)
      ensures !groupedShortOptions && !dashDashParsing && !dashDashAsSinglePack && !tablegenMode
      ensures SpecialId(infos, SpecialRun(infos, 0), InputClass, inputOptionId)
      ensures SpecialId(infos, SpecialRun(infos, 0), UnknownClass, unknownOptionId)
      ensures PrefixesBuilt(infos, firstSearchableIndex, prefixesUnion, this.prefixesUnion, prefixChars)
    {
      this.infos := infos;
      this.ignoreCase := ignoreCase;
      this.prefixesUnion := prefixesUnion;
      groupedShortOptions, dashDashParsing, dashDashAsSinglePack, tablegenMode := false, false, false, false;
      inputOptionId, unknownOptionId, firstSearchableIndex := 0, 0, 0;
      prefixChars := [];
      new;
      FindSpecials();
      if this.prefixesUnion == [] {
        UnitePrefixes();
      }
      BuildPrefixChars();
      AuthoredIsOk(infos, this.prefixesUnion, inputOptionId, unknownOptionId);
    }

    method FindSpecials()
      requires Authored(infos) && inputOptionId == unknownOptionId == firstSearchableIndex == 0
      modifies `inputOptionId, `unknownOptionId, `firstSearchableIndex
      ensures firstSearchableIndex == FirstSearchable(infos)
      ensures SpecialId(infos, SpecialRun(infos, 0), InputClass, inputOptionId)
      ensures SpecialId(infos, SpecialRun(infos, 0), UnknownClass, unknownOptionId)
    {
      var i := 0;
      while i != |infos|
        invariant 0 <= i <= |infos| && SpecialRun(infos, 0) == i + SpecialRun(infos, i)
        invariant firstSearchableIndex == 0
        invariant SpecialId(infos, i, InputClass, inputOptionId)
        invariant SpecialId(infos, i, UnknownClass, unknownOptionId)
      {
        var kind := infos[i].kind;
        if kind.InputClass? {
          assert inputOptionId == 0;
          inputOptionId := infos[i].id;
        } else if kind.UnknownClass? {
          assert unknownOptionId == 0;
          unknownOptionId := infos[i].id;
        } else if !kind.GroupClass? {
          firstSearchableIndex := i;
          break;
        }
        i := i + 1;
      }
    }

    method UnitePrefixes()
      requires firstSearchableIndex <= |infos| && prefixesUnion == []
      requires exists k :: firstSearchableIndex <= k < |infos| && infos[k].prefixes != []
      modifies `prefixesUnion
      ensures UnionOf(infos, firstSearchableIndex, |infos|, prefixesUnion) && prefixesUnion != []
    {
      ghost var some :| firstSearchableIndex <= some < |infos| && infos[some].prefixes != [];
      var i := firstSearchableIndex;
      while i < |infos|
        invariant firstSearchableIndex <= i <= |infos|
        invariant UnionOf(infos, firstSearchableIndex, i, prefixesUnion)
      {
        var prefixes := infos[i].prefixes;
        var j := 0;
        while j < |prefixes|
          invariant 0 <= j <= |prefixes|
          invariant forall k, p :: firstSearchableIndex <= k < i && p in infos[k].prefixes ==> p in prefixesUnion
          invariant forall k :: 0 <= k < j ==> prefixes[k] in prefixesUnion
          invariant forall p :: p in prefixesUnion ==>
            exists k :: firstSearchableIndex <= k < i + 1 && p in infos[k].prefixes
        {
          assert prefixes[j] in infos[i].prefixes;
          prefixesUnion := Insert(prefixesUnion, prefixes[j]);
          j := j + 1;
        }
        i := i + 1;
      }
      assert infos[some].prefixes[0] in infos[some].prefixes;
      assert infos[some].prefixes[0] in prefixesUnion;
    }

    method BuildPrefixChars()
      requires prefixChars == []
      modifies `prefixChars
      ensures CharsOf(prefixesUnion, prefixChars)
    {
      var i := 0;
      while i < |prefixesUnion|
        invariant 0 <= i <= |prefixesUnion| && CharsOf(prefixesUnion[..i], prefixChars)
      {
        prefixChars := InsertAll(prefixChars, prefixesUnion[i]);
        CharsGrow(prefixesUnion, i, prefixChars);
        i := i + 1;
      }
      assert prefixesUnion[..i] == prefixesUnion;
    }

    method SetGroupedShortOptions(value: bool)
      modifies `groupedShortOptions
      ensures groupedShortOptions == value
    { groupedShortOptions := value; }

    method SetDashDashParsing(value: bool)
      modifies `dashDashParsing
      ensures dashDashParsing == value
    { dashDashParsing := value; }

    method SetDashDashAsSinglePack(value: bool)
      modifies `dashDashAsSinglePack
      ensures dashDashAsSinglePack == value
    { dashDashAsSinglePack := value; }

    method SetTablegenMode(value: bool)
      modifies `tablegenMode
      ensures tablegenMode == value
    { tablegenMode := value; }

    method SetIgnoreCase(value: bool)
      modifies `ignoreCase
      ensures ignoreCase == value
    { ignoreCase := value; }

    /** The whole command line; `run.args` is what the callback receives. */
    method ParseArgs(argv: array<string>, exclude: Filter) returns (run: Run)
      requires View().WellFormed() && (tablegenMode ==> View().Sorted())
      modifies argv
      ensures groupedShortOptions ==>
                run == ParseGrouped(View(), old(argv[..])) && argv[..] == WalkGroupedOf(View(), old(argv[..])).argv
      ensures !groupedShortOptions ==> run == Parse(View(), old(argv[..]), exclude) && argv[..] == old(argv[..])
    {
      run := InternalParseArgs(View(), argv, exclude);
    }
  }

  // ------------------------------------------------------------ the parser's loops, over the table's view

  method IsInputLoop(t: Table, arg: string) returns (r: bool)
    ensures r == IsInput(t, arg)
  {
    if arg == "-" {
      return true;
    }
    for i := 0 to |t.prefixesUnion|
      invariant forall k :: 0 <= k < i ==> !(t.prefixesUnion[k] <= arg)
    {
      if t.prefixesUnion[i] <= arg {
        assert t.prefixesUnion[i] in t.prefixesUnion;
        return false;
      }
    }
    return true;
  }

  method MatchOptLoop(t: Table, info: Info, str: string) returns (size: nat)
    ensures size == MatchOpt(info, str, t.ignoreCase)
  {
    var name := info.Name();
    for i := 0 to |info.prefixes|
      invariant MatchOpt(info, str, t.ignoreCase) == MatchPrefixes(name, info.prefixes[i..], str, t.ignoreCase)
    {
      var prefix := info.prefixes[i];
      if prefix <= str && NameMatches(name, str[|prefix|..], t.ignoreCase) {
        return |prefix| + |name|;
      }
      assert info.prefixes[i..][1..] == info.prefixes[i + 1..];
    }
    return 0;
  }

  method ScanStartSearch(t: Table, str: string) returns (start: nat)
    requires t.WellFormed() && (t.tablegenMode ==> t.Sorted())
    ensures start == ScanStart(t, str)
  {
    start := t.firstSearchableIndex;
    if t.tablegenMode {
      start := LowerBoundSearch(Names(t.infos), start, LTrimAllOf(str, t.prefixChars));
    }
  }

  /** One round of either scan: whether option `k` takes the word and, if so, what comes of it. */
  method TryOption(t: Table, argv: array<string>, index: nat, exclude: Filter, k: nat, ghost s: Scanning)
    returns (taken: bool, a: Option<ParsedArg>, next: nat, size: nat)
    requires t.WellFormed() && t.firstSearchableIndex <= k < |t.infos| && index < argv.Length
    requires ScansAs(t, argv[..], index, exclude, s)
    ensures s.choose(k) == if taken then Some(k) else s.choose(k + 1)
    ensures taken ==> (a, next) == s.taking(k)
    ensures size == MatchOpt(t.infos[k], argv[index], t.ignoreCase)
  {
    var str := argv[index];
    ChosenStep(t.infos, t.ignoreCase, str, k, exclude);
    assert s.choose(k) == Chosen(t.infos, t.ignoreCase, str, k, exclude);
    assert s.choose(k + 1) == Chosen(t.infos, t.ignoreCase, str, k + 1, exclude);
    taken, a, next := false, None, index;
    size := MatchOptLoop(t, t.infos[k], str);
    if size != 0 && !exclude(t.infos[k]) {
      MatchedOptionAccepts(t, k, str);
      ScanRound(t, argv[..], index, exclude, k);
      a, next := AcceptInPlace(t.infos, t.infos[k], argv, str[..size], false, index);
      taken := a.Some? || next != index;
      assert taken ==>
        (a, next) == Conclude(t.infos, t.ignoreCase, t.inputOptionId, t.unknownOptionId, argv[..], index, Some(k));
    }
  }

  method Scan(t: Table, argv: array<string>, index: nat, exclude: Filter, first: nat, ghost s: Scanning)
    returns (chosen: bool, a: Option<ParsedArg>, next: nat)
    requires t.WellFormed() && index < argv.Length && t.firstSearchableIndex <= first <= |t.infos|
    requires ScansAs(t, argv[..], index, exclude, s) && s.choose(|t.infos|) == None
    ensures chosen == s.choose(first).Some? && (chosen ==> (a, next) == s.taking(s.choose(first).value))
  {
    var start := first;
    chosen, a, next := false, None, index;
    while start != |t.infos|
      invariant first <= start <= |t.infos|
      invariant s.choose(first) == s.choose(start)
      decreases |t.infos| - start
    {
      var size;
      chosen, a, next, size := TryOption(t, argv, index, exclude, start, s);
      if chosen {
        return;
      }
      start := start + 1;
    }
    chosen := false;
  }

  /** The argument for a word that no option takes. */
  function Untaken(t: Table, str: string, index: nat): ParsedArg {
    Plain(if str != "" && str[0] == '/' then t.inputOptionId else t.unknownOptionId, str, [], index)
  }

  method ScanOrPlain(t: Table, argv: array<string>, index: nat, exclude: Filter, first: nat, ghost s: Scanning)
    returns (a: Option<ParsedArg>, next: nat)
    requires t.WellFormed() && index < argv.Length && t.firstSearchableIndex <= first <= |t.infos|
    requires ScansAs(t, argv[..], index, exclude, s) && s.choose(|t.infos|) == None
    ensures s.choose(first).Some? ==> (a, next) == s.taking(s.choose(first).value)
    ensures s.choose(first).None? ==> (a, next) == (Some(Untaken(t, argv[index], index)), index + 1)
  {
    var str := argv[index];
    var chosen;
    chosen, a, next := Scan(t, argv, index, exclude, first, s);
    if chosen {
      return;
    }
    if str != "" && str[0] == '/' {
      return Some(Plain(t.inputOptionId, str, [], index)), index + 1;
    }
    return Some(Plain(t.unknownOptionId, str, [], index)), index + 1;
  }

  /** The ungrouped parser's step. */
  method InternalParseOneArg(t: Table, argv: array<string>, index: nat, exclude: Filter)
    returns (a: Option<ParsedArg>, next: nat)
    requires t.WellFormed() && (t.tablegenMode ==> t.Sorted()) && index < argv.Length
    ensures (a, next) == ParseOne(t, argv[..], index, exclude)
  {
    var str := argv[index];
    var input := IsInputLoop(t, str);
    if input {
      return Some(Plain(t.inputOptionId, str, [], index)), index + 1;
    }
    var first := ScanStartSearch(t, str);
    ghost var s := ScanningOf(t, argv[..], index, exclude);
    ScanningOfIs(t, argv[..], index, exclude);
    ChosenConcludes(t, argv[..], index, exclude, first, s);
    a, next := ScanOrPlain(t, argv, index, exclude, first, s);
  }

  /** The grouped parser's step, with the word it leaves behind. */
  method ParseOneArgGrouped(t: Table, argv: array<string>, index: nat) returns (r: Grouped)
    requires t.WellFormed() && (t.tablegenMode ==> t.Sorted()) && index < argv.Length && argv[index] != ""
    modifies argv
    ensures r == ParseOneGrouped(t, old(argv[..]), index)
    ensures argv[..] == if r.Emit? then old(argv[..])[index := r.word] else old(argv[..])
  {
    r := ChooseGrouped(t, argv, index);
    if r.Emit? {
      argv[index] := r.word;
    }
  }

  method ChooseGrouped(t: Table, argv: array<string>, index: nat) returns (r: Grouped)
    requires t.WellFormed() && (t.tablegenMode ==> t.Sorted()) && index < argv.Length && argv[index] != ""
    ensures r == ParseOneGrouped(t, argv[..], index)
  {
    var str := argv[index];
    var input := IsInputLoop(t, str);
    if input {
      return Emit(Plain(t.inputOptionId, str, [], index), str, index + 1);
    }
    var first := ScanStartSearch(t, str);
    ghost var s := ScanningOf(t, argv[..], index, NO_FILTER);
    ScanningOfIs(t, argv[..], index, NO_FILTER);
    ghost var last := LastOf(t, first, str);
    var chosen, a, next, fallback := ScanGrouped(t, argv, index, first, s, last);
    ChosenConcludes(t, argv[..], index, NO_FILTER, first, s);
    FallbackIsLonger(t, str);
    if chosen {
      return if a.Some? then Emit(a.value, str, next) else Miss(next);
    }
    r := PeelOff(t.infos, t.unknownOptionId, str, index, fallback);
  }

  /** The grouped scan also remembers the last flag whose spelling is two characters. */
  method ScanGrouped(t: Table, argv: array<string>, index: nat, first: nat,
                     ghost s: Scanning, ghost last: nat -> Option<nat>)
    returns (chosen: bool, a: Option<ParsedArg>, next: nat, fallback: Option<nat>)
    requires t.WellFormed() && index < argv.Length && t.firstSearchableIndex <= first <= |t.infos|
    requires ScansAs(t, argv[..], index, NO_FILTER, s) && s.choose(|t.infos|) == None
    requires LastsAs(t, first, argv[index], last) && last(first) == None
    ensures chosen == s.choose(first).Some? && (chosen ==> (a, next) == s.taking(s.choose(first).value))
    ensures !chosen ==> fallback == last(|t.infos|)
  {
    var start := first;
    chosen, a, next, fallback := false, None, index, None;
    while start != |t.infos|
      invariant first <= start <= |t.infos|
      invariant s.choose(first) == s.choose(start)
      invariant fallback == last(start)
      decreases |t.infos| - start
    {
      var size;
      chosen, a, next, size := TryOption(t, argv, index, NO_FILTER, start, s);
      if chosen {
        return;
      }
      fallback := FallbackRound(t, first, start, argv[index], size, fallback, last);
      start := start + 1;
    }
    chosen := false;
  }

  method FallbackRound(t: Table, first: nat, k: nat, str: string, size: nat, fallback: Option<nat>,
                       ghost last: nat -> Option<nat>)
    returns (r: Option<nat>)
    requires first <= k < |t.infos| && size == MatchOpt(t.infos[k], str, t.ignoreCase)
    requires LastsAs(t, first, str, last) && fallback == last(k)
    ensures r == last(k + 1)
  {
    r := if size == 2 && t.infos[k].kind.FlagClass? then Some(k) else fallback;
    assert last(k) == LastBefore(t.infos, first, k, ShortFlag(str, t.ignoreCase));
    assert last(k + 1) == LastBefore(t.infos, first, k + 1, ShortFlag(str, t.ignoreCase));
  }

  /** A round of the main loop in the mode the table is set to. */
  method Round(t: Table, argv: array<string>, index: nat, exclude: Filter, ghost step: GroupedStep) returns (r: Grouped)
    requires t.WellFormed() && (t.tablegenMode ==> t.Sorted()) && index < argv.Length && argv[index] != ""
    requires StepsAs(t, exclude, step)
    modifies argv
    ensures r == step(old(argv[..]), index)
    ensures argv[..] == if r.Emit? then old(argv[..])[index := r.word] else old(argv[..])
  {
    ghost var words := argv[..];
    assert step(words, index) == RoundOf(t, words, index, exclude);
    if t.groupedShortOptions {
      r := ParseOneArgGrouped(t, argv, index);
    } else {
      var a, next := InternalParseOneArg(t, argv, index, exclude);
      r := if a.None? then Miss(next) else Emit(a.value, argv[index], next);
      assert words[index := argv[index]] == words;
    }
  }

  /** The whole command line, in either mode. `run.args` is what the callback receives. */
  method InternalParseArgs(t: Table, argv: array<string>, exclude: Filter) returns (run: Run)
    requires t.WellFormed() && (t.tablegenMode ==> t.Sorted())
    modifies argv
    ensures t.groupedShortOptions ==>
              run == ParseGrouped(t, old(argv[..])) && argv[..] == WalkGroupedOf(t, old(argv[..])).argv
    ensures !t.groupedShortOptions ==> run == Parse(t, old(argv[..]), exclude) && argv[..] == old(argv[..])
  {
    ghost var step := RoundStep(t, exclude);
    RoundStepOk(t, exclude);
    WalkIs(t, argv[..], exclude);
    ghost var walk := WalkFrom(t.dashDashParsing, step);
    var args, stop := MainLoop(t, argv, exclude, step, walk);
    run := Report(t, argv, args, stop);
  }

  /** What the loop's ways out report. */
  method Report(t: Table, argv: array<string>, args: seq<ParsedArg>, stop: Stop) returns (run: Run)
    requires stop.AtDashDash? ==> stop.at < argv.Length
    requires stop.AtMissing? ==> stop.at < stop.next
    ensures run == Finish(t.inputOptionId, t.dashDashAsSinglePack, argv[..], Walked(args, stop))
  {
    match stop
    case AtEnd => run := Run(args, 0, 0, true, false);
    case AtDashDash(at) =>
      var rest := DashDash(t, argv, at);
      run := Run(args + rest, 0, 0, true, false);
    case AtMissing(at, next) =>
      run := Run(args, at, next - at - 1, next >= argv.Length && next - at - 1 != 0, false);
    case AtThrow(_) => run := Run(args, 0, 0, true, true);
  }

  /** What the callback has received when the loop is left, and why it is left. */
  method MainLoop(t: Table, argv: array<string>, exclude: Filter, ghost step: GroupedStep,
                  ghost walk: (seq<string>, nat) -> GroupedWalk)
    returns (args: seq<ParsedArg>, stop: Stop)
    requires t.WellFormed() && (t.tablegenMode ==> t.Sorted())
    requires AlwaysShrinks(step) && StepsAs(t, exclude, step) && WalksAs(t.dashDashParsing, step, walk)
    modifies argv
    ensures walk(old(argv[..]), 0) == GroupedWalk(args, argv[..], stop)
  {
    ghost var all := walk(argv[..], 0);
    args := [];
    assert [] + all.args == all.args;
    var index := 0;
    while index < argv.Length
      invariant all == After(args, walk(argv[..], index))
      decreases argv.Length - index, if index < argv.Length then |argv[index]| else 0
    {
      ghost var words := argv[..];
      var str := argv[index];
      WalkStops(t.dashDashParsing, step, walk, words, index, args);
      if str == "" {
        index := index + 1;
        continue;
      }
      if t.dashDashParsing && str == "--" {
        return args, AtDashDash(index);
      }
      var r := Round(t, argv, index, exclude, step);
      assert Shrinks(words, index, r);
      WalkRound(t.dashDashParsing, step, walk, words, index, args);
      match r
      case Throw => return args, AtThrow(index);
      case Miss(next) => return args, AtMissing(index, next);
      case Emit(a, word, next) => args, index := args + [a], next;
    }
    WalkStops(t.dashDashParsing, step, walk, argv[..], index, args);
    return args, AtEnd;
  }

  /** Hands over what lies behind the `--` at `at`. */
  method DashDash(t: Table, argv: array<string>, at: nat) returns (rest: seq<ParsedArg>)
    requires at < argv.Length
    ensures rest == DashDashArgs(t.inputOptionId, t.dashDashAsSinglePack, argv[..], at)
  {
    if t.dashDashAsSinglePack {
      return [Plain(t.inputOptionId, "--", argv[at + 1..], at)];
    }
    rest := [];
    var index := at + 1;
    while index < argv.Length
      invariant at < index <= argv.Length
      invariant |rest| == index - at - 1
      invariant forall k :: 0 <= k < |rest| ==> rest[k] == Plain(t.inputOptionId, argv[at + 1 + k], [], at + 1 + k)
    {
      rest := rest + [Plain(t.inputOptionId, argv[index], [], index)];
      index := index + 1;
    }
  }

  // ------------------------------------------------------------ the proof's bookkeeping

  /** What the scan from `k` on chooses and what comes of option `k` taking the word, as values the
      loops pass on without looking into them. */
  datatype Scanning = Scanning(choose: nat -> Option<nat>, taking: nat -> (Option<ParsedArg>, nat))

  predicate MayTake(t: Table, words: seq<string>, index: nat, k: nat)
    requires index < |words|
  {
    && k < |t.infos| && Accepting(t.infos[k].kind)
    && !Refuses(t.infos[k].kind, MatchOpt(t.infos[k], words[index], t.ignoreCase) == |words[index]|)
  }

  ghost function ScanningOf(t: Table, words: seq<string>, index: nat, exclude: Filter): Scanning
    requires t.WellFormed() && index < |words|
  {
    Scanning(
      (k: nat) => if k <= |t.infos| then Chosen(t.infos, t.ignoreCase, words[index], k, exclude) else None,
      (k: nat) => if MayTake(t, words, index, k)
                  then Conclude(t.infos, t.ignoreCase, t.inputOptionId, t.unknownOptionId, words, index, Some(k))
                  else (None, 0))
  }

  ghost predicate ScansAs(t: Table, words: seq<string>, index: nat, exclude: Filter, s: Scanning)
    requires t.WellFormed() && index < |words|
  {
    && (forall k: nat {:trigger Chosen(t.infos, t.ignoreCase, words[index], k, exclude)} ::
          k <= |t.infos| ==> s.choose(k) == Chosen(t.infos, t.ignoreCase, words[index], k, exclude))
    && (forall k: nat
          {:trigger Conclude(t.infos, t.ignoreCase, t.inputOptionId, t.unknownOptionId, words, index, Some(k))} ::
          MayTake(t, words, index, k)
          ==> s.taking(k) == Conclude(t.infos, t.ignoreCase, t.inputOptionId, t.unknownOptionId, words, index, Some(k)))
  }

  lemma ScanningOfIs(t: Table, words: seq<string>, index: nat, exclude: Filter)
    requires t.WellFormed() && index < |words|
    ensures ScansAs(t, words, index, exclude, ScanningOf(t, words, index, exclude))
    ensures ScanningOf(t, words, index, exclude).choose(|t.infos|) == None
  {
  }

  lemma ChosenConcludes(t: Table, words: seq<string>, index: nat, exclude: Filter, first: nat, s: Scanning)
    requires t.WellFormed() && index < |words| && t.firstSearchableIndex <= first <= |t.infos|
    requires ScansAs(t, words, index, exclude, s)
    ensures var c := Chosen(t.infos, t.ignoreCase, words[index], first, exclude);
            && s.choose(first) == c
            && (c.Some? ==>
                  && MayTake(t, words, index, c.value)
                  && s.taking(c.value)
                     == Conclude(t.infos, t.ignoreCase, t.inputOptionId, t.unknownOptionId,
                                  words, index, Some(c.value)))
  {
    var c := Chosen(t.infos, t.ignoreCase, words[index], first, exclude);
    if c.Some? {
      MatchedOptionAccepts(t, c.value, words[index]);
      var r := Conclude(t.infos, t.ignoreCase, t.inputOptionId, t.unknownOptionId, words, index, Some(c.value));
    }
  }

  ghost function LastOf(t: Table, first: nat, str: string): nat -> Option<nat> {
    (k: nat) => if first <= k <= |t.infos| then LastBefore(t.infos, first, k, ShortFlag(str, t.ignoreCase)) else None
  }

  ghost predicate LastsAs(t: Table, first: nat, str: string, last: nat -> Option<nat>) {
    forall k: nat {:trigger LastBefore(t.infos, first, k, ShortFlag(str, t.ignoreCase))} ::
      first <= k <= |t.infos| ==> last(k) == LastBefore(t.infos, first, k, ShortFlag(str, t.ignoreCase))
  }

  /** The scan's round on a matching option: accepting it without moving on is refusing it. */
  lemma ScanRound(t: Table, args: seq<string>, index: nat, exclude: Filter, k: nat)
    requires t.WellFormed() && index < |args| && k < |t.infos| && Accepting(t.infos[k].kind)
    requires MatchOpt(t.infos[k], args[index], t.ignoreCase) > 0 && !exclude(t.infos[k])
    ensures var str := args[index];
            var (a, next) := Accept(t.infos, t.infos[k],
                                  args, str[..MatchOpt(t.infos[k], str, t.ignoreCase)], false, index);
            && (a.Some? || next != index <==> Takes(t.infos[k], str, t.ignoreCase, exclude))
            && (Takes(t.infos[k], str, t.ignoreCase, exclude)
              ==> Chosen(t.infos, t.ignoreCase, str, k, exclude) == Some(k))
  {
    var str := args[index];
    var spelling := str[..MatchOpt(t.infos[k], str, t.ignoreCase)];
    assert spelling == str <==> |spelling| == |str|;
    AcceptOutcomes(t.infos[k], args, spelling, index);
    var takes := Taker(str, t.ignoreCase, exclude);
    assert takes(t.infos[k]) == Takes(t.infos[k], str, t.ignoreCase, exclude);
  }

  lemma ChosenStep(infos: seq<Info>, ignoreCase: bool, str: string, k: nat, exclude: Filter)
    requires k < |infos|
    ensures Chosen(infos, ignoreCase, str, k, exclude) ==
            if Takes(infos[k], str, ignoreCase, exclude) then Some(k)
            else Chosen(infos, ignoreCase, str, k + 1, exclude)
  {
    assert Taker(str, ignoreCase, exclude)(infos[k]) == Takes(infos[k], str, ignoreCase, exclude);
  }

  /** A round of either mode, told the way grouped rounds are. */
  function RoundOf(t: Table, words: seq<string>, index: nat, exclude: Filter): Grouped
    requires t.WellFormed() && index < |words| && words[index] != ""
  {
    if t.groupedShortOptions then ParseOneGrouped(t, words, index)
    else
      var (a, next) := ParseOne(t, words, index, exclude);
      if a.None? then Miss(next) else Emit(a.value, words[index], next)
  }

  function RoundStep(t: Table, exclude: Filter): GroupedStep
    requires t.WellFormed()
  {
    (words: seq<string>, i: nat) => if i < |words| && words[i] != "" then RoundOf(t, words, i, exclude) else Throw
  }

  ghost predicate StepsAs(t: Table, exclude: Filter, step: GroupedStep)
    requires t.WellFormed()
  {
    forall words: seq<string>, i: nat {:trigger RoundOf(t, words, i, exclude)} ::
      i < |words| && words[i] != "" ==> step(words, i) == RoundOf(t, words, i, exclude)
  }

  lemma RoundStepOk(t: Table, exclude: Filter)
    requires t.WellFormed()
    ensures StepsAs(t, exclude, RoundStep(t, exclude)) && AlwaysShrinks(RoundStep(t, exclude))
  {
    forall words: seq<string>, i: nat | i < |words| && words[i] != ""
      ensures Shrinks(words, i, RoundStep(t, exclude)(words, i))
    {
      if t.groupedShortOptions { ParseOneGroupedShrinks(t, words, i); }
    }
  }

  lemma WalkIs(t: Table, words: seq<string>, exclude: Filter)
    requires t.WellFormed() && AlwaysShrinks(RoundStep(t, exclude))
    ensures var w := WalkGrouped(t.dashDashParsing, RoundStep(t, exclude), words, 0);
            && (t.groupedShortOptions ==> w == WalkGroupedOf(t, words))
            && (!t.groupedShortOptions ==>
                  w == GroupedWalk(WalkOf(t, words, exclude).args, words, WalkOf(t, words, exclude).stop))
  {
    var step := RoundStep(t, exclude);
    if t.groupedShortOptions {
      GroupedAlwaysShrinks(t);
      SameGroupedSteps(t.dashDashParsing, step, GroupedStepOf(t), words, 0);
    } else {
      StepOfProgresses(t, exclude);
      UngroupedWalk(t.dashDashParsing, step, StepOf(t, exclude), words, 0);
    }
  }

  lemma {:induction false} UngroupedWalk(dashDash: bool, r: GroupedStep, s: Step, words: seq<string>, i: nat)
    requires AlwaysShrinks(r) && Progresses(s)
    requires forall w: seq<string>, k: nat :: k < |w| && w[k] != "" ==>
               r(w, k) == var (a, next) := s(w, k); if a.None? then Miss(next) else Emit(a.value, w[k], next)
    ensures var w := Walk(dashDash, s, words, i);
            WalkGrouped(dashDash, r, words, i) == GroupedWalk(w.args, words, w.stop)
    decreases |words| - i
  {
    if i < |words| {
      if words[i] == "" {
        UngroupedWalk(dashDash, r, s, words, i + 1);
      } else if s(words, i).0.Some? {
        assert words[i := words[i]] == words;
        UngroupedWalk(dashDash, r, s, words, s(words, i).1);
      }
    }
  }

  function After(args: seq<ParsedArg>, w: GroupedWalk): GroupedWalk {
    GroupedWalk(args + w.args, w.argv, w.stop)
  }

  ghost function WalkFrom(dashDash: bool, step: GroupedStep): (walk: (seq<string>, nat) -> GroupedWalk)
    requires AlwaysShrinks(step)
    ensures WalksAs(dashDash, step, walk)
  {
    (words: seq<string>, i: nat) => WalkGrouped(dashDash, step, words, i)
  }

  ghost predicate WalksAs(dashDash: bool, step: GroupedStep, walk: (seq<string>, nat) -> GroupedWalk)
    requires AlwaysShrinks(step)
  {
    forall words: seq<string>, i: nat {:trigger WalkGrouped(dashDash, step, words, i)} ::
      walk(words, i) == WalkGrouped(dashDash, step, words, i)
  }

  lemma WalkRound(dashDash: bool, step: GroupedStep, walk: (seq<string>, nat) -> GroupedWalk,
                  words: seq<string>, i: nat, args: seq<ParsedArg>)
    requires AlwaysShrinks(step) && WalksAs(dashDash, step, walk)
    requires i < |words| && words[i] != "" && !ClosesOptions(dashDash, words[i])
    ensures match step(words, i)
      case Throw => After(args, walk(words, i)) == GroupedWalk(args, words, AtThrow(i))
      case Miss(next) => After(args, walk(words, i)) == GroupedWalk(args, words, AtMissing(i, next))
      case Emit(a, word, next) => After(args, walk(words, i)) == After(args + [a], walk(words[i := word], next))
  {
    assert Shrinks(words, i, step(words, i));
    var w := WalkGrouped(dashDash, step, words, i);
    match step(words, i)
    case Emit(a, word, next) =>
      ConcatAssoc(args, [a], WalkGrouped(dashDash, step, words[i := word], next).args);
    case _ => assert args + [] == args;
  }

  /** Where the loop does not come to a round. */
  lemma WalkStops(dashDash: bool, step: GroupedStep, walk: (seq<string>, nat) -> GroupedWalk,
                  words: seq<string>, i: nat, args: seq<ParsedArg>)
    requires AlwaysShrinks(step) && WalksAs(dashDash, step, walk)
    ensures var w := walk(words, i);
      if i >= |words| then After(args, w) == GroupedWalk(args, words, AtEnd)
      else if words[i] == "" then w == walk(words, i + 1)
      else ClosesOptions(dashDash, words[i]) ==> After(args, w) == GroupedWalk(args, words, AtDashDash(i))
  {
    var w := WalkGrouped(dashDash, step, words, i);
    var next := WalkGrouped(dashDash, step, words, i + 1);
    assert args + [] == args;
  }
}
