/** Whole runs of the fast mode against whole runs of the full scan (src/common/option/opt_table.cc). */
module OptFastRun {
  import opened Util
  import opened OptOrder
  import opened OptInfo
  import opened OptAccept
  import opened OptParse
  import opened OptLoop

  // ------------------------------------------------------------ names that need not stay put

  /** The option is taken under no other word than `--`. */
  predicate OnlyDashes(info: Info, ignoreCase: bool) {
    && Refuses(info.kind, false)
    && forall p :: p in info.prefixes && MatchOpt(info, p + info.Name(), ignoreCase) == |p + info.Name()|
         ==> p + info.Name() == "--"
  }

  /** Every name stays in its place, but for options that are only ever spelled `--` where that closes option
      parsing: they are never looked up. */
  ghost predicate RunsStayPut(t: Table)
    requires t.WellFormed()
  {
    forall k :: t.firstSearchableIndex <= k < |t.infos| && t.infos[k].prefixes != []
      ==> StaysPut(t.infos[k].Name(), t.prefixChars, t.ignoreCase)
          || (t.dashDashParsing && OnlyDashes(t.infos[k], t.ignoreCase))
  }

  predicate DefaultIsDashes(info: Info)
    requires info.prefixes != []
  {
    info.prefixes[0] + info.Name() == "--"
  }

  /** All prefixes of an option that is spelled `--` by default are not empty, and are ones the table knows. */
  predicate DashesUnited(t: Table) {
    forall k :: 0 <= k < |t.infos| && t.firstSearchableIndex <= k && t.infos[k].prefixes != []
                && DefaultIsDashes(t.infos[k])
      ==> forall p :: p in t.infos[k].prefixes ==> p != "" && p in t.prefixesUnion
  }

  // ------------------------------------------------------------ with such names the runs agree

  lemma DefaultTakes(info: Info, ignoreCase: bool)
    requires info.prefixes != []
    ensures MatchOpt(info, info.prefixes[0] + info.Name(), ignoreCase) == |info.prefixes[0] + info.Name()|
  {
    FirstPrefixMatches(info.Name(), info.prefixes, info.Name(), ignoreCase);
  }

  /** A name of dashes is written in one way. */
  lemma DashesWritten(name: string, n: string, ignoreCase: bool)
    requires Writes(name, n, ignoreCase) && forall k :: 0 <= k < |name| ==> name[k] == '-'
    ensures n == name
  {
    assert forall k :: 0 <= k < |name| ==> ignoreCase ==> ToLower(n[k]) == ToLower(name[k]);
  }

  lemma DashesSplit(p: string, name: string)
    requires p + name == "--"
    ensures forall k :: 0 <= k < |name| ==> name[k] == '-'
    ensures p != "" && name != "" ==> name == "-"
  {
    assert forall k :: 0 <= k < |name| ==> name[k] == (p + name)[|p| + k];
    assert p != "" && name != "" ==> |name| == 1 && name == [name[0]];
  }

  /** A word that such an option matches as a whole is one of its spellings. */
  lemma WholeSpelling(info: Info, str: string, ignoreCase: bool) returns (p: string)
    requires info.prefixes != [] && DefaultIsDashes(info)
    requires MatchOpt(info, str, ignoreCase) == |str| > 0
    ensures p in info.prefixes && str == p + info.Name()
  {
    var n, tail;
    p, n, tail := MatchParts(info, ignoreCase, str);
    DashesSplit(info.prefixes[0], info.Name());
    DashesWritten(info.Name(), n, ignoreCase);
    assert |str| == |p| + |n| + |tail|;
  }

  lemma DashesTake(info: Info, str: string, ignoreCase: bool)
    requires OnlyDashes(info, ignoreCase) && str != "--"
    ensures !Takes(info, str, ignoreCase, NO_FILTER)
  {
    if Takes(info, str, ignoreCase, NO_FILTER) {
      DefaultTakes(info, ignoreCase);
      var _ := WholeSpelling(info, str, ignoreCase);
    }
  }

  lemma SkippedTakesNothing(t: Table, str: string, k: nat)
    requires t.WellFormed() && t.Sorted() && t.PrefixesCovered() && RunsStayPut(t)
    requires !ClosesOptions(t.dashDashParsing, str) && t.firstSearchableIndex <= k < ScanStart(Fast(t), str)
    ensures !Takes(t.infos[k], str, t.ignoreCase, NO_FILTER)
  {
    var info := t.infos[k];
    if MatchOpt(info, str, t.ignoreCase) > 0 {
      if StaysPut(info.Name(), t.prefixChars, t.ignoreCase) {
        MatchNotLess(info, t.prefixChars, t.ignoreCase, str);
      } else {
        DashesTake(info, str, t.ignoreCase);
      }
    }
  }

  lemma RunChoosesSame(t: Table, str: string)
    requires t.WellFormed() && t.Sorted() && t.PrefixesCovered() && RunsStayPut(t)
    requires !ClosesOptions(t.dashDashParsing, str)
    ensures Chosen(t.infos, t.ignoreCase, str, ScanStart(Fast(t), str), NO_FILTER)
         == Chosen(t.infos, t.ignoreCase, str, t.firstSearchableIndex, NO_FILTER)
  {
    forall j | t.firstSearchableIndex <= j < ScanStart(Fast(t), str)
      ensures !Takes(t.infos[j], str, t.ignoreCase, NO_FILTER)
    {
      SkippedTakesNothing(t, str, j);
    }
    FirstSkips(t.infos, t.firstSearchableIndex, ScanStart(Fast(t), str), Taker(str, t.ignoreCase, NO_FILTER));
  }

  lemma RunStepAgrees(t: Table, argv: seq<string>, k: nat)
    requires t.WellFormed() && t.Sorted() && t.PrefixesCovered() && RunsStayPut(t)
    requires k < |argv| && !ClosesOptions(t.dashDashParsing, argv[k])
    ensures ModesAgree(t, argv, k)
  {
    RunChoosesSame(t, argv[k]);
  }

  lemma RunsAgree(t: Table, argv: seq<string>)
    requires t.WellFormed() && t.Sorted() && t.PrefixesCovered() && RunsStayPut(t)
    ensures Parse(Fast(t), argv, NO_FILTER) == Parse(Linear(t), argv, NO_FILTER)
  {
    var f, l := StepOf(Fast(t), NO_FILTER), StepOf(Linear(t), NO_FILTER);
    StepOfProgresses(Fast(t), NO_FILTER);
    StepOfProgresses(Linear(t), NO_FILTER);
    forall k: nat | k < |argv| && !ClosesOptions(t.dashDashParsing, argv[k]) ensures f(argv, k) == l(argv, k) {
      RunStepAgrees(t, argv, k);
      assert ModesAgree(t, argv, k);
    }
    SameSteps(t.dashDashParsing, f, l, argv, 0);
  }

  // ------------------------------------------------------------ and otherwise they do not

  /** What is delivered first, when the first word is neither empty nor the closing `--`. */
  lemma FirstDelivered(t: Table, argv: seq<string>)
    requires t.WellFormed() && argv != [] && argv[0] != "" && !ClosesOptions(t.dashDashParsing, argv[0])
    ensures var (a, args) := (ParseOne(t, argv, 0, NO_FILTER).0, Parse(t, argv, NO_FILTER).args);
      if a.Some? then args != [] && args[0] == a.value else args == []
  {
    StepOfProgresses(t, NO_FILTER);
    assert StepOf(t, NO_FILTER)(argv, 0) == ParseOne(t, argv, 0, NO_FILTER);
  }

  lemma FirstWordDiffers(t: Table, argv: seq<string>)
    requires t.WellFormed() && argv != [] && argv[0] != "" && !ClosesOptions(t.dashDashParsing, argv[0])
    requires Fast(t).WellFormed() && Linear(t).WellFormed()
    requires var fast, linear := ParseOne(Fast(t), argv, 0, NO_FILTER).0, ParseOne(Linear(t), argv, 0, NO_FILTER).0;
      linear.Some? && (fast.Some? ==> fast.value.optionId != linear.value.optionId)
    ensures Parse(Fast(t), argv, NO_FILTER) != Parse(Linear(t), argv, NO_FILTER)
  {
    FirstDelivered(Fast(t), argv);
    FirstDelivered(Linear(t), argv);
  }

  /** A word that an option takes which the fast mode passes over. */
  predicate Telltale(t: Table, k: nat, str: string)
    requires t.WellFormed()
  {
    && str != "" && !IsInput(t, str) && !ClosesOptions(t.dashDashParsing, str)
    && t.firstSearchableIndex <= k < LowerBound(Names(t.infos), t.firstSearchableIndex, LTrimAllOf(str, t.prefixChars))
    && Takes(t.infos[k], str, t.ignoreCase, NO_FILTER)
  }

  lemma TelltaleRunDiffers(t: Table, k: nat, str: string) returns (argv: seq<string>)
    requires t.WellFormed() && Telltale(t, k, str)
    ensures Parse(Fast(t), argv, NO_FILTER) != Parse(Linear(t), argv, NO_FILTER)
  {
    var takes := Taker(str, t.ignoreCase, NO_FILTER);
    FirstFromIs(t.infos, t.firstSearchableIndex, takes);
    assert takes(t.infos[k]);
    var c := Chosen(t.infos, t.ignoreCase, str, t.firstSearchableIndex, NO_FILTER).value;
    argv := [str] + seq(1 + t.infos[c].numArgs, _ => "x");
    SkippedDiffers(t, argv, c);
    FirstWordDiffers(t, argv);
  }

  /** The option under one of its prefixes. */
  lemma SpelledTelltale(t: Table, k: nat, p: string, n: string)
    requires t.WellFormed() && t.Sorted() && t.PrefixesCovered()
    requires t.firstSearchableIndex <= k < |t.infos| && p in t.infos[k].prefixes
    requires NameLess(t.infos[k].Name(), LTrimAllOf(n, t.prefixChars)) && n != ""
    requires MatchOpt(t.infos[k], p + n, t.ignoreCase) == |p + n|
    requires p != "" && p in t.prefixesUnion && !ClosesOptions(t.dashDashParsing, p + n)
    ensures Telltale(t, k, p + n)
  {
    LTrimPrefix(p, n, t.prefixChars);
    BelowIsSkipped(Names(t.infos), t.firstSearchableIndex, k, LTrimAllOf(n, t.prefixChars));
    assert p <= p + n && |p + n| > 1;
  }

  /** The option with a value behind its dashes. */
  lemma JoinedTelltale(t: Table, k: nat)
    requires t.WellFormed() && t.Sorted() && t.PrefixesCovered()
    requires t.firstSearchableIndex <= k < |t.infos| && t.infos[k].prefixes != []
    requires t.infos[k].prefixes[0] == "-" && t.infos[k].Name() == "-" && "-" in t.prefixesUnion
    requires !Refuses(t.infos[k].kind, false)
    ensures Telltale(t, k, "--z")
  {
    DashMatches(t.infos[k], t.ignoreCase);
    assert t.infos[k].prefixes[0] in t.infos[k].prefixes && '-' in "-";
    var trimmed := LTrimAllOf("--z", t.prefixChars);
    DashesTrimmed(t.prefixChars);
    DashBelow(trimmed);
    BelowIsSkipped(Names(t.infos), t.firstSearchableIndex, k, trimmed);
    assert "-" <= "--z";
  }

  lemma DashMatches(info: Info, ignoreCase: bool)
    requires info.prefixes != [] && info.prefixes[0] == "-" && info.Name() == "-"
    ensures MatchOpt(info, "--z", ignoreCase) == 2
  {
    assert "-" <= "--z" && "--z"[1..] == "-z" && "-z"[..1] == "-";
  }

  lemma DashesTrimmed(chars: seq<char>)
    requires '-' in chars
    ensures var trimmed := LTrimAllOf("--z", chars); trimmed == "z" || trimmed == ""
  {
    assert "--z"[1..] == "-z" && "-z"[1..] == "z" && "z"[1..] == "";
    assert LTrimAllOf("z", chars) == "z" || LTrimAllOf("z", chars) == "";
    assert LTrimAllOf("-z", chars) == LTrimAllOf("z", chars);
  }

  lemma DashBelow(name: string)
    requires name == "z" || name == ""
    ensures NameLess("-", name)
  {
  }

  lemma MovedTelltale(t: Table, k: nat, n: string) returns (str: string)
    requires t.WellFormed() && t.Sorted() && t.PrefixesCovered() && PrefixesUnited(t)
    requires t.dashDashParsing ==> DashesUnited(t)
    requires t.firstSearchableIndex <= k < |t.infos| && t.infos[k].prefixes != []
    requires Writes(t.infos[k].Name(), n, t.ignoreCase) && NameLess(t.infos[k].Name(), LTrimAllOf(n, t.prefixChars))
    requires t.dashDashParsing ==> !OnlyDashes(t.infos[k], t.ignoreCase)
    ensures Telltale(t, k, str)
  {
    var info := t.infos[k];
    SkipsWitness(t, k, n);
    str := info.prefixes[0] + n;
    if !ClosesOptions(t.dashDashParsing, str) {
      SpelledTelltale(t, k, info.prefixes[0], n);
    } else {
      str := DashesTelltale(t, k, n);
    }
  }

  /** An option spelled `--` by default that has another spelling, or takes a value behind its dashes. */
  lemma DashesTelltale(t: Table, k: nat, n: string) returns (str: string)
    requires t.WellFormed() && t.Sorted() && t.PrefixesCovered() && PrefixesUnited(t)
    requires t.dashDashParsing && DashesUnited(t)
    requires t.firstSearchableIndex <= k < |t.infos| && t.infos[k].prefixes != []
    requires Writes(t.infos[k].Name(), n, t.ignoreCase) && NameLess(t.infos[k].Name(), LTrimAllOf(n, t.prefixChars))
    requires n != "" && t.infos[k].prefixes[0] + n == "--" && !OnlyDashes(t.infos[k], t.ignoreCase)
    ensures Telltale(t, k, str)
  {
    var info := t.infos[k];
    DashesSplit(info.prefixes[0], n);
    assert info.Name() == "-" && info.prefixes[0] == "-" by { DashWrites(info.Name(), t.ignoreCase, info.prefixes[0]); }
    if !Refuses(info.kind, false) {
      str := "--z";
      JoinedTelltale(t, k);
    } else {
      var p :| p in info.prefixes && MatchOpt(info, p + info.Name(), t.ignoreCase) == |p + info.Name()|
               && p + info.Name() != "--";
      assert DefaultIsDashes(info);
      str := p + n;
      SpelledTelltale(t, k, p, n);
    }
  }

  lemma DashWrites(name: string, ignoreCase: bool, p: string)
    requires Writes(name, "-", ignoreCase) && p + "-" == "--"
    ensures name == "-" && p == "-"
  {
    assert |name| == 1 && ToLower(name[0]) == '-';
    assert name == [name[0]];
    assert |p| == 1 && p[0] == (p + "-")[0];
  }

  /** Main result on whole runs: the fast mode parses every command line as the full scan does if and only if every
      option name stays put under trimming, or is one that is never looked up. */
  lemma FastRunExact(t: Table)
    requires t.WellFormed() && t.Sorted() && t.PrefixesCovered() && PrefixesUnited(t)
    requires t.dashDashParsing ==> DashesUnited(t)
    ensures RunsStayPut(t) <==>
      forall argv :: Parse(Fast(t), argv, NO_FILTER) == Parse(Linear(t), argv, NO_FILTER)
  {
    if RunsStayPut(t) {
      forall argv ensures Parse(Fast(t), argv, NO_FILTER) == Parse(Linear(t), argv, NO_FILTER) {
        RunsAgree(t, argv);
      }
    } else {
      var k, n :| t.firstSearchableIndex <= k < |t.infos| && t.infos[k].prefixes != []
                  && Writes(t.infos[k].Name(), n, t.ignoreCase)
                  && NameLess(t.infos[k].Name(), LTrimAllOf(n, t.prefixChars))
                  && (t.dashDashParsing ==> !OnlyDashes(t.infos[k], t.ignoreCase));
      var str := MovedTelltale(t, k, n);
      var argv := TelltaleRunDiffers(t, k, str);
    }
  }
}
