/** Inputs that show why the conditions of the main results are there, on the program's own tables
    (src/common/opt-data/catter-proxy/table.cc). */
module OptExamples {
  import opened Util
  import opened OptInfo
  import opened OptOrder
  import opened OptParse
  import opened OptLoop
  import opened OptGrouped

  const INPUT := Info([], "<input>", 1, InputClass, 0, None, 0, 0)
  const UNKNOWN := Info([], "<unknown>", 2, UnknownClass, 0, None, 0, 0)

  function ParentId(id: nat): Info { Info(["-"], "-p", id, SeparateClass, 0, None, 0, 1) }

  function Exec(id: nat): Info { Info(["-", "--"], "--exec", id, SeparateClass, 0, None, 0, 1) }

  function ProxyTable(infos: seq<Info>): Table {
    Table(infos, false, false, true, false, 1, 2, false, 2, ["-", "--"], ['-'])
  }

  /** The table of catter-proxy. */
  const PROXY := ProxyTable([INPUT, UNKNOWN, ParentId(3), Exec(4)])

  /** The same options in the order the fast mode asks for. */
  const SORTED_PROXY := ProxyTable([INPUT, UNKNOWN, Exec(3), ParentId(4)])

  lemma ExecNames()
    ensures ParentId(4).Name() == "p" && Exec(3).Name() == "-exec"
    ensures LTrimAllOf("--exec", ['-']) == "exec"
  {
    assert "--exec"[1..] == "-exec" && "-exec"[1..] == "exec";
  }

  /** The trimmed word, `exec`, lies between the two names. */
  lemma ExecOrder()
    ensures NameLess("-exec", "exec") && !NameLess("p", "exec")
    ensures StrCmpOptName("-exec", "p", false) < 0
  {
    StrCmpIsLex("-exec", "exec");
    StrCmpIsLex("p", "exec");
    StrCmpIsLex("-exec", "p");
    assert Letters("-exec")[0] == 45 && Letters("exec")[0] == 101 && Letters("p")[0] == 112;
  }

  lemma SortedProxyOrder()
    ensures SORTED_PROXY.Sorted()
  {
    var t := SORTED_PROXY;
    ExecNames();
    ExecOrder();
    forall i, j | 2 <= i < j < 4 ensures StrCmpOptName(Names(t.infos)[i], Names(t.infos)[j], false) <= 0 {
      assert i == 2 && j == 3;
    }
  }

  lemma SortedProxyIsSorted()
    ensures SORTED_PROXY.WellFormed() && SORTED_PROXY.Sorted() && SORTED_PROXY.PrefixesCovered()
    ensures PrefixesUnited(SORTED_PROXY) && !NamesStayPut(SORTED_PROXY)
  {
    var t := SORTED_PROXY;
    ExecNames();
    SortedProxyOrder();
    assert t.infos[2] == Exec(3) && LTrimAllOf("-exec", ['-']) == "exec" && Writes("-exec", "-exec", false);
    assert !StaysPut(t.infos[2].Name(), t.prefixChars, t.ignoreCase);
  }

  lemma ExecMatches()
    ensures MatchOpt(Exec(3), "--exec", false) == 6 && MatchOpt(ParentId(4), "--exec", false) == 0
  {
    ExecNames();
    assert "-" <= "--exec" && "--exec"[1..] == "-exec" && "-exec" <= "-exec";
    assert !("p" <= "-exec");
  }

  lemma ExecIsNoInput()
    ensures !IsInput(SORTED_PROXY, "--exec")
  {
    assert "-" in SORTED_PROXY.prefixesUnion && "-" <= "--exec";
  }

  lemma FastFindsNone()
    ensures SORTED_PROXY.WellFormed()
    ensures ParseOne(Fast(SORTED_PROXY), ["--exec", "x"], 0, NO_FILTER) == (Some(Plain(2, "--exec", [], 0)), 1)
  {
    ExecIsNoInput();
    FastStart();
    NoneFromThere();
  }

  lemma FastStart()
    ensures SORTED_PROXY.WellFormed() && ScanStart(Fast(SORTED_PROXY), "--exec") == 3
  {
    ExecNames();
    ExecOrder();
    assert SORTED_PROXY.infos[2] == Exec(3) && SORTED_PROXY.infos[3] == ParentId(4);
    LowerBoundUnique(Names(SORTED_PROXY.infos), 2, "exec", 3);
  }

  lemma NoneFromThere()
    ensures Chosen(SORTED_PROXY.infos, false, "--exec", 3, NO_FILTER) == None
  {
    ExecMatches();
    assert SORTED_PROXY.infos[3] == ParentId(4);
  }

  lemma LinearFindsExec()
    ensures SORTED_PROXY.WellFormed()
    ensures ParseOne(Linear(SORTED_PROXY), ["--exec", "x"], 0, NO_FILTER) == (Some(Plain(3, "--exec", ["x"], 0)), 2)
  {
    var t := SORTED_PROXY;
    ExecMatches();
    ExecIsNoInput();
    assert t.infos[2] == Exec(3) && Takes(t.infos[2], "--exec", false, NO_FILTER);
    FirstTakerIsChosen(t.infos, false, "--exec", 2, NO_FILTER, 2);
    assert "--exec"[..6] == "--exec";
  }

  /** `--exec` with the prefixes `-` and `--` has the name `-exec`, so the fast mode, though the table is sorted,
      takes `--exec x` for an unknown option where the full scan finds the option and its value. */
  lemma FastModeMissesExec()
    ensures SORTED_PROXY.WellFormed() && SORTED_PROXY.Sorted() && SORTED_PROXY.PrefixesCovered()
    ensures ParseOne(Fast(SORTED_PROXY), ["--exec", "x"], 0, NO_FILTER) == (Some(Plain(2, "--exec", [], 0)), 1)
    ensures ParseOne(Linear(SORTED_PROXY), ["--exec", "x"], 0, NO_FILTER) == (Some(Plain(3, "--exec", ["x"], 0)), 2)
  {
    SortedProxyIsSorted();
    FastFindsNone();
    LinearFindsExec();
  }

  /** An empty word behind `-p`, with more to come, is taken for a missing value and fails the assert
      that a missing value is at the end. */
  lemma EmptyValueBreaksAssert()
    ensures PROXY.WellFormed()
    ensures Parse(PROXY, ["-p", "", "x"], NO_FILTER) == Run([], 0, 1, false, false)
  {
    var argv := ["-p", "", "x"];
    var p := ParentId(3);
    assert p.Name() == "p";
    assert "-p"[1..] == "p" && "p" <= "p";
    assert MatchOpt(p, "-p", false) == 2;
    assert Taker("-p", false, NO_FILTER)(p);
    assert PROXY.infos[2] == p;
    assert FirstFrom(PROXY.infos, 2, Taker("-p", false, NO_FILTER)) == Some(2);
    assert "-" in PROXY.prefixesUnion && "-" <= "-p";
    assert ParseOne(PROXY, argv, 0, NO_FILTER) == (None, 2);
    StepOfProgresses(PROXY, NO_FILTER);
    assert StepOf(PROXY, NO_FILTER)(argv, 0) == (None, 2);
  }
}
