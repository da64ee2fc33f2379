/** Writing an accepted argument out again (src/common/option/parsed_arg.h, to_arg_str). */
module OptRender {
  import opened Util
  import opened OptInfo
  import opened OptAccept

  /** Every value behind its own separator. */
  function Appended(values: seq<string>, sep: char): string {
    if values == [] then "" else [sep] + values[0] + Appended(values[1..], sep)
  }

  function ToArgStr(spelling: string, values: seq<string>, style: RenderStyle): string
    requires style.RenderJoinedStyle? ==> values != []
  {
    match style
    case RenderCommaJoinedStyle => spelling + Appended(values, ',')
    case RenderJoinedStyle => spelling + values[0]
    case RenderSeparateStyle => spelling + Appended(values, ' ')
    case RenderValuesStyle => spelling
  }

  /** Overrides go before the class, and joining before separating. */
  lemma OverriddenStyle(info: Info)
    ensures info.flags & 4 != 0 ==> info.Style().RenderJoinedStyle?
    ensures info.flags & 4 == 0 && info.flags & 8 != 0 ==> info.Style().RenderSeparateStyle?
  {
  }

  /** An input or an unknown word is written as it stands. */
  lemma PlainIsWritten(info: Info, word: string, index: nat)
    requires info.kind.InputClass? || info.kind.UnknownClass?
    requires info.flags & RENDER_JOINED == 0 && info.flags & RENDER_SEPARATE == 0
    ensures !info.Style().RenderJoinedStyle?
    ensures ToArgStr(word, Plain(info.id, word, [], index).values, info.Style()) == word
  {
  }

  method WriteArgStr(spelling: string, values: seq<string>, style: RenderStyle) returns (o: string)
    requires style.RenderJoinedStyle? ==> values != []
    ensures o == ToArgStr(spelling, values, style)
  {
    o := spelling;
    match style
    case RenderCommaJoinedStyle => o := WriteValues(o, values, ',');
    case RenderJoinedStyle => o := o + values[0];
    case RenderSeparateStyle => o := WriteValues(o, values, ' ');
    case RenderValuesStyle =>
  }

  method WriteValues(start: string, values: seq<string>, sep: char) returns (o: string)
    ensures o == start + Appended(values, sep)
  {
    o := start;
    for i := 0 to |values|
      invariant start + Appended(values, sep) == o + Appended(values[i..], sep)
    {
      AppendedStep(o, values[i..], sep);
      assert values[i..][1..] == values[i + 1..];
      o := o + [sep] + values[i];
    }
  }

  lemma AppendedStep(o: string, values: seq<string>, sep: char)
    requires values != []
    ensures o + Appended(values, sep) == (o + [sep] + values[0]) + Appended(values[1..], sep)
  {
  }

  lemma {:induction false} AppendedIsJoin(head: string, values: seq<string>, sep: char)
    ensures head + Appended(values, sep) == Join([head] + values, sep)
    decreases |values|
  {
    if values == [] {
      assert head + "" == head;
    } else {
      AppendedIsJoin(values[0], values[1..], sep);
      assert [values[0]] + values[1..] == values;
      assert ([head] + values)[1..] == values;
      assert head + Appended(values, sep) == head + [sep] + (values[0] + Appended(values[1..], sep));
    }
  }

  /** The words of a rendered argument: separate style is split at spaces. */
  function Words(rendered: string, style: RenderStyle): seq<string> {
    if style.RenderSeparateStyle? then Split(rendered, ' ') else [rendered]
  }

  /** Rendering in the class's style and accepting again with the same spelling gives the same option
      and the same values, and uses up all the words. */
  predicate Survives(info: Info, a: ParsedArg)
    requires Accepting(info.kind) && (info.Style().RenderJoinedStyle? ==> a.values != [])
  {
    var words := Words(ToArgStr(a.spelling, a.values, info.Style()), info.Style());
    && a.spelling <= words[0]
    && AcceptInternal(info, words, a.spelling, 0) == (Some(a.(index := 0)), |words|)
  }

  predicate Accepted(info: Info, args: seq<string>, index: nat, a: ParsedArg)
    requires Accepting(info.kind)
  {
    index < |args| && a.spelling <= args[index] && AcceptInternal(info, args, a.spelling, index).0 == Some(a)
  }

  predicate SpaceFree(a: ParsedArg) {
    ' ' !in a.spelling && forall k :: 0 <= k < |a.values| ==> ' ' !in a.values[k]
  }

  /** Main result on rendering: an accepted argument of an option without render overrides survives
      exactly when its class is not JoinedAndSeparate, whose second value is dropped, and, where the
      style separates with spaces, neither spelling nor values hold one. */
  lemma RenderRoundTrip(info: Info, args: seq<string>, index: nat, a: ParsedArg)
    requires Accepting(info.kind) && info.flags & RENDER_JOINED == 0 && info.flags & RENDER_SEPARATE == 0
    requires Accepted(info, args, index, a)
    ensures info.Style().RenderJoinedStyle? ==> a.values != []
    ensures Survives(info, a) <==>
              !info.kind.JoinedAndSeparateClass? && (info.Style().RenderSeparateStyle? ==> SpaceFree(a))
  {
    AcceptOutcomes(info, args, a.spelling, index);
    if info.kind.JoinedClass? {
      JoinedSurvives(info, a);
    } else if info.kind.CommaJoinedClass? {
      CommaJoinedSurvives(info, a, args[index]);
    } else if info.kind.JoinedAndSeparateClass? {
      assert |Words(ToArgStr(a.spelling, a.values, info.Style()), info.Style())| == 1;
    } else {
      SpaceFreeSurvives(info, a, args, index);
    }
  }

  lemma SpaceFreeSurvives(info: Info, a: ParsedArg, args: seq<string>, index: nat)
    requires Accepting(info.kind) && info.Style().RenderSeparateStyle? && Accepted(info, args, index, a)
    requires !info.kind.JoinedClass? && !info.kind.JoinedAndSeparateClass? && !info.kind.CommaJoinedClass?
    ensures Survives(info, a) <==> SpaceFree(a)
  {
    if SpaceFree(a) {
      SeparateSurvives(info, a, args, index);
    }
    if Survives(info, a) {
      SurvivorHasNoSpaces(info, a);
    }
  }

  lemma JoinedSurvives(info: Info, a: ParsedArg)
    requires info.kind.JoinedClass? && info.Style().RenderJoinedStyle?
    requires |a.values| == 1 && a == Plain(info.id, a.spelling, a.values, a.index)
    ensures Survives(info, a)
  {
    var v := a.values[0];
    assert (a.spelling + v)[|a.spelling|..] == v;
    assert a.values == [v];
  }

  /** The rendering puts a comma before the first value too; the empty piece this makes is filtered out. */
  lemma CommaJoinedSurvives(info: Info, a: ParsedArg, word: string)
    requires info.kind.CommaJoinedClass? && info.Style().RenderCommaJoinedStyle?
    requires a.spelling <= word && a == Plain(info.id, a.spelling, NonEmpty(Split(word[|a.spelling|..], ',')), a.index)
    ensures Survives(info, a)
  {
    var tail := word[|a.spelling|..];
    JoinSplit(tail, ',');
    var v := a.values;
    var rendered := a.spelling + Appended(v, ',');
    assert rendered[|a.spelling|..] == Appended(v, ',');
    AppendedIsJoin("", v, ',');
    assert "" + Appended(v, ',') == Appended(v, ',');
    forall p | p in [""] + v ensures ',' !in p {
    }
    SplitJoin([""] + v, ',');
    assert Split(Appended(v, ','), ',') == [""] + v;
    assert [] !in v;
    NonEmptyKeeps(v);
    NonEmptyConcat([""], v);
    assert NonEmpty([""]) == [];
    assert NonEmpty(Split(Appended(v, ','), ',')) == v;
    assert Words(rendered, info.Style())[0][|a.spelling|..] == Appended(v, ',');
  }

  /** In separate style the words are the spelling and the values again. */
  lemma SeparateSurvives(info: Info, a: ParsedArg, args: seq<string>, index: nat)
    requires Accepting(info.kind) && info.Style().RenderSeparateStyle? && Accepted(info, args, index, a)
    requires !info.kind.JoinedClass? && !info.kind.JoinedAndSeparateClass? && !info.kind.CommaJoinedClass?
    requires SpaceFree(a)
    ensures Survives(info, a)
  {
    var words := [a.spelling] + a.values;
    AppendedIsJoin(a.spelling, a.values, ' ');
    SplitJoin(words, ' ');
    AcceptOutcomes(info, args, a.spelling, index);
    AcceptsOwnWords(info, a, args[index..AcceptInternal(info, args, a.spelling, index).1]);
  }

  lemma AcceptsOwnWords(info: Info, a: ParsedArg, covered: seq<string>)
    requires Accepting(info.kind) && a == Plain(info.id, a.spelling, a.values, a.index)
    requires !info.kind.JoinedClass? && !info.kind.JoinedAndSeparateClass? && !info.kind.CommaJoinedClass?
    requires Covers(info.kind, info.numArgs, a.spelling, a.values, covered)
    ensures AcceptInternal(info, [a.spelling] + a.values, a.spelling, 0) == (Some(a.(index := 0)), 1 + |a.values|)
  {
    var words := [a.spelling] + a.values;
    assert words[1..] == a.values;
    if info.kind.RemainingArgsClass? || info.kind.RemainingArgsJoinedClass? {
      RemainingAll(words, 1);
    } else if info.kind.MultiArgClass? {
      assert words[1..1 + info.numArgs] == a.values;
    } else if !info.kind.FlagClass? {
      assert a.values == [words[1]];
    }
  }

  lemma {:induction false} RemainingAll(words: seq<string>, i: nat)
    requires i <= |words| && "" !in words[i..]
    ensures Remaining(words, i) == words[i..]
    decreases |words| - i
  {
    if i < |words| {
      assert words[i] in words[i..];
      assert words[i..] == [words[i]] + words[i + 1..];
      RemainingAll(words, i + 1);
    }
  }

  lemma SurvivorHasNoSpaces(info: Info, a: ParsedArg)
    requires Accepting(info.kind) && info.Style().RenderSeparateStyle? && Survives(info, a)
    requires !info.kind.JoinedClass? && !info.kind.JoinedAndSeparateClass? && !info.kind.CommaJoinedClass?
    ensures SpaceFree(a)
  {
    var rendered := ToArgStr(a.spelling, a.values, info.Style());
    var words := Split(rendered, ' ');
    JoinSplit(rendered, ' ');
    assert words[0] in words;
    AcceptOutcomes(info, words, a.spelling, 0);
    assert words[0..|words|] == words;
    CoveredHasNoSpaces(info.kind, info.numArgs, a.spelling, a.values, words);
  }

  lemma CoveredHasNoSpaces(kind: Kind, numArgs: nat, spelling: string, v: seq<string>, words: seq<string>)
    requires Covers(kind, numArgs, spelling, v, words) && words != [] && spelling <= words[0]
    requires !kind.JoinedClass? && !kind.JoinedAndSeparateClass? && !kind.CommaJoinedClass?
    requires forall p :: p in words ==> ' ' !in p
    ensures ' ' !in spelling && forall k :: 0 <= k < |v| ==> ' ' !in v[k]
  {
    assert words[0] in words;
    if words == [spelling] + v {
      forall k | 0 <= k < |v| ensures ' ' !in v[k] { assert words[k + 1] in words; }
    } else if v != [] {
      assert words[0] == spelling + v[0];
      forall k | 0 < k < |v| ensures ' ' !in v[k] { assert words[k] == v[k] && words[k] in words; }
    }
  }
}
