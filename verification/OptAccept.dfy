/** How one option takes its words from the command line (src/common/option/option.cc). */
module OptAccept {
  import opened Util
  import opened OptInfo
  import opened NulStrings

  /** The words from `i` on, up to the end or the first empty one. */
  function Remaining(args: seq<string>, i: nat): (r: seq<string>)
    requires i <= |args|
    ensures i + |r| <= |args|
    decreases |args| - i
  {
    if i == |args| || args[i] == "" then [] else [args[i]] + Remaining(args, i + 1)
  }

  lemma {:induction false} RemainingIs(args: seq<string>, i: nat)
    requires i <= |args|
    ensures var end := i + |Remaining(args, i)|;
            Remaining(args, i) == args[i..end] && "" !in args[i..end] && (end < |args| ==> args[end] == "")
    decreases |args| - i
  {
    if i < |args| && args[i] != "" {
      RemainingIs(args, i + 1);
      var end := i + |Remaining(args, i)|;
      assert args[i..end] == [args[i]] + args[i + 1..end];
    }
  }

  function SeparateValue(info: Info, args: seq<string>, spelling: string, index: nat)
    : (Option<ParsedArg>, nat)
    requires index < |args|
  {
    if index + 2 > |args| || args[index + 1] == "" then (None, index + 2)
    else (Some(Plain(info.id, spelling, [args[index + 1]], index)), index + 2)
  }

  /** The new argument, if any, and the position to go on from. */
  function AcceptInternal(info: Info, args: seq<string>, spelling: string, index: nat)
    : (Option<ParsedArg>, nat)
    requires index < |args| && spelling <= args[index] && Accepting(info.kind)
  {
    var exact := |spelling| == |args[index]|;
    var joined := args[index][|spelling|..];
    match info.kind
    case FlagClass =>
      if !exact then (None, index) else (Some(Plain(info.id, spelling, [], index)), index + 1)
    case JoinedClass =>
      (Some(Plain(info.id, spelling, [joined], index)), index + 1)
    case CommaJoinedClass =>
      (Some(Plain(info.id, spelling, NonEmpty(Split(joined, ',')), index)), index + 1)
    case SeparateClass =>
      if !exact then (None, index) else SeparateValue(info, args, spelling, index)
    case MultiArgClass =>
      if !exact then (None, index)
      else if index + 1 + info.numArgs > |args| then (None, index + 1 + info.numArgs)
      else (Some(Plain(info.id, spelling, args[index + 1..index + 1 + info.numArgs], index)),
            index + 1 + info.numArgs)
    case JoinedOrSeparateClass =>
      if !exact then (Some(Plain(info.id, spelling, [joined], index)), index + 1)
      else SeparateValue(info, args, spelling, index)
    case JoinedAndSeparateClass =>
      if index + 2 > |args| || args[index + 1] == "" then (None, index + 2)
      else (Some(Plain(info.id, spelling, [joined, args[index + 1]], index)), index + 2)
    case RemainingArgsClass =>
      if !exact then (None, index)
      else
        var rest := Remaining(args, index + 1);
        (Some(Plain(info.id, spelling, rest, index)), index + 1 + |rest|)
    case RemainingArgsJoinedClass =>
      var rest := Remaining(args, index + 1);
      (Some(Plain(info.id, spelling, if exact then rest else [joined] + rest, index)), index + 1 + |rest|)
  }

  // ------------------------------------------------------------ what an argument stands for

  /** The words that spelling and values of an argument of a class stand for. */
  predicate Covers(kind: Kind, numArgs: nat, spelling: string, v: seq<string>, words: seq<string>) {
    match kind
    case FlagClass => v == [] && words == [spelling]
    case JoinedClass => |v| == 1 && words == [spelling + v[0]]
    case CommaJoinedClass =>
      |words| == 1 && spelling <= words[0] && v == NonEmpty(Split(words[0][|spelling|..], ','))
    case SeparateClass => |v| == 1 && v[0] != "" && words == [spelling] + v
    case MultiArgClass => |v| == numArgs && words == [spelling] + v
    case JoinedOrSeparateClass =>
      |v| == 1 && v[0] != "" && (words == [spelling + v[0]] || words == [spelling] + v)
    case JoinedAndSeparateClass => |v| == 2 && v[1] != "" && words == [spelling + v[0], v[1]]
    case RemainingArgsClass => "" !in v && words == [spelling] + v
    case RemainingArgsJoinedClass =>
      "" !in v && (words == [spelling] + v || (v != [] && words == [spelling + v[0]] + v[1..]))
    case _ => v == [] && words == [spelling]
  }

  /** The words and the spelling determine the values. */
  lemma CoversDeterminesValues(kind: Kind, numArgs: nat, sp: string, v: seq<string>, w: seq<string>, words: seq<string>)
    requires Covers(kind, numArgs, sp, v, words) && Covers(kind, numArgs, sp, w, words)
    ensures v == w
  {
    match kind
    case JoinedOrSeparateClass =>
      JoinedWord(sp, v[0]);
      JoinedWord(sp, w[0]);
      if |words| == 1 {
        assert v == [v[0]] && w == [w[0]];
      } else {
        assert v == words[1..] == w;
      }
    case JoinedClass =>
      JoinedWord(sp, v[0]);
      JoinedWord(sp, w[0]);
      assert v == [v[0]] && w == [w[0]];
    case JoinedAndSeparateClass =>
      JoinedWord(sp, v[0]);
      JoinedWord(sp, w[0]);
      assert v == [v[0], v[1]] && w == [w[0], w[1]];
    case RemainingArgsJoinedClass =>
      JoinedHead(sp, v, words);
      JoinedHead(sp, w, words);
    case SeparateClass | MultiArgClass | RemainingArgsClass =>
      assert v == words[1..] == w;
    case _ =>
  }

  lemma JoinedWord(spelling: string, v: string)
    ensures (spelling + v)[|spelling|..] == v
  {
  }

  lemma JoinedHead(spelling: string, v: seq<string>, words: seq<string>)
    requires Covers(RemainingArgsJoinedClass, 0, spelling, v, words)
    ensures |words| > 0 && spelling <= words[0]
    ensures v == if words[0] == spelling then words[1..] else [words[0][|spelling|..]] + words[1..]
  {
    if words != [spelling] + v {
      assert v[0] in v;
      JoinedWord(spelling, v[0]);
      assert v == [v[0]] + v[1..];
    }
  }

  /** Whether a class, on a word it matches exactly or not, refuses the word and leaves it be. */
  predicate Refuses(kind: Kind, exact: bool) {
    !exact && (kind.FlagClass? || kind.SeparateClass? || kind.MultiArgClass? || kind.RemainingArgsClass?)
  }

  /** Whether a class takes the next word as a value and insists that it is not empty. */
  predicate WantsNextWord(kind: Kind, exact: bool) {
    (exact && (kind.SeparateClass? || kind.JoinedOrSeparateClass?)) || kind.JoinedAndSeparateClass?
  }

  predicate ValueMissing(info: Info, args: seq<string>, exact: bool, index: nat)
    requires index < |args|
  {
    || (WantsNextWord(info.kind, exact) && (index + 2 > |args| || args[index + 1] == ""))
    || (exact && info.kind.MultiArgClass? && index + 1 + info.numArgs > |args|)
  }

  /** Main result on `accept_internal`: the three outcomes and exactly when each comes about; an
      accepted argument covers the words between the two positions. */
  lemma AcceptOutcomes(info: Info, args: seq<string>, spelling: string, index: nat)
    requires index < |args| && spelling <= args[index] && Accepting(info.kind)
    ensures var exact := spelling == args[index];
            var (a, next) := AcceptInternal(info, args, spelling, index);
            && (next == index <==> Refuses(info.kind, exact))
            && (a.None? && next > index <==> ValueMissing(info, args, exact, index))
            && (a.Some? ==>
                  && index < next <= |args|
                  && a.value == Plain(info.id, spelling, a.value.values, index)
                  && Covers(info.kind, info.numArgs, spelling, a.value.values, args[index..next])
                  && (info.kind.RemainingArgsClass? || info.kind.RemainingArgsJoinedClass?
                      ==> next < |args| ==> args[next] == ""))
  {
    var exact := spelling == args[index];
    assert exact <==> |spelling| == |args[index]|;
    var joined := args[index][|spelling|..];
    assert args[index] == spelling + joined;
    RemainingIs(args, index + 1);
    var (a, next) := AcceptInternal(info, args, spelling, index);
    if a.Some? && next <= |args| {
      assert args[index..next] == [args[index]] + args[index + 1..next];
      if next == index + 2 { assert args[index + 1..next] == [args[index + 1]]; }
      if info.kind.RemainingArgsJoinedClass? && !exact {
        assert ([joined] + Remaining(args, index + 1))[1..] == Remaining(args, index + 1);
      }
    }
  }

  /** A missing value of the next-word kind is reported two past the option; only an empty word that
      is not the last one leaves the position short of the end. */
  lemma MissingReachesEnd(info: Info, args: seq<string>, spelling: string, index: nat)
    requires index < |args| && spelling <= args[index] && Accepting(info.kind)
    requires ValueMissing(info, args, spelling == args[index], index)
    ensures var next := AcceptInternal(info, args, spelling, index).1;
            && next >= index + 2
            && (next < |args| <==>
                  WantsNextWord(info.kind, spelling == args[index]) && index + 2 < |args| && args[index + 1] == "")
  {
    assert spelling == args[index] <==> |spelling| == |args[index]|;
  }

  // ------------------------------------------------------------ aliases

  function UnaliasedOption(infos: seq<Info>, info: Info): (r: Info)
    requires AliasesOk(infos) && AliasOk(infos, info)
    ensures r.aliasId == 0 && AliasOk(infos, r)
    decreases if info.aliasId == 0 then 0 else 1
  {
    if info.aliasId != 0 then UnaliasedOption(infos, infos[info.aliasId - 1]) else info
  }

  /** The eight-byte array a grouped spelling is copied into, read back as a string. */
  function SpellingArray(s: string): string {
    UpToNul(if |s| >= 8 then s[..7] else s)
  }

  function UpToNul(s: string): string {
    if s == "" || s[0] == '\0' then "" else [s[0]] + UpToNul(s[1..])
  }

  /** A spelling of fewer than eight characters is kept. */
  lemma {:induction false} ShortSpellingKept(s: string)
    requires |s| < 8 && '\0' !in s
    ensures SpellingArray(s) == s
  {
    NothingCut(s);
  }

  lemma {:induction false} NothingCut(s: string)
    requires '\0' !in s
    ensures UpToNul(s) == s
  {
    if s != "" {
      NothingCut(s[1..]);
      assert s == [s[0]] + s[1..];
    }
  }

  /** What an alias adds to the argument it accepted. */
  function WithAlias(infos: seq<Info>, info: Info, a: ParsedArg): (r: ParsedArg)
    requires AliasesOk(infos) && AliasOk(infos, info)
    ensures r.optionId == a.optionId && r.spelling == a.spelling && r.values == a.values && r.index == a.index
  {
    var target := UnaliasedOption(infos, info);
    if info.id == target.id then a
    else
      var named := a.(unaliasedId := Some(target.id));
      if !info.kind.FlagClass? then named
      else if info.aliasArgs.Some? then
        named.(unaliasedAdditionalValues := Some(Strings(info.aliasArgs.value)))
      else if target.kind.JoinedClass? then named.(unaliasedAdditionalValues := Some([""]))
      else named
  }

  function Accept(infos: seq<Info>, info: Info, args: seq<string>, spelling: string, grouped: bool, index: nat)
    : (r: (Option<ParsedArg>, nat))
    requires AliasesOk(infos) && AliasOk(infos, info) && Accepting(info.kind)
    requires index < |args| && spelling <= args[index]
    ensures !grouped ==>
      var (a, next) := AcceptInternal(info, args, spelling, index);
      r == (if a.None? then None else Some(WithAlias(infos, info, a.value)), next)
  {
    var (a, next) :=
      if grouped && info.kind.FlagClass? then
        (Some(Plain(info.id, SpellingArray(spelling), [], index)), index)
      else AcceptInternal(info, args, spelling, index);
    (if a.None? then None else Some(WithAlias(infos, info, a.value)), next)
  }

  /** The table numbers its entries from 1. */
  predicate Numbered(infos: seq<Info>) { forall k :: 0 <= k < |infos| ==> infos[k].id == k + 1 }

  /** An alias names the entry whose number it carries, and what is no alias stays as it is. Only a flag alias adds
      values: exactly the strings that lie in the table's alias arguments, or one empty string for a joined target. */
  lemma AliasMeaning(infos: seq<Info>, info: Info, a: ParsedArg)
    requires AliasesOk(infos) && AliasOk(infos, info)
    requires Numbered(infos) && 1 <= info.id <= |infos| && infos[info.id - 1] == info
    requires a.unaliasedId.None? && a.unaliasedAdditionalValues.None? && a.optionId == info.id
    ensures var b := WithAlias(infos, info, a);
            && b.UnaliasedOpt() == (if info.aliasId != 0 then info.aliasId else info.id)
            && (info.aliasId == 0 ==> b == a)
            && (info.aliasId != 0 ==> b.unaliasedId == Some(info.aliasId))
            && (!info.kind.FlagClass? ==> b.UnaliasedValues() == a.values)
            && (info.kind.FlagClass? && info.aliasId != 0 && info.aliasArgs.None? ==>
                  b.UnaliasedValues() == a.values + if infos[info.aliasId - 1].kind.JoinedClass? then [""] else [])
    ensures forall strings ::
      AllStorable(strings) && info.aliasArgs == Some(Memory(strings)) ==>
        WithAlias(infos, info, a).UnaliasedValues() == a.values + strings
  {
    assert info.aliasId != 0 ==> UnaliasedOption(infos, info) == infos[info.aliasId - 1];
    assert a.values + [] == a.values;
    forall strings | AllStorable(strings) && info.aliasArgs == Some(Memory(strings))
      ensures Strings(Memory(strings)) == strings
    {
      RoundTrip(strings, "");
      assert Memory(strings) + "" == Memory(strings);
    }
  }

  // ------------------------------------------------------------ the code's own loops

  lemma NonEmptyHead(piece: string, others: seq<string>)
    ensures NonEmpty([piece] + others) == (if piece == "" then [] else [piece]) + NonEmpty(others)
  {
    assert ([piece] + others)[1..] == others;
  }

  /** The parts before `start` are in `values`, and no part ends between `start` and `i`. */
  predicate Parted(s: string, start: nat, i: nat, values: seq<string>, all: seq<string>) {
    && start <= i <= |s| && ',' !in s[start..i]
    && all == values + NonEmpty(Split(s[start..], ','))
  }

  lemma CutAt(s: string, start: nat, i: nat, values: seq<string>, all: seq<string>)
    requires i < |s| && s[i] == ',' && Parted(s, start, i, values, all)
    ensures Parted(s, i + 1, i + 1, if i > start then values + [s[start..i]] else values, all)
  {
    var piece, tail := s[start..i], s[i + 1..];
    assert s[start..] == piece + [','] + tail;
    SplitCut(piece, tail, ',');
    NonEmptyHead(piece, Split(tail, ','));
    ConcatAssoc(values, if piece == "" then [] else [piece], NonEmpty(Split(tail, ',')));
    assert values + [] == values;
  }

  lemma GoOn(s: string, start: nat, i: nat, values: seq<string>, all: seq<string>)
    requires i < |s| && s[i] != ',' && Parted(s, start, i, values, all)
    ensures Parted(s, start, i + 1, values, all)
  {
    assert s[start..i + 1] == s[start..i] + [s[i]];
  }

  lemma LastPart(s: string, start: nat, values: seq<string>, all: seq<string>)
    requires Parted(s, start, |s|, values, all)
    ensures all == if start < |s| then values + [s[start..]] else values
  {
    assert s[start..|s|] == s[start..];
    SplitFree(s[start..], ',');
    NonEmptyHead(s[start..], []);
    assert [s[start..]] + [] == [s[start..]];
    assert values + [] == values;
  }

  /** The range loop over the comma-separated parts. */
  method CommaParts(s: string) returns (values: seq<string>)
    ensures values == NonEmpty(Split(s, ','))
  {
    values := [];
    var start, i := 0, 0;
    ghost var all := NonEmpty(Split(s, ','));
    assert s[0..] == s && [] + all == all;
    while i < |s|
      invariant Parted(s, start, i, values, all)
      decreases |s| - i
    {
      if s[i] == ',' {
        CutAt(s, start, i, values, all);
        if i > start {
          values := values + [s[start..i]];
        }
        start := i + 1;
      } else {
        GoOn(s, start, i, values, all);
      }
      i := i + 1;
    }
    LastPart(s, start, values, all);
    if start < |s| {
      values := values + [s[start..]];
    }
  }

  method AcceptInternalInPlace(info: Info, args: array<string>, spelling: string, index: nat)
    returns (a: Option<ParsedArg>, next: nat)
    requires index < args.Length && spelling <= args[index] && Accepting(info.kind)
    ensures (a, next) == AcceptInternal(info, args[..], spelling, index)
  {
    a, next := None, index;
    var exact := |spelling| == |args[index]|;
    match info.kind
    case FlagClass =>
      if exact {
        a, next := Some(Plain(info.id, spelling, [], index)), index + 1;
      }
    case JoinedClass =>
      a, next := Some(Plain(info.id, spelling, [args[index][|spelling|..]], index)), index + 1;
    case CommaJoinedClass =>
      var values := CommaParts(args[index][|spelling|..]);
      a, next := Some(Plain(info.id, spelling, values, index)), index + 1;
    case SeparateClass =>
      if exact {
        next := index + 2;
        if next <= args.Length && args[next - 1] != "" {
          a := Some(Plain(info.id, spelling, [args[next - 1]], next - 2));
        }
      }
    case MultiArgClass =>
      if exact {
        next := index + 1 + info.numArgs;
        if next <= args.Length {
          var values := TakeArgs(args, next, info.numArgs);
          a := Some(Plain(info.id, spelling, values, index));
        }
      }
    case JoinedOrSeparateClass =>
      if !exact {
        a, next := Some(Plain(info.id, spelling, [args[index][|spelling|..]], index)), index + 1;
      } else {
        next := index + 2;
        if next <= args.Length && args[next - 1] != "" {
          a := Some(Plain(info.id, spelling, [args[next - 1]], next - 2));
        }
      }
    case JoinedAndSeparateClass =>
      next := index + 2;
      if next <= args.Length && args[next - 1] != "" {
        a := Some(Plain(info.id, spelling, [args[next - 2][|spelling|..], args[next - 1]], next - 2));
      }
    case RemainingArgsClass =>
      if exact {
        var values: seq<string>;
        values, next := TakeRemaining(args, index + 1);
        a := Some(Plain(info.id, spelling, values, index));
      }
    case RemainingArgsJoinedClass =>
      var values: seq<string>;
      values, next := TakeRemaining(args, index + 1);
      if !exact {
        values := [args[index][|spelling|..]] + values;
      }
      a := Some(Plain(info.id, spelling, values, index));
  }

  /** The `numArgs` words before `index`. */
  method TakeArgs(args: array<string>, index: nat, numArgs: nat) returns (values: seq<string>)
    requires numArgs <= index <= args.Length
    ensures values == args[index - numArgs..index]
  {
    values := [];
    var i := 0;
    while i != numArgs
      invariant 0 <= i <= numArgs && values == args[index - numArgs..index - numArgs + i]
    {
      values := values + [args[index - numArgs + i]];
      i := i + 1;
    }
  }

  lemma RemainingStep(words: seq<string>, start: nat, index: nat, values: seq<string>)
    requires start <= index < |words| && words[index] != ""
    requires Remaining(words, start) == values + Remaining(words, index)
    ensures Remaining(words, start) == values + [words[index]] + Remaining(words, index + 1)
  {
    ConcatAssoc(values, [words[index]], Remaining(words, index + 1));
  }

  method TakeRemaining(args: array<string>, start: nat) returns (values: seq<string>, index: nat)
    requires start <= args.Length
    ensures values == Remaining(args[..], start) && index == start + |values|
  {
    values, index := [], start;
    ghost var words := args[..];
    while index < args.Length && args[index] != ""
      invariant start <= index <= args.Length && index == start + |values|
      invariant Remaining(words, start) == values + Remaining(words, index)
    {
      RemainingStep(words, start, index, values);
      values, index := values + [args[index]], index + 1;
    }
  }

  method AliasArgs(memory: string) returns (values: seq<string>)
    requires Terminated(memory) && memory[0] != '\0'
    ensures values == Strings(memory)
  {
    values := [];
    var val := 0;
    while memory[val] != '\0'
      invariant 0 <= val < |memory|
      invariant Strings(memory) == values + Strings(memory[val..])
      decreases |memory| - val
    {
      ghost var rest := memory[val..];
      var n := StrLen(memory[val..]);
      TerminatedRest(memory, val);
      ConcatAssoc(values, [rest[..n]], Strings(rest[n + 1..]));
      assert rest[..n] == memory[val..val + n] && rest[n + 1..] == memory[val + n + 1..];
      values, val := values + [memory[val..val + n]], val + n + 1;
    }
  }

  /** Walking past one alias argument stays inside the memory. */
  lemma TerminatedRest(memory: string, val: nat)
    requires Terminated(memory) && val < |memory| && memory[val] != '\0'
    ensures 0 < StrLen(memory[val..]) && val + StrLen(memory[val..]) + 1 < |memory|
  {
    var rest := memory[val..];
    assert rest[0] == memory[val];
    assert val + 2 < |memory|;
    assert rest[|rest| - 1] == memory[|memory| - 1] == '\0';
    assert rest[|rest| - 2] == memory[|memory| - 2] == '\0';
  }

  method AcceptInPlace(infos: seq<Info>, info: Info, args: array<string>, spelling: string, grouped: bool, index: nat)
    returns (a: Option<ParsedArg>, next: nat)
    requires AliasesOk(infos) && AliasOk(infos, info) && Accepting(info.kind)
    requires index < args.Length && spelling <= args[index]
    ensures (a, next) == Accept(infos, info, args[..], spelling, grouped, index)
  {
    next := index;
    if grouped && info.kind.FlagClass? {
      a := Some(Plain(info.id, SpellingArray(spelling), [], index));
    } else {
      a, next := AcceptInternalInPlace(info, args, spelling, index);
    }
    if a.None? {
      return;
    }
    var target := UnaliasedOption(infos, info);
    if info.id == target.id {
      return;
    }
    a := Some(a.value.(unaliasedId := Some(target.id)));
    if !info.kind.FlagClass? {
      return;
    }
    if info.aliasArgs.Some? {
      var values := AliasArgs(info.aliasArgs.value);
      a := Some(a.value.(unaliasedAdditionalValues := Some(values)));
    }
    if target.kind.JoinedClass? && info.aliasArgs.None? {
      a := Some(a.value.(unaliasedAdditionalValues := Some([""])));
    }
  }
}
