/** The option table as data (src/common/option/opt_table.h, parsed_arg.h, option.h). */
module OptInfo {
  import opened Util
  import OptOrder

  datatype Kind =
    | GroupClass | InputClass | UnknownClass | FlagClass | JoinedClass | ValuesClass | SeparateClass
    | RemainingArgsClass | RemainingArgsJoinedClass | CommaJoinedClass | MultiArgClass
    | JoinedOrSeparateClass | JoinedAndSeparateClass

  datatype RenderStyle = RenderCommaJoinedStyle | RenderJoinedStyle | RenderSeparateStyle | RenderValuesStyle

  const RENDER_JOINED: bv32 := 4
  const RENDER_SEPARATE: bv32 := 8

  /** The classes `accept_internal` has a case for; any other class is unreachable there. */
  predicate Accepting(kind: Kind) {
    !kind.GroupClass? && !kind.InputClass? && !kind.UnknownClass? && !kind.ValuesClass?
  }

  datatype Info = Info(
    prefixes: seq<string>,
    prefixedName: string,
    id: nat,
    kind: Kind,
    aliasId: nat,
    aliasArgs: Option<string>,
    flags: bv32,
    numArgs: nat)
  {
    predicate WellNamed() {
      prefixes != [] ==> |prefixes[0]| <= |prefixedName|
    }

    predicate PrefixesOf(chars: seq<char>) {
      forall p, c :: p in prefixes && c in p ==> c in chars
    }

    /** The name after its default prefix; an entry that is not well named has none. */
    function Name(): string {
      if prefixes == [] then prefixedName else if WellNamed() then prefixedName[|prefixes[0]|..] else ""
    }

    function Style(): RenderStyle {
      if flags & RENDER_JOINED != 0 then RenderJoinedStyle
      else if flags & RENDER_SEPARATE != 0 then RenderSeparateStyle
      else match kind
        case GroupClass | InputClass | UnknownClass => RenderValuesStyle
        case JoinedClass | JoinedAndSeparateClass => RenderJoinedStyle
        case CommaJoinedClass => RenderCommaJoinedStyle
        case _ => RenderSeparateStyle
    }
  }

  datatype ParsedArg = ParsedArg(
    optionId: nat,
    spelling: string,
    values: seq<string>,
    index: nat,
    unaliasedId: Option<nat>,
    unaliasedAdditionalValues: Option<seq<string>>)
  {
    function UnaliasedOpt(): nat {
      if unaliasedId.Some? then unaliasedId.value else optionId
    }

    function UnaliasedValues(): seq<string> {
      if unaliasedAdditionalValues.Some? then values + unaliasedAdditionalValues.value else values
    }
  }

  /** An argument that is no alias. */
  function Plain(optionId: nat, spelling: string, values: seq<string>, index: nat): ParsedArg {
    ParsedArg(optionId, spelling, values, index, None, None)
  }

  /** Alias arguments lie in memory as strings each closed by NUL, with one more NUL at the end. */
  predicate Terminated(memory: string) {
    |memory| > 0 && memory[|memory| - 1] == '\0' && (|memory| > 1 ==> memory[|memory| - 2] == '\0')
  }

  function Names(infos: seq<Info>): (r: seq<string>)
    ensures |r| == |infos|
    ensures forall k :: 0 <= k < |infos| ==> r[k] == infos[k].Name()
  {
    seq(|infos|, k requires 0 <= k < |infos| => infos[k].Name())
  }

  /** What the constructor of `Option` asserts of an entry's alias. */
  predicate AliasOk(infos: seq<Info>, info: Info) {
    && info.aliasId <= |infos|
    && (info.aliasId != 0 ==> infos[info.aliasId - 1].aliasId == 0)
    && (info.aliasArgs.Some? ==>
          && info.aliasId != 0 && info.kind.FlagClass?
          && !infos[info.aliasId - 1].kind.FlagClass?
          && Terminated(info.aliasArgs.value) && info.aliasArgs.value[0] != '\0')
  }

  predicate AliasesOk(infos: seq<Info>) {
    forall k {:trigger AliasOk(infos, infos[k])} :: 0 <= k < |infos| ==> AliasOk(infos, infos[k])
  }

  /** What the table's accessors and the parser assert or leave unreachable. */
  predicate TableOk(infos: seq<Info>, first: nat, union: seq<string>, inputId: nat, unknownId: nat) {
    && first <= |infos|
    && union != []
    && inputId <= |infos| && (inputId != 0 ==> infos[inputId - 1].kind.InputClass?)
    && unknownId <= |infos| && (unknownId != 0 ==> infos[unknownId - 1].kind.UnknownClass?)
    && (forall k :: 0 <= k < |infos| ==> infos[k].id == k + 1 && infos[k].WellNamed())
    && (forall k :: first <= k < |infos| && infos[k].prefixes != [] ==> Accepting(infos[k].kind))
    && AliasesOk(infos)
  }

  datatype Table = Table(
    infos: seq<Info>,
    ignoreCase: bool,
    groupedShortOptions: bool,
    dashDashParsing: bool,
    dashDashAsSinglePack: bool,
    inputOptionId: nat,
    unknownOptionId: nat,
    tablegenMode: bool,
    firstSearchableIndex: nat,
    prefixesUnion: seq<string>,
    prefixChars: seq<char>)
  {
    predicate WellFormed() {
      TableOk(infos, firstSearchableIndex, prefixesUnion, inputOptionId, unknownOptionId)
    }

    /** The order `set_tablegen_mode` relies on. */
    predicate Sorted() {
      OptOrder.SortedFrom(Names(infos), firstSearchableIndex)
    }

    /** Every prefix of a searchable option is made of prefix characters. */
    predicate PrefixesCovered() {
      forall k :: firstSearchableIndex <= k < |infos| ==> infos[k].PrefixesOf(prefixChars)
    }
  }
}
