/** The order on option names and the binary search that rests on it
    (src/common/option/opt_table.cc). */
module OptOrder {

  /** The C locale's tolower on one byte. */
  function ToLower(c: char): char {
    if 'A' <= c <= 'Z' then (c as int + 32) as char else c
  }

  /** `char` is signed on the supported targets, so a byte from 128 on sorts below every ASCII
      character.  (Characters that are not bytes follow the same rule; no code depends on them.) */
  function Rank(c: char): int {
    if c as int < 128 then c as int else c as int - 0x11_0000
  }

  /** Folding takes `A` to `Z` to `a` to `z` and leaves every other character. */
  lemma FoldsCapitals(c: char, i: nat)
    requires i < 26
    ensures ToLower(('A' as int + i) as char) == ('a' as int + i) as char
    ensures c < 'A' || 'Z' < c ==> ToLower(c) == c
  {
  }

  /** A byte as a signed `char`. */
  function SignedByte(c: char): int
    requires c as int < 256
  {
    if c as int >= 128 then c as int - 256 else c as int
  }

  lemma RankIsSigned(c: char, d: char)
    requires c as int < 256 && d as int < 256
    ensures Rank(c) < Rank(d) <==> SignedByte(c) < SignedByte(d)
  {
  }

  predicate EqualInsensitive(a: string, b: string) {
    |a| == |b| && forall i :: 0 <= i < |a| ==> ToLower(a[i]) == ToLower(b[i])
  }

  predicate StartsWithInsensitive(text: string, prefix: string) {
    |prefix| <= |text| && EqualInsensitive(text[..|prefix|], prefix)
  }

  function CompareInsensitive(a: string, b: string): int {
    if a == "" || b == "" then
      if |a| == |b| then 0 else if |a| < |b| then -1 else 1
    else if ToLower(a[0]) == ToLower(b[0]) then
      CompareInsensitive(a[1..], b[1..])
    else if Rank(ToLower(a[0])) < Rank(ToLower(b[0])) then -1 else 1
  }

  method CompareInsensitiveLoop(a: string, b: string) returns (r: int)
    ensures r == CompareInsensitive(a, b)
  {
    var mn := if |a| < |b| then |a| else |b|;
    var i := 0;
    while i < mn
      invariant 0 <= i <= mn
      invariant CompareInsensitive(a, b) == CompareInsensitive(a[i..], b[i..])
    {
      var c1, c2 := ToLower(a[i]), ToLower(b[i]);
      if c1 != c2 {
        return if Rank(c1) < Rank(c2) then -1 else 1;
      }
      assert a[i..][1..] == a[i + 1..] && b[i..][1..] == b[i + 1..];
      i := i + 1;
    }
    if |a| == |b| {
      return 0;
    }
    return if |a| < |b| then -1 else 1;
  }

  /** The sign of `a.compare(b)` for strings of one length: bytes compare as unsigned. */
  function CompareBytes(a: string, b: string): int
    requires |a| == |b|
  {
    if a == "" then 0
    else if a[0] == b[0] then CompareBytes(a[1..], b[1..])
    else if a[0] < b[0] then -1 else 1
  }

  function StrCmpOptName(a: string, b: string, fallbackCaseSensitive: bool): int {
    var minSize := if |a| < |b| then |a| else |b|;
    var res := CompareInsensitive(a[..minSize], b[..minSize]);
    if res != 0 then res
    else if |a| == |b| then (if fallbackCaseSensitive then CompareBytes(a, b) else 0)
    else if |a| == minSize then 1
    else -1
  }

  /** What `OptNameLess` asks of a table entry's name. */
  predicate NameLess(entry: string, name: string) {
    StrCmpOptName(entry, name, false) < 0
  }

  // ------------------------------------------------------------ the order it is meant to be

  const END_OF_STRING: int := 128

  /** A name as the letters the order is about: case folded, and closed by a letter above all others. */
  function Letters(s: string): (r: seq<int>)
    ensures |r| == |s| + 1
  {
    if s == "" then [END_OF_STRING] else [Rank(ToLower(s[0]))] + Letters(s[1..])
  }

  /** Ordinary lexicographic order. */
  function Lex(x: seq<int>, y: seq<int>): int {
    if x == [] || y == [] then
      if |x| == |y| then 0 else if |x| < |y| then -1 else 1
    else if x[0] == y[0] then Lex(x[1..], y[1..])
    else if x[0] < y[0] then -1 else 1
  }

  lemma {:induction false} LexTransitive(x: seq<int>, y: seq<int>, z: seq<int>)
    requires Lex(x, y) <= 0 && Lex(y, z) <= 0
    ensures Lex(x, z) <= 0
    ensures Lex(x, y) < 0 || Lex(y, z) < 0 ==> Lex(x, z) < 0
  {
    if x != [] && y != [] && z != [] && x[0] == y[0] == z[0] {
      LexTransitive(x[1..], y[1..], z[1..]);
    }
  }

  lemma {:induction false} LexAntisymmetric(x: seq<int>, y: seq<int>)
    ensures Lex(x, y) == -Lex(y, x)
    ensures Lex(x, y) == 0 <==> x == y
  {
    if x != [] && y != [] && x[0] == y[0] {
      LexAntisymmetric(x[1..], y[1..]);
      assert x == [x[0]] + x[1..] && y == [y[0]] + y[1..];
    }
  }

  lemma {:induction false} StrCmpTail(a: string, b: string)
    requires a != "" && b != "" && ToLower(a[0]) == ToLower(b[0])
    ensures StrCmpOptName(a, b, false) == StrCmpOptName(a[1..], b[1..], false)
  {
    var m := if |a| < |b| then |a| else |b|;
    assert a[..m][1..] == a[1..][..m - 1] && b[..m][1..] == b[1..][..m - 1];
  }

  /** Main result on the comparator: ignoring case it is exactly lexicographic order with the end of
      the string as the greatest letter, so options come before those they extend. */
  lemma {:induction false} StrCmpIsLex(a: string, b: string)
    ensures StrCmpOptName(a, b, false) == Lex(Letters(a), Letters(b))
  {
    if a != "" && b != "" {
      if ToLower(a[0]) == ToLower(b[0]) {
        StrCmpTail(a, b);
        StrCmpIsLex(a[1..], b[1..]);
      } else {
        RankInjective(ToLower(a[0]), ToLower(b[0]));
      }
    }
  }

  lemma RankInjective(c: char, d: char)
    ensures Rank(c) == Rank(d) <==> c == d
  {
  }

  lemma {:induction false} LettersEqual(a: string, b: string)
    ensures Letters(a) == Letters(b) <==> EqualInsensitive(a, b)
  {
    if a != "" && b != "" {
      LettersEqual(a[1..], b[1..]);
      RankInjective(ToLower(a[0]), ToLower(b[0]));
      assert Letters(a) == Letters(b) <==> Letters(a)[0] == Letters(b)[0] && Letters(a)[1..] == Letters(b)[1..];
      if EqualInsensitive(a, b) {
        forall i | 0 <= i < |a| - 1 ensures ToLower(a[1..][i]) == ToLower(b[1..][i]) {
          assert ToLower(a[i + 1]) == ToLower(b[i + 1]);
        }
      }
      if ToLower(a[0]) == ToLower(b[0]) && EqualInsensitive(a[1..], b[1..]) {
        forall i | 0 <= i < |a| ensures ToLower(a[i]) == ToLower(b[i]) {
          if i > 0 { assert ToLower(a[1..][i - 1]) == ToLower(b[1..][i - 1]); }
        }
      }
    }
  }

  lemma {:induction false} CompareBytesOrder(a: string, b: string)
    requires |a| == |b|
    ensures CompareBytes(a, b) == -CompareBytes(b, a)
    ensures CompareBytes(a, b) == 0 <==> a == b
  {
    if a != "" && a[0] == b[0] {
      CompareBytesOrder(a[1..], b[1..]);
      assert a == [a[0]] + a[1..] && b == [b[0]] + b[1..];
    }
  }

  lemma {:induction false} CompareBytesTransitive(a: string, b: string, c: string)
    requires |a| == |b| == |c| && CompareBytes(a, b) <= 0 && CompareBytes(b, c) <= 0
    ensures CompareBytes(a, c) <= 0
  {
    if a != "" && a[0] == b[0] == c[0] {
      CompareBytesTransitive(a[1..], b[1..], c[1..]);
    }
  }

  /** Without the case fallback the comparator is a total preorder whose ties are the names that
      differ in case only. */
  lemma TotalPreorder(a: string, b: string, c: string)
    ensures StrCmpOptName(a, b, false) == -StrCmpOptName(b, a, false)
    ensures StrCmpOptName(a, b, false) == 0 <==> EqualInsensitive(a, b)
    ensures StrCmpOptName(a, b, false) <= 0 && StrCmpOptName(b, c, false) <= 0
            ==> StrCmpOptName(a, c, false) <= 0
    ensures StrCmpOptName(a, b, false) <= 0 && StrCmpOptName(b, c, false) < 0
            ==> StrCmpOptName(a, c, false) < 0
  {
    StrCmpIsLex(a, b);
    StrCmpIsLex(b, a);
    StrCmpIsLex(b, c);
    StrCmpIsLex(a, c);
    LexAntisymmetric(Letters(a), Letters(b));
    LettersEqual(a, b);
    if Lex(Letters(a), Letters(b)) <= 0 && Lex(Letters(b), Letters(c)) <= 0 {
      LexTransitive(Letters(a), Letters(b), Letters(c));
    }
  }

  /** With the case fallback it is a total order: only equal names compare equal. */
  lemma TotalOrderWithFallback(a: string, b: string, c: string)
    ensures StrCmpOptName(a, b, true) == -StrCmpOptName(b, a, true)
    ensures StrCmpOptName(a, b, true) == 0 <==> a == b
    ensures StrCmpOptName(a, b, true) <= 0 && StrCmpOptName(b, c, true) <= 0
            ==> StrCmpOptName(a, c, true) <= 0
    ensures StrCmpOptName(a, b, true)
         == if EqualInsensitive(a, b) then Lex(Codes(a), Codes(b)) else Lex(Letters(a), Letters(b))
  {
    FallbackRefines(a, b);
    StrCmpIsLex(a, b);
    if |a| == |b| { CompareBytesIsLex(a, b); }
    FallbackRefines(b, a);
    FallbackRefines(b, c);
    FallbackRefines(a, c);
    TotalPreorder(a, b, c);
    TotalPreorder(b, c, a);
    TotalPreorder(a, c, b);
    if |a| == |b| { CompareBytesOrder(a, b); }
    if |a| == |b| == |c| && CompareBytes(a, b) <= 0 && CompareBytes(b, c) <= 0 {
      CompareBytesTransitive(a, b, c);
    }
  }

  function Codes(s: string): (r: seq<int>)
    ensures |r| == |s| && forall k :: 0 <= k < |s| ==> r[k] == s[k] as int
  {
    seq(|s|, k requires 0 <= k < |s| => s[k] as int)
  }

  /** The fallback orders names that differ in case only by their bytes, as unsigned. */
  lemma {:induction false} CompareBytesIsLex(a: string, b: string)
    requires |a| == |b|
    ensures CompareBytes(a, b) == Lex(Codes(a), Codes(b))
  {
    if a != "" {
      CompareBytesIsLex(a[1..], b[1..]);
      assert Codes(a)[1..] == Codes(a[1..]) && Codes(b)[1..] == Codes(b[1..]);
    }
  }

  lemma FallbackRefines(a: string, b: string)
    ensures StrCmpOptName(a, b, true) ==
            if StrCmpOptName(a, b, false) != 0 then StrCmpOptName(a, b, false)
            else if |a| == |b| then CompareBytes(a, b) else 0
    ensures StrCmpOptName(a, b, false) == 0 ==> |a| == |b|
  {
  }

  /** A name never sorts below a string that starts with it (ignoring case). */
  lemma PrefixNotLess(name: string, text: string)
    requires StartsWithInsensitive(text, name)
    ensures !NameLess(name, text)
    ensures |name| < |text| ==> StrCmpOptName(name, text, false) == 1
  {
    TotalPreorder(name, text[..|name|], text);
    assert name[..|name|] == name;
    assert EqualInsensitive(name, text[..|name|]);
    assert text[..|name|][..|name|] == text[..|name|];
  }

  /** Two prefixes of one text (ignoring case) are ordered by length, the longer one first. */
  lemma LongerPrefixFirst(x: string, y: string, text: string)
    requires StartsWithInsensitive(text, x) && StartsWithInsensitive(text, y)
    requires StrCmpOptName(x, y, false) <= 0
    ensures |x| >= |y|
  {
    if |x| < |y| {
      assert StartsWithInsensitive(y, x) by {
        forall i | 0 <= i < |x| ensures ToLower(y[..|x|][i]) == ToLower(x[i]) {
          assert ToLower(text[..|x|][i]) == ToLower(x[i]);
          assert ToLower(text[..|y|][i]) == ToLower(y[i]);
        }
      }
      PrefixNotLess(x, y);
    }
  }

  // ------------------------------------------------------------ std::lower_bound

  predicate SortedFrom(names: seq<string>, first: nat) {
    forall i, j :: first <= i < j < |names| ==> StrCmpOptName(names[i], names[j], false) <= 0
  }

  /** The first position from `first` on whose name is not below `name`. */
  function LowerBound(names: seq<string>, first: nat, name: string): (r: nat)
    requires first <= |names|
    ensures first <= r <= |names|
    ensures forall i :: first <= i < r ==> NameLess(names[i], name)
    ensures r < |names| ==> !NameLess(names[r], name)
    decreases |names| - first
  {
    if first == |names| || !NameLess(names[first], name) then first
    else LowerBound(names, first + 1, name)
  }

  lemma LowerBoundUnique(names: seq<string>, first: nat, name: string, r: nat)
    requires first <= r <= |names|
    requires forall i :: first <= i < r ==> NameLess(names[i], name)
    requires r < |names| ==> !NameLess(names[r], name)
    ensures r == LowerBound(names, first, name)
  {
  }

  /** The halving loop finds the same place as the linear definition. */
  method LowerBoundSearch(names: seq<string>, first: nat, name: string) returns (r: nat)
    requires first <= |names| && SortedFrom(names, first)
    ensures r == LowerBound(names, first, name)
  {
    r := first;
    var len := |names| - first;
    while len > 0
      invariant first <= r && 0 <= len && r + len <= |names|
      invariant forall i :: first <= i < r ==> NameLess(names[i], name)
      invariant forall i :: r + len <= i < |names| ==> !NameLess(names[i], name)
    {
      var half := len / 2;
      var mid := r + half;
      if NameLess(names[mid], name) {
        forall i | first <= i < mid + 1 ensures NameLess(names[i], name) {
          TotalPreorder(names[i], names[mid], name);
        }
        r, len := mid + 1, len - half - 1;
      } else {
        forall i | mid <= i < |names| ensures !NameLess(names[i], name) {
          TotalPreorder(names[mid], names[i], name);
        }
        len := half;
      }
    }
    LowerBoundUnique(names, first, name, r);
  }
}
