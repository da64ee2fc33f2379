/** Lists of strings in one stretch of memory: each closed by NUL, the list closed by one more NUL. Alias
    arguments (src/common/option/option.cc) and environment blocks (src/catter-hook/win/payload/main.cc)
    are kept this way. */
module NulStrings {

  /** `strlen`: the position of the first NUL. */
  function StrLen(memory: string): (n: nat)
    ensures n <= |memory|
    ensures n < |memory| ==> memory[n] == '\0'
    ensures forall i :: 0 <= i < n ==> memory[i] != '\0'
  {
    if memory == "" || memory[0] == '\0' then 0 else 1 + StrLen(memory[1..])
  }

  /** The strings that lie one after another, up to an empty one. */
  function Strings(memory: string): seq<string> {
    var n := StrLen(memory);
    if n == 0 || n == |memory| then [] else [memory[..n]] + Strings(memory[n + 1..])
  }

  function Memory(strings: seq<string>): string {
    if strings == [] then "\0" else strings[0] + ("\0" + Memory(strings[1..]))
  }

  predicate Storable(s: string) {
    s != "" && forall i :: 0 <= i < |s| ==> s[i] != '\0'
  }

  predicate AllStorable(strings: seq<string>) {
    forall k :: 0 <= k < |strings| ==> Storable(strings[k])
  }

  lemma StrLenOf(s: string, tail: string)
    requires forall i :: 0 <= i < |s| ==> s[i] != '\0'
    ensures StrLen(s + ("\0" + tail)) == |s|
  {
    var memory := s + ("\0" + tail);
    assert memory[|s|] == '\0';
    assert forall i :: 0 <= i < |s| ==> memory[i] == s[i];
  }

  /** Reading back gives what was written, whatever lies behind it. */
  lemma {:induction false} RoundTrip(strings: seq<string>, beyond: string)
    requires AllStorable(strings)
    ensures Strings(Memory(strings) + beyond) == strings
  {
    if strings == [] {
      assert (Memory(strings) + beyond)[0] == '\0';
    } else {
      var s, tail := strings[0], Memory(strings[1..]) + beyond;
      assert Memory(strings) + beyond == s + ("\0" + tail);
      var memory := s + ("\0" + tail);
      StrLenOf(s, tail);
      assert Storable(strings[0]);
      assert memory[..|s|] == s && memory[|s| + 1..] == tail;
      RoundTrip(strings[1..], beyond);
    }
  }

  /** The strings with their NULs, without the closing one. */
  function Closed(strings: seq<string>): string {
    if strings == [] then "" else strings[0] + "\0" + Closed(strings[1..])
  }

  lemma {:induction false} MemoryIsClosed(strings: seq<string>)
    ensures Memory(strings) == Closed(strings) + "\0"
  {
    if strings != [] {
      MemoryIsClosed(strings[1..]);
      assert Memory(strings) == strings[0] + ("\0" + (Closed(strings[1..]) + "\0"));
    }
  }

  lemma {:induction false} ClosedSnoc(strings: seq<string>, s: string)
    ensures Closed(strings + [s]) == Closed(strings) + s + "\0"
  {
    if strings == [] {
      assert strings + [s] == [s];
      assert [s][1..] == [];
    } else {
      assert (strings + [s])[1..] == strings[1..] + [s];
      ClosedSnoc(strings[1..], s);
      assert Closed(strings + [s]) == strings[0] + "\0" + (Closed(strings[1..]) + s + "\0");
    }
  }
}
