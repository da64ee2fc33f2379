/** The hook's own copying loops, for a process in which nothing may allocate
    (src/catter-hook/linux-mac/payload/array.h, buffer.cc). */
module PayloadArray {
  import opened Util
  import opened NulStrings

  const PATH_MAX: nat := 4096

  /** A string as C holds it: no NUL but the one that ends it. */
  predicate CString(s: string) { forall i :: 0 <= i < |s| ==> s[i] != '\0' }

  lemma CStringEnds(s: string)
    requires CString(s)
    ensures StrLen(s + "\0") == |s|
  {
    StrLenOf(s, "");
    assert s + ("\0" + "") == s + "\0";
  }

  lemma StringAt(rest: string, s: string)
    requires CString(s) && |s| < |rest| && rest[..|s| + 1] == s + "\0"
    ensures rest[..StrLen(rest)] == s
  {
    assert rest == rest[..|s| + 1] + rest[|s| + 1..];
    ConcatAssoc(s, "\0", rest[|s| + 1..]);
    StrLenOf(s, rest[|s| + 1..]);
  }

  /** `array::end`: where the NUL is, or null for null. */
  method End(it: Option<string>) returns (n: Option<nat>)
    requires it.Some? ==> StrLen(it.value) < |it.value|
    ensures n == if it.Some? then Some(StrLen(it.value)) else None
  {
    if it == None {
      return None;
    }
    var memory, i := it.value, 0;
    assert memory[0..] == memory;
    while memory[i] != '\0'
      invariant i <= |memory| && i + StrLen(memory[i..]) == StrLen(memory)
      decreases |memory| - i
    {
      assert memory[i..][1..] == memory[i + 1..];
      i := i + 1;
    }
    n := Some(i);
  }

  /** `array::copy`, into `dst[dstBegin..dstEnd]`: past the last element copied, or null if they did not all fit. */
  method Copy<T>(src: seq<T>, dst: array<T>, dstBegin: nat, dstEnd: nat) returns (end: Option<nat>)
    requires dstBegin <= dstEnd <= dst.Length
    modifies dst
    ensures end == if |src| <= dstEnd - dstBegin then Some(dstBegin + |src|) else None
    ensures end.Some? ==> dst[dstBegin..end.value] == src
    ensures dst[..dstBegin] == old(dst[..dstBegin]) && dst[dstEnd..] == old(dst[dstEnd..])
    ensures end.Some? ==> dst[end.value..] == old(dst[dstBegin + |src|..])
    ensures end.None? ==> dst[dstBegin..dstEnd] == src[..dstEnd - dstBegin]
  {
    var i, j := 0, dstBegin;
    while i != |src| && j != dstEnd
      invariant i <= |src| && j == dstBegin + i && j <= dstEnd
      invariant dst[..dstBegin] == old(dst[..dstBegin])
      invariant forall k :: dstBegin <= k < j ==> dst[k] == src[k - dstBegin]
      invariant forall k :: j <= k < dst.Length ==> dst[k] == old(dst[k])
      decreases |src| - i
    {
      dst[j] := src[i];
      i, j := i + 1, j + 1;
    }
    end := if i == |src| then Some(j) else None;
  }

  /** `array::equal_n`. */
  method EqualN<T(==)>(lhs: seq<T>, rhs: seq<T>, length: nat) returns (equal: bool)
    requires length <= |lhs| && length <= |rhs|
    ensures equal <==> lhs[..length] == rhs[..length]
  {
    for i := 0 to length
      invariant lhs[..i] == rhs[..i]
    {
      if lhs[i] != rhs[i] {
        assert lhs[..length][i] != rhs[..length][i];
        return false;
      }
      assert lhs[..i + 1] == lhs[..i] + [lhs[i]] && rhs[..i + 1] == rhs[..i] + [rhs[i]];
    }
    return true;
  }

  /** Room in `area[..end]` from `top` on. A copy that fails may have written there, but `top` stays. */
  class Buffer {
    const area: array<char>
    const end: nat
    var top: nat

    ghost predicate Valid()
      reads this
    {
      top <= end <= area.Length
    }

    constructor (area: array<char>, begin: nat, end: nat)
      requires begin <= end <= area.Length
      ensures Valid() && this.area == area && top == begin && this.end == end
    {
      this.area, this.end, top := area, end, begin;
    }

    /** Puts the string with its NUL; where it lies, or null: for null, and when there is no room. */
    method Store(input: Option<string>) returns (stored: Option<nat>)
      requires Valid() && (input.Some? ==> CString(input.value))
      modifies this, area
      ensures Valid()
      ensures area[..old(top)] == old(area[..top])
      ensures if input.Some? && |input.value| < end - old(top) then
          && stored == Some(old(top)) && top == old(top) + |input.value| + 1
          && area[old(top)..top] == input.value + "\0"
        else stored == None && top == old(top)
    {
      if input == None {
        return None;
      }
      CStringEnds(input.value);
      var memory := input.value + "\0";
      var n := End(Some(memory));
      assert memory[..n.value + 1] == memory;
      var copied := Copy(memory[..n.value + 1], area, top, end);
      if copied.Some? {
        stored := Some(top);
        top := copied.value;
      } else {
        stored := None;
      }
    }

    /** Puts the string without a NUL. */
    method Push(input: Option<string>) returns (ok: bool)
      requires Valid() && (input.Some? ==> CString(input.value))
      modifies this, area
      ensures Valid()
      ensures area[..old(top)] == old(area[..top])
      ensures ok == (input.Some? && |input.value| <= end - old(top))
      ensures if ok then top == old(top) + |input.value| && area[old(top)..top] == input.value else top == old(top)
    {
      if input == None {
        return false;
      }
      CStringEnds(input.value);
      var memory := input.value + "\0";
      var n := End(Some(memory));
      assert memory[..n.value] == input.value;
      var copied := Copy(memory[..n.value], area, top, end);
      if copied.Some? {
        top := copied.value;
      }
      ok := copied.Some?;
    }
  }
}
