/** Handing the command id to a child process through its environment block
    (src/catter-hook/win/payload/main.cc). */
module WinEnvBlock {
  import opened Util
  import opened NulStrings

  const KEY := "CATTER_RPC_ID"

  predicate IsKeyMatch(entry: string, key: string) {
    && |entry| > |key|
    && entry[|key|] == '='
    && entry[..|key|] == key
  }

  /** A match is an entry that assigns to the key. */
  lemma KeyMatchMeans(entry: string, key: string)
    ensures IsKeyMatch(entry, key) <==> key + "=" <= entry
  {
    if key + "=" <= entry {
      assert entry[..|key| + 1] == key + "=";
      assert entry[..|key|] == (key + "=")[..|key|];
    }
    if IsKeyMatch(entry, key) {
      assert entry[..|key| + 1] == entry[..|key|] + [entry[|key|]];
    }
  }

  predicate HasKey(entries: seq<string>) {
    exists k :: 0 <= k < |entries| && IsKeyMatch(entries[k], KEY)
  }

  /** The environment a child is meant to get. */
  function Fixed(entries: seq<string>, idEntry: string): seq<string> {
    if HasKey(entries) then entries else entries + [idEntry]
  }

  function IdEntry(id: string): string { KEY + "=" + id }

  /** Whatever lies behind the block, the result is the block of the entries in order, with the id entry
      added exactly when no entry assigned to the key. */
  method FixEnvBlock(memory: string, idEntry: string, ghost entries: seq<string>, ghost beyond: string)
    returns (result: string)
    requires AllStorable(entries) && memory == Memory(entries) + beyond
    ensures result == Memory(Fixed(entries, idEntry))
  {
    result := "";
    var found := false;
    var current := 0;
    ghost var k := 0;
    StartsAt(memory, entries, beyond);
    while memory[current] != '\0'
      invariant At(memory, entries, beyond, current, k, result, found)
      decreases |memory| - current
    {
      current, result, found := CopyEntry(memory, current, result, found, entries, beyond, k);
      k := k + 1;
    }
    Closes(memory, entries, beyond, current, k, result, found, idEntry);
    if !found {
      result := result + (idEntry + "\0");
    }
    result := result + "\0";
  }

  lemma Closes(memory: string, entries: seq<string>, beyond: string, current: nat, k: nat, result: string, found: bool,
               idEntry: string)
    requires AllStorable(entries) && At(memory, entries, beyond, current, k, result, found) && memory[current] == '\0'
    ensures (if found then result else result + (idEntry + "\0")) + "\0" == Memory(Fixed(entries, idEntry))
  {
    LastEntry(memory, entries, beyond, current, k);
    ClosedSnoc(entries, idEntry);
    ConcatAssoc(result, idEntry, "\0");
    MemoryIsClosed(Fixed(entries, idEntry));
  }

  /** One round: copies the entry at `current` with its NUL and looks at its key. */
  method CopyEntry(memory: string, current: nat, result: string, found: bool,
                   ghost entries: seq<string>, ghost beyond: string, ghost k: nat)
    returns (next: nat, copied: string, seen: bool)
    requires AllStorable(entries) && At(memory, entries, beyond, current, k, result, found) && memory[current] != '\0'
    ensures At(memory, entries, beyond, next, k + 1, copied, seen) && next > current
  {
    MovesOn(memory, entries, beyond, current, k, result, found);
    var n := StrLen(memory[current..]);
    var sv := memory[current..current + n];
    next, copied, seen := current + n + 1, result + (sv + "\0"), found;
    if IsKeyMatch(sv, KEY) {
      seen := true;
    }
  }

  /** The walk stands at entry `k`, with the entries before it copied and looked at. */
  predicate At(memory: string, entries: seq<string>, beyond: string, current: nat,
               k: nat, result: string, found: bool) {
    && k <= |entries| && current < |memory|
    && memory[current..] == Memory(entries[k..]) + beyond
    && result == Closed(entries[..k])
    && found == HasKey(entries[..k])
  }

  lemma StartsAt(memory: string, entries: seq<string>, beyond: string)
    requires memory == Memory(entries) + beyond
    ensures At(memory, entries, beyond, 0, 0, "", false)
  {
    assert entries[0..] == entries && memory[0..] == memory;
  }

  lemma EntryAt(memory: string, entries: seq<string>, beyond: string, current: nat, k: nat)
    requires AllStorable(entries) && k <= |entries| && current < |memory| && memory[current] != '\0'
    requires memory[current..] == Memory(entries[k..]) + beyond
    ensures k < |entries|
    ensures var n := StrLen(memory[current..]);
            && n == |entries[k]|
            && current + n + 1 < |memory|
            && memory[current..current + n] == entries[k]
            && memory[current + n + 1..] == Memory(entries[k + 1..]) + beyond
  {
    var here := memory[current..];
    assert here[0] == memory[current];
    var s, tail := entries[k], Memory(entries[k + 1..]) + beyond;
    assert entries[k..][1..] == entries[k + 1..];
    assert here == s + ("\0" + tail);
    assert Storable(entries[k]);
    StrLenOf(s, tail);
    assert memory[current..current + |s|] == here[..|s|] == s;
    assert memory[current + |s| + 1..] == here[|s| + 1..] == tail;
  }

  lemma MovesOn(memory: string, entries: seq<string>, beyond: string, current: nat, k: nat, result: string, found: bool)
    requires AllStorable(entries) && At(memory, entries, beyond, current, k, result, found) && memory[current] != '\0'
    ensures var n := StrLen(memory[current..]);
            && current + n + 1 < |memory|
            && var sv := memory[current..current + n];
               At(memory, entries, beyond, current + n + 1, k + 1, result + (sv + "\0"), found || IsKeyMatch(sv, KEY))
  {
    EntryAt(memory, entries, beyond, current, k);
    assert entries[..k + 1] == entries[..k] + [entries[k]];
    ClosedSnoc(entries[..k], entries[k]);
    ConcatAssoc(result, entries[k], "\0");
    KeyGrows(entries, k);
  }

  lemma KeyGrows(entries: seq<string>, k: nat)
    requires k < |entries|
    ensures HasKey(entries[..k + 1]) == (HasKey(entries[..k]) || IsKeyMatch(entries[k], KEY))
  {
    var longer, shorter := entries[..k + 1], entries[..k];
    if HasKey(longer) {
      var j :| 0 <= j <= k && IsKeyMatch(longer[j], KEY);
      if j < k { assert shorter[j] == longer[j]; }
    }
    if HasKey(shorter) {
      var j :| 0 <= j < k && IsKeyMatch(shorter[j], KEY);
      assert longer[j] == shorter[j];
    }
    if IsKeyMatch(entries[k], KEY) { assert longer[k] == entries[k]; }
  }

  lemma LastEntry(memory: string, entries: seq<string>, beyond: string, current: nat, k: nat)
    requires AllStorable(entries) && k <= |entries| && current < |memory| && memory[current] == '\0'
    requires memory[current..] == Memory(entries[k..]) + beyond
    ensures k == |entries| && entries[..k] == entries
  {
    assert memory[current..][0] == '\0';
    MemoryHead(entries[k..], beyond);
  }

  lemma MemoryHead(entries: seq<string>, beyond: string)
    requires AllStorable(entries)
    ensures |Memory(entries)| > 0
    ensures (Memory(entries) + beyond)[0] == '\0' <==> entries == []
  {
    if entries != [] {
      assert Storable(entries[0]);
      assert (Memory(entries) + beyond)[0] == entries[0][0];
    }
  }

  /** Main result: what the child reads from the result. */
  lemma FixedReadsBack(entries: seq<string>, id: string)
    requires AllStorable(entries) && forall i :: 0 <= i < |id| ==> id[i] != '\0'
    ensures Strings(Memory(Fixed(entries, IdEntry(id)))) == Fixed(entries, IdEntry(id))
    ensures HasKey(Fixed(entries, IdEntry(id)))
    ensures entries <= Fixed(entries, IdEntry(id))
    ensures |Fixed(entries, IdEntry(id))| == |entries| + 1 <==>
              forall k :: 0 <= k < |entries| ==> !(KEY + "=" <= entries[k])
    ensures var f := Fixed(entries, IdEntry(id));
      |f| == |entries| || f == entries + ["CATTER_RPC_ID=" + id]
  {
    var e := IdEntry(id);
    forall k | 0 <= k < |entries| ensures IsKeyMatch(entries[k], KEY) <==> KEY + "=" <= entries[k] {
      KeyMatchMeans(entries[k], KEY);
    }
    KeyMatchMeans(e, KEY);
    assert KEY + "=" <= e;
    assert KEY + "=" == "CATTER_RPC_ID=";
    var f := Fixed(entries, e);
    if !HasKey(entries) { assert IsKeyMatch(f[|entries|], KEY); }
    forall k | 0 <= k < |f| ensures Storable(f[k]) {
      if k < |entries| { assert f[k] == entries[k]; } else { assert f[k] == e; }
    }
    RoundTrip(f, "");
    assert Memory(f) + "" == Memory(f);
  }

  /** A second pass changes nothing, whichever id it brings. */
  lemma FixedTwice(entries: seq<string>, id: string, other: string)
    requires AllStorable(entries) && forall i :: 0 <= i < |id| ==> id[i] != '\0'
    ensures Fixed(Fixed(entries, IdEntry(id)), IdEntry(other)) == Fixed(entries, IdEntry(id))
  {
    FixedReadsBack(entries, id);
  }
}
