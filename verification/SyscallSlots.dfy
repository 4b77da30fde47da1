/** Installing handlers in claimed slots, giving the slots back, and agreement
    with the free entries that the discoverer publishes to user space. */
module SyscallSlots {
  import opened KernelTypes
  import opened Tokens
  import Decimal
  import opened SyscallTable

  // -------------------------------------------------------- install and unload

  ghost predicate SlotsOk(t: seq<int>, slots: seq<int>) {
    && (forall k :: 0 <= k < |slots| ==> 0 <= slots[k] < |t|)
    && (forall k, l :: 0 <= k < l < |slots| ==> slots[k] != slots[l])
  }

  method Install(table: array<int>, slots: seq<int>, handlers: seq<int>)
    requires SlotsOk(table[..], slots) && |handlers| == |slots|
    modifies table
    ensures forall k :: 0 <= k < |slots| ==> table[slots[k]] == handlers[k]
    ensures forall i :: 0 <= i < table.Length && i !in slots ==> table[i] == old(table[i])
  {
    for k := 0 to |slots|
      invariant forall l :: 0 <= l < k ==> table[slots[l]] == handlers[l]
      invariant forall i :: 0 <= i < table.Length && i !in slots ==> table[i] == old(table[i])
    {
      table[slots[k]] := handlers[k];
    }
  }

  method Unload(table: array<int>, slots: seq<int>, niSyscall: int)
    requires SlotsOk(table[..], slots)
    modifies table
    ensures forall k :: 0 <= k < |slots| ==> table[slots[k]] == niSyscall
    ensures forall i :: 0 <= i < table.Length && i !in slots ==> table[i] == old(table[i])
  {
    for k := 0 to |slots|
      invariant forall l :: 0 <= l < k ==> table[slots[l]] == niSyscall
      invariant forall i :: 0 <= i < table.Length && i !in slots ==> table[i] == old(table[i])
    {
      table[slots[k]] := niSyscall;
    }
  }

  /** Claimed entries are places of one value, in increasing order. */
  lemma FirstEntriesAreSlots(t: seq<int>, n: nat, entries: seq<int>, v: int)
    requires FirstEntries(t, n, entries, v)
    ensures SlotsOk(t, entries) && forall k :: 0 <= k < |entries| ==> t[entries[k]] == v
    ensures forall k, l :: 0 <= k < l < |entries| ==> entries[k] < entries[l]
  {
  }

  /** Loading the module, whatever the handlers, and unloading it leaves the
      table exactly as it was. */
  method LoadAndUnload(table: array<int>, handlers: seq<int>) returns (loaded: bool)
    requires table.Length == TABLE && |handlers| == 3
    modifies table
    ensures table[..] == old(table[..])
    ensures loaded <==> HasEntries(old(table[..]), 3)
  {
    ghost var t := table[..];
    var ret, slots, ni := GetEntries(table, |handlers|);
    loaded := ret == |handlers|;
    if loaded {
      FirstEntriesAreSlots(t, 3, slots, ni);
      Install(table, slots, handlers);
      Unload(table, slots, ni);
      forall i | 0 <= i < TABLE ensures table[i] == t[i] {
        if i in slots { var k :| 0 <= k < |slots| && slots[k] == i; }
      }
      assert table[..] == t;
    }
  }

  // ---------------------------------------------------------------- discoverer

  /** The pattern a table has to show; entry 0 is not looked at. */
  predicate Accepted(t: seq<int>)
    requires |t| == TABLE
  {
    var ni := t[134];
    && ni % 4 == 0 && ni != 0 && ni > 0xffffffff00000000
    && ni == t[174] == t[182] == t[183] == t[214] == t[215] == t[236]
    && forall i :: 1 <= i < 134 ==> t[i] != ni
  }

  const KNOWN: seq<nat> := [134, 174, 182, 183, 214, 215, 236]

  /** A table is accepted if and only if its entry 134 is an aligned kernel address
      that also stands at the six other known places and, entry 0 apart, nowhere
      before its own. */
  lemma AcceptedIff(t: seq<int>)
    requires |t| == TABLE
    ensures Accepted(t) <==>
            && t[134] % 4 == 0 && t[134] > 0xffffffff00000000
            && (forall k :: 0 <= k < |KNOWN| ==> KNOWN[k] in Occurrences(t, t[134]))
            && (forall o :: o in Occurrences(t, t[134]) ==> o == 0 || o >= 134)
  {
    var o := Occurrences(t, t[134]);
    forall i: nat | i < TABLE ensures i in o <==> t[i] == t[134] {
      if t[i] == t[134] { OccurrencesAll(t, t[134], i); }
    }
    assert KNOWN[0] == 134 && KNOWN[1] == 174 && KNOWN[2] == 182 && KNOWN[3] == 183;
    assert KNOWN[4] == 214 && KNOWN[5] == 215 && KNOWN[6] == 236;
  }

  method GoodArea(t: array<int>) returns (good: bool)
    requires t.Length == TABLE
    ensures good <==> forall i :: 1 <= i < 134 ==> t[i] != t[134]
  {
    for i := 1 to 134
      invariant forall k :: 1 <= k < i ==> t[k] != t[134]
    {
      if t[i] == t[134] { return false; }
    }
    return true;
  }

  method ValidateTable(t: array<int>) returns (ok: bool)
    requires t.Length == TABLE
    ensures ok <==> Accepted(t[..])
  {
    var ni := t[134];
    ok := false;
    if ni % 4 == 0 && ni != 0 && ni > 0xffffffff00000000
      && ni == t[174] && ni == t[182] && ni == t[183] && ni == t[214] && ni == t[215] && ni == t[236]
    {
      ok := GoodArea(t);
    }
  }

  /** Collects the first places of the not-implemented address, fifteen at most. */
  method FreeEntries(t: array<int>, ni: int) returns (entries: seq<int>)
    requires t.Length == TABLE
    ensures entries == Take(Occurrences(t[..], ni), MAX_FREE)
  {
    entries := [];
    var i := 0;
    ghost var s := t[..];
    while i < TABLE && |entries| < MAX_FREE
      invariant 0 <= i <= TABLE && |entries| <= MAX_FREE
      invariant entries == Take(Occurrences(s[..i], ni), MAX_FREE)
    {
      TakeStep(s, ni, i, MAX_FREE);
      if t[i] == ni {
        entries := entries + [i];
      }
      i := i + 1;
    }
    TakeEnough(s, ni, i, MAX_FREE);
  }

  /** An accepted table has at least three places of its address. */
  lemma AcceptedHasThree(t: seq<int>)
    requires |t| == TABLE && Accepted(t)
    ensures |Occurrences(t, t[134])| >= 3
  {
    var o := Occurrences(t, t[134]);
    OccurrencesAll(t, t[134], 134);
    OccurrencesAll(t, t[134], 174);
    OccurrencesAll(t, t[134], 182);
  }

  ghost predicate NiRepeatsFirst(t: seq<int>, ni: int) {
    exists i: nat :: IsFirstRepeat(t, i) && t[i] == ni
  }

  /** On an accepted table the first three published entries are the slots that
      get claimed if and only if the not-implemented address is the first value
      that repeats. */
  lemma PublishedAreClaimedIff(t: seq<int>, published: seq<int>)
    requires |t| == TABLE && Accepted(t) && published == Take(Occurrences(t, t[134]), MAX_FREE)
    ensures |published| >= 3
    ensures (exists v :: FirstEntries(t, 3, published[..3], v)) <==> NiRepeatsFirst(t, t[134])
  {
    AcceptedHasThree(t);
    var ni := t[134];
    assert published[..3] == Take(Occurrences(t, ni), 3);
    if NiRepeatsFirst(t, ni) {
      assert FirstEntries(t, 3, published[..3], ni);
    }
    if v :| FirstEntries(t, 3, published[..3], v) {
      assert t[published[0]] == ni;
      FirstEntriesAreSlots(t, 3, published[..3], v);
      assert published[..3][0] == published[0];
      assert v == ni;
    }
  }

  // -------------------------------------------------------------- user space

  function Digits(entries: seq<int>): seq<string>
    requires forall k :: 0 <= k < |entries| ==> entries[k] >= 0
  {
    seq(|entries|, k requires 0 <= k < |entries| => Decimal.NatStr(entries[k]))
  }

  /** The parameter file: the numbers with commas between them, and a newline. */
  function ParameterText(entries: seq<int>): string
    requires |entries| >= 1 && forall k :: 0 <= k < |entries| ==> entries[k] >= 0
  {
    Join(Digits(entries), ',') + "\n"
  }

  /** The published array has a fixed size; what was not found stays zero. */
  function Filled(entries: seq<int>): (r: seq<int>)
    requires |entries| <= MAX_FREE && forall k :: 0 <= k < |entries| ==> entries[k] >= 0
    ensures |r| == MAX_FREE && entries <= r && forall k :: 0 <= k < |r| ==> r[k] >= 0
  {
    entries + seq(MAX_FREE - |entries|, _ => 0)
  }

  /** The library's cache of the three call numbers. */
  class CallNumbers {
    var cache: seq<int>
    var empty: bool

    constructor ()
      ensures empty && cache == [0, 0, 0]
    {
      cache, empty := [0, 0, 0], true;
    }

    /** Reads the parameter file once and answers from the cache ever after. */
    method Number(call: int, file: Option<string>) returns (r: int)
      requires |cache| == 3
      modifies this
      ensures |cache| == 3
      ensures call < 0 || call > 2 ==> r == -1 && cache == old(cache) && empty == old(empty)
      ensures 0 <= call <= 2 && old(empty) && file.None? ==> r == 1 && empty
      ensures 0 <= call <= 2 && (file.Some? || !old(empty)) ==> r == cache[call] && !empty
      ensures !old(empty) ==> cache == old(cache)
      ensures 0 <= call <= 2 && old(empty) && file.Some? ==>
                var tokens := StrTok(file.value, ',');
                forall k :: 0 <= k < 3 && k < |tokens| ==> cache[k] == Decimal.Atoi(tokens[k])
    {
      if call < 0 || call > 2 { return -1; }
      if empty {
        if file.None? { return 1; }
        var tokens := StrTok(file.value, ',');
        var count := 0;
        while count < |tokens| && count < 3
          invariant 0 <= count <= 3 && |cache| == 3 && empty == old(empty)
          invariant forall k :: 0 <= k < count ==> k < |tokens| && cache[k] == Decimal.Atoi(tokens[k])
        {
          cache := cache[count := Decimal.Atoi(tokens[count])];
          count := count + 1;
        }
        empty := false;
      }
      return cache[call];
    }
  }

  lemma DigitsLackComma(entries: seq<int>)
    requires forall k :: 0 <= k < |entries| ==> entries[k] >= 0
    ensures forall k :: 0 <= k < |entries| ==> ',' !in Digits(entries)[k]
  {
  }

  /** The tokens of the parameter file: the numbers, the last with the newline. */
  lemma ParameterTokens(entries: seq<int>)
    requires |entries| >= 1 && forall i :: 0 <= i < |entries| ==> entries[i] >= 0
    ensures StrTok(ParameterText(entries), ',') == Extend(Digits(entries), "\n")
  {
    var parts := Digits(entries);
    DigitsLackComma(entries);
    SplitJoin(parts, ',');
    SplitExtend(Join(parts, ','), "\n", ',');
    NonEmptyAll(Extend(parts, "\n"));
  }

  /** Each number reads back from the parameter file. */
  lemma ParameterRoundTrip(entries: seq<int>, k: nat)
    requires forall i :: 0 <= i < |entries| ==> entries[i] >= 0
    requires k < |entries|
    ensures |StrTok(ParameterText(entries), ',')| == |entries|
    ensures Decimal.Atoi(StrTok(ParameterText(entries), ',')[k]) == entries[k]
  {
    ParameterTokens(entries);
    var parts := Digits(entries);
    Decimal.AtoiReads(entries[k], "\n");
    Decimal.AtoiReads(entries[k], "");
    assert parts[k] + "" == parts[k];
  }

  /** Publishes the free entries and claims and fills slots: on every accepted
      table whose not-implemented address is the first repeated value, the first
      three published entries hold the three handlers. */
  method PublishAndInstall(table: array<int>, handlers: seq<int>) returns (published: seq<int>)
    requires table.Length == TABLE && |handlers| == 3
    requires Accepted(table[..]) && NiRepeatsFirst(table[..], table[134])
    modifies table
    ensures 3 <= |published| <= MAX_FREE && forall k :: 0 <= k < |published| ==> 0 <= published[k] < TABLE
    ensures forall c :: 0 <= c < 3 ==> table[published[c]] == handlers[c]
  {
    ghost var t := table[..];
    published := FreeEntries(table, table[134]);
    var ret, slots, ni := GetEntries(table, 3);
    ClaimedArePublished(t, published, ret, slots, ni);
    Install(table, slots, handlers);
    forall c | 0 <= c < 3 ensures table[published[c]] == handlers[c] {
      assert slots[c] == published[c];
    }
  }

  /** From there on, looking a call up in the parameter file and calling that
      number reaches the call's own handler. */
  method CallReachesHandler(table: array<int>, handlers: seq<int>, numbers: CallNumbers, c: nat)
    returns (number: int)
    requires table.Length == TABLE && |handlers| == 3 && c < 3
    requires Accepted(table[..]) && NiRepeatsFirst(table[..], table[134])
    requires |numbers.cache| == 3 && numbers.empty
    modifies table, numbers
    ensures 0 <= number < TABLE && table[number] == handlers[c]
  {
    var published := PublishAndInstall(table, handlers);
    var text := ParameterText(Filled(published));
    ParameterRoundTrip(Filled(published), c);
    number := numbers.Number(c, Some(text));
  }

  lemma ClaimedArePublished(t: seq<int>, published: seq<int>, ret: int, slots: seq<int>, ni: int)
    requires |t| == TABLE && Accepted(t) && NiRepeatsFirst(t, t[134])
    requires published == Take(Occurrences(t, t[134]), MAX_FREE)
    requires ret > 0 <==> HasEntries(t, 3)
    requires ret > 0 ==> FirstEntries(t, 3, slots, ni)
    ensures ret > 0 && |published| >= 3 && slots == published[..3]
    ensures SlotsOk(t, slots) && |published| <= MAX_FREE
    ensures forall k :: 0 <= k < |published| ==> 0 <= published[k] < TABLE
  {
    AcceptedHasThree(t);
    var i: nat :| IsFirstRepeat(t, i) && t[i] == t[134];
    assert HasEntries(t, 3);
    var o: nat :| IsFirstRepeat(t, o) && ni == t[o] && IsTaken(t, ni, 3, slots);
    FirstRepeatUnique(t, i, o);
    FirstEntriesAreSlots(t, 3, slots, ni);
  }
}
