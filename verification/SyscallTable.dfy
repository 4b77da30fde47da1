/** Claiming system-call slots: the search for free table entries, their
    installation and release, the independent discovery of the same entries,
    and the numbers user space reads. */
module SyscallTable {
  const TABLE := 256
  const MAX_ACQUIRES := 4
  const MAX_FREE := 15

  // --------------------------------------------------------------- occurrences

  /** The indices at which a value stands, in increasing order. */
  function Occurrences(t: seq<int>, v: int): (o: seq<nat>)
    ensures |o| <= |t|
    ensures forall k :: 0 <= k < |o| ==> o[k] < |t| && t[o[k]] == v
    ensures forall k, l :: 0 <= k < l < |o| ==> o[k] < o[l]
  {
    if t == [] then []
    else
      var o := Occurrences(t[..|t| - 1], v);
      if t[|t| - 1] == v then o + [|t| - 1] else o
  }

  lemma {:induction false} OccurrencesAll(t: seq<int>, v: int, i: nat)
    requires i < |t| && t[i] == v
    ensures i in Occurrences(t, v)
    decreases |t|
  {
    if i < |t| - 1 { OccurrencesAll(t[..|t| - 1], v, i); }
  }

  /** More of the table only adds occurrences behind those known. */
  lemma {:induction false} OccurrencesGrow(t: seq<int>, v: int, k: nat)
    requires k <= |t|
    ensures Occurrences(t[..k], v) <= Occurrences(t, v)
    decreases |t|
  {
    if k < |t| {
      var front := t[..|t| - 1];
      assert front[..k] == t[..k];
      OccurrencesGrow(front, v, k);
    } else {
      assert t[..k] == t;
    }
  }

  lemma OccurrencesStep(t: seq<int>, v: int, k: nat)
    requires k < |t|
    ensures Occurrences(t[..k + 1], v) == Occurrences(t[..k], v) + if t[k] == v then [k] else []
  {
    assert t[..k + 1][..k] == t[..k];
  }

  lemma {:induction false} OccurrencesNone(t: seq<int>, v: int)
    requires v !in t
    ensures Occurrences(t, v) == []
    decreases |t|
  {
    if t != [] { OccurrencesNone(t[..|t| - 1], v); }
  }

  function Take<T>(s: seq<T>, n: nat): seq<T> {
    if |s| <= n then s else s[..n]
  }

  /** Entry `i` is the first whose value stands again further on. */
  ghost predicate IsFirstRepeat(t: seq<int>, i: nat) {
    && i < |t|
    && (exists z :: i < z < |t| && t[z] == t[i])
    && (forall a, b :: 0 <= a < i && a < b < |t| ==> t[a] != t[b])
  }

  ghost predicate NoRepeat(t: seq<int>) {
    forall a, b :: 0 <= a < b < |t| ==> t[a] != t[b]
  }

  lemma FirstRepeatUnique(t: seq<int>, i: nat, j: nat)
    requires IsFirstRepeat(t, i) && IsFirstRepeat(t, j)
    ensures i == j
  {
    var y :| i < y < |t| && t[y] == t[i];
    var z :| j < z < |t| && t[z] == t[j];
  }

  lemma {:induction false} FirstRepeatExists(t: seq<int>, lo: nat) returns (i: nat)
    requires lo < |t| && forall a, b :: 0 <= a < lo && a < b < |t| ==> t[a] != t[b]
    requires !NoRepeat(t)
    ensures IsFirstRepeat(t, i)
    decreases |t| - lo
  {
    i := lo;
    if !exists z :: lo < z < |t| && t[z] == t[lo] {
      i := FirstRepeatExists(t, lo + 1);
    }
  }

  // --------------------------------------------------------------- get_entries

  /** Fills the rest of the acquired slots from index `from` on. */
  method AcquireRest(p: array<int>, v: int, from: nat, n: nat, restore: array<int>, start: nat) returns (j: nat)
    requires p.Length == TABLE && from <= TABLE && restore.Length == MAX_ACQUIRES && n <= MAX_ACQUIRES && start <= n
    requires restore[..start] == Take(Occurrences(p[..from], v), n)
    modifies restore
    ensures j <= n && restore[..j] == Take(Occurrences(p[..], v), n)
  {
    j := start;
    var k := from;
    ghost var t := p[..];
    assert t[..from] == p[..from];
    while k < TABLE && j < n
      invariant from <= k <= TABLE && j <= n
      invariant restore[..j] == Take(Occurrences(t[..k], v), n)
    {
      TakeStep(t, v, k, n);
      if p[k] == v {
        restore[j] := k;
        j := j + 1;
        assert restore[..j] == restore[..j - 1] + [k];
      }
      k := k + 1;
    }
    TakeEnough(t, v, k, n);
  }

  /** While fewer than `n` are taken, the next occurrence is taken too. */
  lemma TakeStep(t: seq<int>, v: int, k: nat, n: nat)
    requires k < |t| && |Take(Occurrences(t[..k], v), n)| < n
    ensures Take(Occurrences(t[..k + 1], v), n) == Take(Occurrences(t[..k], v), n) + if t[k] == v then [k] else []
  {
    OccurrencesStep(t, v, k);
  }

  /** Once `n` are taken, or the table is at its end, nothing changes any more. */
  lemma TakeEnough(t: seq<int>, v: int, k: nat, n: nat)
    requires k <= |t| && (k == |t| || |Take(Occurrences(t[..k], v), n)| == n)
    ensures Take(Occurrences(t, v), n) == Take(Occurrences(t[..k], v), n)
  {
    OccurrencesGrow(t, v, k);
    assert k == |t| ==> t[..k] == t;
  }

  /** Up to the first pair of equal entries, the value stands only in that pair. */
  lemma PairOccurrences(t: seq<int>, i: nat, z: nat)
    requires i < z < |t| && t[i] == t[z]
    requires forall a, b :: 0 <= a < i && a < b < |t| ==> t[a] != t[b]
    requires forall b :: i < b < z ==> t[b] != t[i]
    ensures Occurrences(t[..z + 1], t[i]) == [i, z]
  {
    var v := t[i];
    OccurrencesNone(t[..i], v);
    OccurrencesStep(t, v, i);
    StretchOccurrences(t, v, i + 1, z);
    OccurrencesStep(t, v, z);
  }

  lemma {:induction false} StretchOccurrences(t: seq<int>, v: int, a: nat, b: nat)
    requires a <= b <= |t| && forall k :: a <= k < b ==> t[k] != v
    ensures Occurrences(t[..b], v) == Occurrences(t[..a], v)
    decreases b
  {
    if a < b {
      StretchOccurrences(t, v, a, b - 1);
      OccurrencesStep(t, v, b - 1);
    }
  }

  /** The first repeated value stands at least `n` times. */
  ghost predicate HasEntries(t: seq<int>, n: nat) {
    exists i: nat :: IsFirstRepeat(t, i) && |Occurrences(t, t[i])| >= n
  }

  /** The first `n` places of the first repeated value, and that value. */
  ghost predicate FirstEntries(t: seq<int>, n: nat, entries: seq<int>, v: int) {
    exists i: nat :: IsFirstRepeat(t, i) && v == t[i] && IsTaken(t, v, n, entries)
  }

  ghost predicate IsTaken(t: seq<int>, v: int, n: nat, entries: seq<int>) {
    |entries| == n && entries == Take(Occurrences(t, v), n)
  }

  lemma EntriesOfRepeat(t: seq<int>, i: nat, n: nat, entries: seq<int>)
    requires IsFirstRepeat(t, i)
    ensures HasEntries(t, n) <==> |Occurrences(t, t[i])| >= n
    ensures IsTaken(t, t[i], n, entries) ==> FirstEntries(t, n, entries, t[i])
  {
    if HasEntries(t, n) {
      var o: nat :| IsFirstRepeat(t, o) && |Occurrences(t, t[o])| >= n;
      FirstRepeatUnique(t, o, i);
    }
  }

  /** Any repetition at all is enough for two entries, and none for even one. */
  lemma TwoEntriesIff(t: seq<int>)
    requires t != []
    ensures HasEntries(t, 2) <==> !NoRepeat(t)
  {
    if NoRepeat(t) {
      NoRepeatNoEntries(t, 2);
    } else {
      var i := FirstRepeatExists(t, 0);
      var z: nat :| i < z < |t| && t[z] == t[i];
      OccurrencesAll(t, t[i], i);
      OccurrencesAll(t, t[i], z);
      assert |Occurrences(t, t[i])| >= 2;
    }
  }

  lemma NoRepeatNoEntries(t: seq<int>, n: nat)
    requires NoRepeat(t)
    ensures !HasEntries(t, n)
  {
  }

  /** Finds `n` table entries that hold the first repeated value. It succeeds
      exactly when there is such a value and it stands at least `n` times, and
      then returns its first `n` places in order. */
  method GetEntries(p: array<int>, n: int) returns (ret: int, entries: seq<int>, niSyscall: int)
    requires p.Length == TABLE
    ensures ret == -1 || ret == n
    ensures ret > 0 <==> 1 <= n <= MAX_ACQUIRES && HasEntries(p[..], n)
    ensures ret > 0 ==> FirstEntries(p[..], n, entries, niSyscall)
  {
    entries, niSyscall := [], 0;
    if n < 1 { return -1, entries, niSyscall; }
    if n > MAX_ACQUIRES { return -1, entries, niSyscall; }
    var i := 0;
    while i < TABLE
      invariant 0 <= i <= TABLE
      invariant forall a, b :: 0 <= a < i && a < b < TABLE ==> p[a] != p[b]
    {
      var z := i + 1;
      while z < TABLE
        invariant i < z <= TABLE
        invariant forall b :: i < b < z ==> p[b] != p[i]
      {
        if p[i] == p[z] {
          assert IsFirstRepeat(p[..], i);
          PairOccurrences(p[..], i, z);
          assert p[..][..z + 1] == p[..z + 1];
          ret, entries := AcquireFrom(p, i, z, n);
          niSyscall := p[i];
          EntriesOfRepeat(p[..], i, n, entries);
          return;
        }
        z := z + 1;
      }
      i := i + 1;
    }
    assert NoRepeat(p[..]);
    NoRepeatNoEntries(p[..], n);
    return -1, entries, niSyscall;
  }

  /** The part of the search that runs once a pair has been found. */
  method AcquireFrom(p: array<int>, i: nat, z: nat, n: nat) returns (ret: int, entries: seq<int>)
    requires p.Length == TABLE && i < z < TABLE && p[i] == p[z] && 1 <= n <= MAX_ACQUIRES
    requires Occurrences(p[..z + 1], p[i]) == [i, z]
    ensures ret == n <==> |Occurrences(p[..], p[i])| >= n
    ensures ret == -1 || (ret == n && IsTaken(p[..], p[i], n, entries))
  {
    var restore := new int[MAX_ACQUIRES](_ => -1);
    var j := AcquirePair(restore, i, z, n);
    j := AcquireRest(p, p[i], z + 1, n, restore, j);
    entries := restore[..j];
    ret := if j == n then n else -1;
  }

  method AcquirePair(restore: array<int>, i: nat, z: nat, n: nat) returns (j: nat)
    requires restore.Length == MAX_ACQUIRES && 1 <= n <= MAX_ACQUIRES
    modifies restore
    ensures j <= n && restore[..j] == Take([i, z], n)
  {
    restore[0] := i;
    j := 1;
    if j < n {
      restore[1] := z;
      j := 2;
    }
  }
}
