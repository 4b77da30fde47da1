/** Character buffers that hold NUL-terminated strings, and the library
    routines the monitor uses on them. */
module CString {

  const NUL: char := '\0'

  function StrLen(b: seq<char>): (n: nat)
    ensures n <= |b|
    ensures forall i :: 0 <= i < n ==> b[i] != NUL
    ensures n < |b| ==> b[n] == NUL
  {
    if b == [] || b[0] == NUL then 0 else 1 + StrLen(b[1..])
  }

  function Str(b: seq<char>): string {
    b[..StrLen(b)]
  }

  lemma StrLenIs(b: seq<char>, n: nat)
    requires n <= |b| && (forall i :: 0 <= i < n ==> b[i] != NUL) && (n < |b| ==> b[n] == NUL)
    ensures StrLen(b) == n
  {
    var m := StrLen(b);
    assert m >= n;
  }

  /** Characters before a buffer only lengthen the string it holds. */
  lemma StrBehind(s: string, t: seq<char>)
    requires NUL !in s
    ensures Str(s + t) == s + Str(t)
  {
    var n := StrLen(t);
    assert forall i :: 0 <= i < |s| ==> s[i] in s;
    StrLenIs(s + t, |s| + n);
    assert (s + t)[..|s| + n] == s + t[..n];
  }

  function Zeros(n: nat): seq<char> {
    seq(n, _ => NUL)
  }

  function Max(a: nat, b: nat): nat { if a < b then b else a }

  /** The buffer after its first `n` characters are cleared and `s` is copied to
      its start without a terminator: whatever lay beyond both stays. */
  function Put(b: seq<char>, n: nat, s: string): (r: seq<char>)
    requires n <= |b| && |s| <= |b|
    ensures |r| == |b| && s <= r
  {
    s + Zeros(Max(n, |s|) - |s|) + b[Max(n, |s|)..]
  }

  lemma PutAt(b: seq<char>, n: nat, s: string, i: nat)
    requires n <= |b| && |s| <= |b| && i < |b|
    ensures Put(b, n, s)[i] == if i < |s| then s[i] else if i < n then NUL else b[i]
  {
  }

  /** A buffer that starts with a string holds it just if a NUL follows. */
  lemma StartsHolds(b: seq<char>, s: string)
    requires |s| < |b| && s <= b && NUL !in s
    ensures Str(b) == s <==> b[|s|] == NUL
  {
    if b[|s|] == NUL { StrLenIs(b, |s|); }
  }

  /** Copying a string over the one a buffer holds leaves exactly the new string
      if and only if it is no longer than the old one or happens to meet a NUL. */
  lemma PutHoldsIff(b: seq<char>, s: string)
    requires StrLen(b) < |b| && |s| < |b| && NUL !in s
    ensures Str(Put(b, StrLen(b), s)) == s <==> |s| <= StrLen(b) || b[|s|] == NUL
  {
    var n := StrLen(b);
    var r := Put(b, n, s);
    PutAt(b, n, s, |s|);
    assert r[|s|] == NUL <==> |s| <= n || b[|s|] == NUL;
    StartsHolds(r, s);
  }

  /** A string followed by nothing but NULs up to the end of the buffer. */
  ghost predicate Padded(b: seq<char>, s: string) {
    |s| < |b| && NUL !in s && b == s + Zeros(|b| - |s|)
  }

  lemma PaddedStr(b: seq<char>, s: string)
    requires Padded(b, s)
    ensures StrLen(b) == |s| && Str(b) == s
  {
    StrLenIs(b, |s|);
  }

  lemma PutPadded(b: seq<char>, s: string, s': string)
    requires Padded(b, s) && |s'| < |b| && NUL !in s'
    ensures Padded(Put(b, |s|, s'), s')
  {
  }

  /** The string that starts at a pointer into a buffer. */
  function StrAt(b: seq<char>, p: nat): string
    requires p <= |b|
  {
    Str(b[p..])
  }

  method StrLenFrom(buf: array<char>, p: nat) returns (n: nat)
    requires p <= buf.Length
    ensures n == StrLen(buf[p..])
  {
    n := 0;
    while p + n < buf.Length && buf[p + n] != NUL
      invariant p + n <= buf.Length
      invariant forall i :: p <= i < p + n ==> buf[i] != NUL
    {
      n := n + 1;
    }
    ghost var t := buf[p..];
    assert forall i :: 0 <= i < n ==> t[i] == buf[p + i];
    StrLenIs(t, n);
  }

  method ReadAt(buf: array<char>, p: nat) returns (s: string)
    requires p <= buf.Length
    ensures s == StrAt(buf[..], p)
  {
    assert buf[..][p..] == buf[p..];
    var n := StrLenFrom(buf, p);
    s := buf[p..p + n];
  }

  method ReadStr(buf: array<char>) returns (s: string)
    ensures s == Str(buf[..])
  {
    assert buf[..][0..] == buf[..];
    s := ReadAt(buf, 0);
  }

  method StrLenOf(a: array<char>) returns (n: nat)
    ensures n == StrLen(a[..])
  {
    assert a[0..] == a[..];
    n := StrLenFrom(a, 0);
  }

  /** Moves `n` characters towards the start of the buffer. */
  method MemMoveDown(a: array<char>, dst: nat, src: nat, n: nat)
    requires dst <= src && src + n <= a.Length
    modifies a
    ensures var b := old(a[..]); a[..] == b[..dst] + b[src..src + n] + b[dst + n..]
  {
    for i := 0 to n
      invariant forall k :: dst <= k < dst + i ==> a[k] == old(a[k + (src - dst)])
      invariant forall k :: 0 <= k < a.Length && !(dst <= k < dst + i) ==> a[k] == old(a[k])
    {
      assert a[src + i] == old(a[src + i]);
      a[dst + i] := a[src + i];
    }
    MovedDown(old(a[..]), a[..], dst, src, n);
  }

  lemma MovedDown(b: seq<char>, r: seq<char>, dst: nat, src: nat, n: nat)
    requires dst <= src && src + n <= |b| == |r|
    requires forall k :: dst <= k < dst + n ==> r[k] == b[k + (src - dst)]
    requires forall k :: 0 <= k < |b| && !(dst <= k < dst + n) ==> r[k] == b[k]
    ensures r == b[..dst] + b[src..src + n] + b[dst + n..]
  {
  }

  method Clear(a: array<char>, from: nat, n: nat)
    requires from + n <= a.Length
    modifies a
    ensures a[..] == old(a[..from]) + Zeros(n) + old(a[from + n..])
  {
    for i := 0 to n
      invariant forall k :: 0 <= k < a.Length ==>
        a[k] == if from <= k < from + i then NUL else old(a[k])
    {
      a[from + i] := NUL;
    }
  }

  /** Copies a string to the start of the buffer, without its terminator. */
  method CopyIn(a: array<char>, s: string)
    requires |s| <= a.Length
    modifies a
    ensures a[..] == s + old(a[|s|..])
  {
    for i := 0 to |s|
      invariant forall k :: 0 <= k < a.Length ==> a[k] == if k < i then s[k] else old(a[k])
    {
      a[i] := s[i];
    }
  }

  /** Clears the string a buffer holds and copies another to its start. */
  method Replace(a: array<char>, s: string)
    requires StrLen(a[..]) < a.Length && |s| <= a.Length
    modifies a
    ensures a[..] == Put(old(a[..]), StrLen(old(a[..])), s)
  {
    ghost var b := a[..];
    var n := StrLenOf(a);
    Clear(a, 0, n);
    ghost var c := a[..];
    assert forall k :: 0 <= k < |b| ==> c[k] == if k < n then NUL else b[k];
    CopyIn(a, s);
    ghost var r := a[..];
    forall k | 0 <= k < |b| ensures r[k] == Put(b, n, s)[k] {
      PutAt(b, n, s, k);
      assert k >= |s| ==> r[k] == c[k];
    }
  }
}
