/** The path solver's routines as they run, in place on one character buffer,
    each proved to produce the contents given in PathSolver. */
module PathBuffer {
  import opened KernelTypes
  import opened CString
  import Monitor
  import opened PathSolver

  lemma PutSame(b: seq<char>)
    ensures Put(b, StrLen(b), Str(b)) == b
  {
    var n, s := StrLen(b), Str(b);
    forall i | 0 <= i < |b| ensures Put(b, n, s)[i] == b[i] { PutAt(b, n, s, i); }
  }

  /** Shortening the string a buffer holds is clearing its last characters. */
  lemma PutShorter(b: seq<char>, n: nat, u: string, m: nat)
    requires m <= |u| <= n <= |b|
    ensures Put(b, n, u)[..m] + Zeros(|u| - m) + Put(b, n, u)[|u|..] == Put(b, n, u[..m])
  {
  }

  /** Sliding everything behind position `i`, terminator included, down by one. */
  lemma PutSlide(b: seq<char>, n: nat, i: nat)
    requires i < n < |b| && b[n] == NUL
    ensures b[..i] + b[i + 1..n + 1] + b[n..] == Put(b, n, b[..i] + b[i + 1..n])
  {
  }

  /** Finds the last slash of the first `len` characters, scanning backwards. */
  method FindSlash(a: array<char>, len: nat) returns (index: int)
    requires len <= a.Length
    ensures index == LastSlash(a[..len])
  {
    index := len - 1;
    while index >= 0 && a[index] != '/'
      invariant -1 <= index < len
      invariant forall j :: index < j < len ==> a[j] != '/'
    {
      index := index - 1;
    }
    LastSlashIs(a[..len], index);
  }

  /** Removes a dot right after the last slash. */
  method RemoveDot(a: array<char>, len: nat) returns (len': nat)
    requires len == StrLen(a[..]) < a.Length
    modifies a
    ensures len' == |DropDot(Str(old(a[..])))| <= len
    ensures a[..] == Put(old(a[..]), len, DropDot(Str(old(a[..]))))
  {
    ghost var b := a[..];
    assert a[..len] == Str(b);
    var index := FindSlash(a, len);
    if index >= 0 && a[index + 1] == '.' {
      PutSlide(b, len, index + 1);
      MemMoveDown(a, index + 1, index + 2, len - index - 1);
      len' := len - 1;
      assert b[..len][..index + 1] == b[..index + 1] && b[..len][index + 2..] == b[index + 2..len];
      assert a[..] == Put(b, len, DropDot(Str(b)));
      PutAt(b, len, DropDot(Str(b)), len');
      a[len'] := NUL;
      assert a[..] == Put(b, len, DropDot(Str(b)));
    } else {
      PutSame(b);
      len' := len;
    }
  }

  /** The last characters of a string, seen in a buffer that starts with it. */
  lemma TailOf(b: seq<char>, u: string)
    requires 5 <= |u| && u <= b
    ensures var n := |u|;
            b[n - 4..n] == u[n - 4..] && b[n - 5..n] == u[n - 5..] && b[n - 1..n] == u[n - 1..]
  {
    assert u == b[..|u|];
  }

  method Shorten(a: array<char>, k: nat, ghost b: seq<char>, ghost n: nat, ghost u: string, len: nat)
    requires k <= len == |u| <= n <= |b| == a.Length && a[..] == Put(b, n, u)
    modifies a
    ensures a[..] == Put(b, n, u[..|u| - k])
  {
    PutShorter(b, n, u, len - k);
    ghost var c := a[..];
    assert a[..len - k] == c[..len - k] && a[len..] == c[len..];
    Clear(a, len - k, k);
  }

  /** Clears a swap suffix from a string of length `len` held in `a`. */
  method RemoveSuffix(a: array<char>, len: nat, ghost b: seq<char>, ghost n: nat, ghost u: string)
    requires 5 <= len == |u| <= n <= |b| == a.Length && a[..] == Put(b, n, u)
    modifies a
    ensures a[..] == Put(b, n, DropSuffix(u))
  {
    TailOf(a[..], u);
    if a[len - 4..len] == ".swp" {
      Shorten(a, 4, b, n, u, len);
    } else if a[len - 5..len] == ".swpx" {
      Shorten(a, 5, b, n, u, len);
    } else if a[len - 1..len] == "~" {
      Shorten(a, 1, b, n, u, len);
    }
  }

  method StripSwap(a: array<char>) returns (swap: bool)
    requires StrLen(a[..]) < a.Length
    modifies a
    ensures swap == IsSwapName(Str(old(a[..])))
    ensures a[..] == SwapBuffer(old(a[..]))
  {
    ghost var b := a[..];
    PutSame(b);
    var len := StrLenOf(a);
    if len < 6 { return false; }
    assert a[..len] == Str(b);
    TailOf(b, Str(b));
    swap := a[len - 4..len] == ".swp" || a[len - 5..len] == ".swpx" || a[len - 1..len] == "~";
    if swap {
      ghost var n := len;
      len := RemoveDot(a, len);
      RemoveSuffix(a, len, b, n, DropDot(Str(b)));
    }
  }

  method GetParentPath(a: array<char>)
    requires StrLen(a[..]) < a.Length
    modifies a
    ensures a[..] == ParentBuffer(old(a[..]))
  {
    ghost var s := Str(a[..]);
    var len := StrLenOf(a);
    assert a[..len] == s;
    while len > 0 && a[len] != '/'
      invariant 0 <= len <= |s| < a.Length
      invariant forall j :: len < j < |s| ==> s[j] != '/'
      invariant a[..] == old(a[..])
    {
      len := len - 1;
    }
    if len > 0 {
      LastSlashIs(s, len);
      a[len] := NUL;
    } else {
      assert LastSlash(s) <= 0;
    }
  }

  /** Rebuilds a relative name from the working directory in a cleared buffer. */
  method CompleteName(env: Monitor.Env, a: array<char>)
    requires a.Length == PATH_MAX && StrLen(a[..]) < PATH_MAX && LookupFits(env) && a[0] != '/'
    modifies a
    ensures a[..] == AbsoluteBuffer(env, old(a[..]))
    ensures a[PATH_MAX - 1] == NUL
  {
    ghost var b := a[..];
    var len := StrLenOf(a);
    var name := a[..len];
    assert name == Str(b);
    var joined := env.cwd + "/" + name;
    if |joined| >= PATH_MAX { joined := joined[..PATH_MAX - 1]; }
    assert joined == Monitor.Absolute(env, name);
    Clear(a, 0, PATH_MAX);
    assert a[..] == Zeros(PATH_MAX);
    CopyIn(a, joined);
    assert Zeros(PATH_MAX)[|joined|..] == Zeros(PATH_MAX - |joined|);
  }

  method FillAbsolutePath(env: Monitor.Env, a: array<char>) returns (ret: int)
    requires a.Length == PATH_MAX && StrLen(a[..]) < PATH_MAX && LookupFits(env)
    modifies a
    ensures (a[..], ret) == FillBuffer(env, old(a[..]))
  {
    ghost var b := a[..];
    if a[0] != '/' {
      CompleteName(env, a);
    }
    assert a[..] == AbsoluteBuffer(env, b);
    ghost var c := a[..];
    assert StrLen(c) < PATH_MAX by {
      if b[0] != '/' { assert c[PATH_MAX - 1] == NUL; }
    }
    var len := StrLenOf(a);
    var path := a[..len];
    assert path == Str(c);
    assert LookupFitsAt(env, path);
    match env.resolve(path) {
      case Some(t) =>
        Replace(a, t.path);
        ret := 0;
      case None => ret := -ENOENT;
    }
  }
}
