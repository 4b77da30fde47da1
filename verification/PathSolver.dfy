/** Rewriting a name in its buffer before it is looked up: stripping the marks
    of an editor's swap file, cutting a name down to its parent, and replacing
    it by the canonical path that lookup finds. */
module PathSolver {
  import opened KernelTypes
  import opened CString
  import opened Monitor

  // -------------------------------------------------------------- swap names

  predicate EndsWith(s: string, suffix: string) {
    |suffix| <= |s| && s[|s| - |suffix|..] == suffix
  }

  predicate HasSwapSuffix(s: string) {
    EndsWith(s, ".swp") || EndsWith(s, ".swpx") || EndsWith(s, "~")
  }

  /** Names below six characters are left alone. */
  predicate IsSwapName(s: string) {
    |s| >= 6 && HasSwapSuffix(s)
  }

  /** Index of the last slash, or -1. */
  function LastSlash(s: string): (i: int)
    ensures -1 <= i < |s|
    ensures i >= 0 ==> s[i] == '/'
    ensures forall j :: i < j < |s| ==> s[j] != '/'
  {
    if s == [] then -1
    else if s[|s| - 1] == '/' then |s| - 1
    else LastSlash(s[..|s| - 1])
  }

  /** Drops a dot that directly follows the last slash. */
  function DropDot(s: string): string {
    var i := LastSlash(s);
    if i >= 0 && i + 1 < |s| && s[i + 1] == '.' then s[..i + 1] + s[i + 2..] else s
  }

  function DropSuffix(s: string): string {
    if EndsWith(s, ".swp") then s[..|s| - 4]
    else if EndsWith(s, ".swpx") then s[..|s| - 5]
    else if EndsWith(s, "~") then s[..|s| - 1]
    else s
  }

  function Unswapped(s: string): string {
    if IsSwapName(s) then DropSuffix(DropDot(s)) else s
  }

  lemma LastSlashIs(s: string, i: int)
    requires -1 <= i < |s| && (i >= 0 ==> s[i] == '/') && (forall j :: i < j < |s| ==> s[j] != '/')
    ensures LastSlash(s) == i
  {
    var k := LastSlash(s);
    assert k <= i && i <= k;
  }

  lemma DropHiddenDot(d: string, g: string)
    requires '/' !in g
    ensures DropDot(d + "/." + g) == d + "/" + g
  {
    LastSlashIs(d + "/." + g, |d|);
  }

  lemma DropNoDot(d: string, g: string)
    requires g != [] && '/' !in g && g[0] != '.'
    ensures DropDot(d + "/" + g) == d + "/" + g
  {
    LastSlashIs(d + "/" + g, |d|);
  }

  lemma SuffixesDrop(t: string)
    ensures DropSuffix(t + ".swp") == t && HasSwapSuffix(t + ".swp")
    ensures DropSuffix(t + ".swpx") == t && HasSwapSuffix(t + ".swpx")
    ensures DropSuffix(t + "~") == t && HasSwapSuffix(t + "~")
  {
    var x, y := t + ".swpx", t + "~";
    assert x[|x| - 4] == 's';
    assert !EndsWith(x, ".swp");
    assert y[|y| - 1] == '~';
    assert !EndsWith(y, ".swp") && !EndsWith(y, ".swpx");
  }

  lemma Regroup(a: string, b: string, c: string)
    ensures a + b + c == a + (b + c)
  {
  }

  lemma UnswapBySteps(s: string, t: string, suffix: string)
    requires |s| >= 6 && HasSwapSuffix(s) && DropDot(s) == t + suffix && DropSuffix(t + suffix) == t
    ensures Unswapped(s) == t
  {
  }

  lemma HiddenSwapReduces(d: string, f: string, suffix: string)
    requires '/' !in f && (suffix == ".swp" || suffix == ".swpx") && f != []
    ensures Unswapped(d + "/." + f + suffix) == d + "/" + f
  {
    Regroup(d + "/.", f, suffix);
    Regroup(d + "/", f, suffix);
    DropHiddenDot(d, f + suffix);
    SuffixesDrop(d + "/" + f);
    SuffixesDrop(d + "/." + f);
    UnswapBySteps(d + "/." + f + suffix, d + "/" + f, suffix);
  }

  lemma BackupReduces(d: string, f: string)
    requires f != [] && '/' !in f && f[0] != '.' && |d + "/" + f + "~"| >= 6
    ensures Unswapped(d + "/" + f + "~") == d + "/" + f
  {
    Regroup(d + "/", f, "~");
    DropNoDot(d, f + "~");
    SuffixesDrop(d + "/" + f);
    UnswapBySteps(d + "/" + f + "~", d + "/" + f, "~");
  }

  /** `d/.f.swp`, `d/.f.swpx` and `d/f~` all become `d/f`, for every directory
      and every file name that has no slash and no leading dot. */
  lemma SwapFormsReduce(d: string, f: string)
    requires f != [] && '/' !in f && f[0] != '.'
    ensures Unswapped(d + "/." + f + ".swp") == d + "/" + f
    ensures Unswapped(d + "/." + f + ".swpx") == d + "/" + f
    ensures |d + "/" + f + "~"| >= 6 ==> Unswapped(d + "/" + f + "~") == d + "/" + f
  {
    HiddenSwapReduces(d, f, ".swp");
    HiddenSwapReduces(d, f, ".swpx");
    if |d + "/" + f + "~"| >= 6 { BackupReduces(d, f); }
  }

  /** Other names, and names below six characters, are left alone. */
  lemma PlainNameStays(s: string)
    requires |s| < 6 || !(EndsWith(s, ".swp") || EndsWith(s, ".swpx") || EndsWith(s, "~"))
    ensures Unswapped(s) == s
  {
  }

  /** Without a slash the leading dot stays, so a swap name relative to the
      working directory does not lead to the file it shadows. */
  lemma RelativeSwapKeepsDot(f: string)
    requires f != [] && '/' !in f
    ensures Unswapped("." + f + ".swp") == "." + f
  {
    var s := "." + f + ".swp";
    LastSlashIs(s, -1);
  }

  // -------------------------------------------------------------- parent path

  /** Cuts the name at its last slash, unless that slash is the first character
      or there is none. */
  function ParentPath(s: string): string {
    var i := LastSlash(s);
    if i > 0 then s[..i] else s
  }

  lemma ParentOfChild(d: string, f: string)
    requires d != [] && '/' !in f
    ensures ParentPath(d + "/" + f) == d
  {
    LastSlashIs(d + "/" + f, |d|);
  }

  /** A name without a slash, and one with nothing but a leading slash, stays. */
  lemma ParentOfTop(f: string)
    requires '/' !in f
    ensures ParentPath(f) == f && ParentPath("/" + f) == "/" + f
  {
    LastSlashIs(f, -1);
    LastSlashIs("/" + f, 0);
  }

  /** A relative name is completed to a file of the working directory, and a name
      that starts at the root stays. Too long a name is cut off. */
  lemma AbsoluteIn(env: Env, f: string)
    requires f != [] && '/' !in f && env.cwd != []
    ensures |env.cwd| + 1 + |f| < PATH_MAX ==> ParentPath(Absolute(env, f)) == env.cwd
    ensures |env.cwd| + 1 + |f| < PATH_MAX ==>
              EndsWith(Absolute(env, f), f) && |Absolute(env, f)| == |env.cwd| + 1 + |f|
    ensures |env.cwd| + 1 + |f| >= PATH_MAX ==>
              |Absolute(env, f)| == PATH_MAX - 1 && Absolute(env, f) <= env.cwd + "/" + f
    ensures Absolute(env, "/" + f) == "/" + f
  {
    ParentOfChild(env.cwd, f);
  }

  // ---------------------------------------------------------- buffer contents

  /** The name without swap marks, in the same buffer. */
  function SwapBuffer(b: seq<char>): seq<char> {
    UnswappedShorter(Str(b));
    Put(b, StrLen(b), Unswapped(Str(b)))
  }

  lemma UnswappedShorter(s: string)
    ensures |Unswapped(s)| <= |s|
    ensures forall c :: c in Unswapped(s) ==> c in s
  {
    var u := DropDot(s);
    assert forall c :: c in u ==> c in s;
    assert DropSuffix(u) <= u;
  }

  /** A relative name is rebuilt from the working directory in a cleared buffer. */
  function AbsoluteBuffer(env: Env, b: seq<char>): (r: seq<char>)
    requires |b| == PATH_MAX && |env.cwd| < PATH_MAX
    ensures |r| == PATH_MAX
  {
    var s := Str(b);
    if s != [] && s[0] == '/' then b
    else
      var a := Absolute(env, s);
      a + Zeros(PATH_MAX - |a|)
  }

  /** The canonical path replaces the name; without a match the name stays. */
  function FillBuffer(env: Env, b: seq<char>): (r: (seq<char>, int))
    requires |b| == PATH_MAX && LookupFits(env)
    ensures |r.0| == PATH_MAX
  {
    var a := AbsoluteBuffer(env, b);
    assert LookupFitsAt(env, Str(a));
    match env.resolve(Str(a))
    case None => (a, -ENOENT)
    case Some(t) => (Put(a, StrLen(a), t.path), 0)
  }

  function ParentBuffer(b: seq<char>): (r: seq<char>)
    ensures |r| == |b|
  {
    var i := LastSlash(Str(b));
    if i > 0 then b[i := NUL] else b
  }

  /** Lookup returns C strings that fit a path buffer. */
  ghost predicate LookupFitsAt(env: Env, p: string) {
    env.resolve(p).Some? ==> |env.resolve(p).value.path| < PATH_MAX && NUL !in env.resolve(p).value.path
  }

  ghost predicate LookupFits(env: Env) {
    && |env.cwd| < PATH_MAX && NUL !in env.cwd
    && forall p :: LookupFitsAt(env, p)
  }

  // ------------------------------------------------- strings behind the buffers

  /** The string can take the place of the one in the buffer and be terminated:
      it is no longer, or there happens to be a NUL where it ends. */
  predicate TakesPlace(b: seq<char>, s: string) {
    |s| <= StrLen(b) || (|s| < |b| && b[|s|] == NUL)
  }

  /** What a buffer holds after a string is copied over its own: that string, or,
      where it ends on a character that stays, that string and what follows. */
  function Overlaid(b: seq<char>, s: string): string
    requires |s| <= |b|
  {
    if TakesPlace(b, s) then s else s + Str(b[|s|..])
  }

  lemma PutLonger(b: seq<char>, n: nat, s: string)
    requires n <= |s| <= |b|
    ensures Put(b, n, s) == s + b[|s|..]
  {
    assert Max(n, |s|) == |s|;
  }

  lemma PutOverlays(b: seq<char>, s: string)
    requires StrLen(b) < |b| && |s| < |b| && NUL !in s
    ensures Str(Put(b, StrLen(b), s)) == Overlaid(b, s)
  {
    PutHoldsIff(b, s);
    if !TakesPlace(b, s) {
      PutLonger(b, StrLen(b), s);
      StrBehind(s, b[|s|..]);
    }
  }

  lemma AbsoluteClean(env: Env, name: string)
    requires NUL !in name && NUL !in env.cwd && |name| < PATH_MAX
    ensures NUL !in Absolute(env, name) && |Absolute(env, name)| < PATH_MAX
  {
  }

  lemma SwapString(b: seq<char>)
    requires StrLen(b) < |b|
    ensures Str(SwapBuffer(b)) == Unswapped(Str(b)) && StrLen(SwapBuffer(b)) < |b| == |SwapBuffer(b)|
  {
    UnswappedShorter(Str(b));
    PutHoldsIff(b, Unswapped(Str(b)));
  }

  lemma AbsoluteString(env: Env, b: seq<char>)
    requires |b| == PATH_MAX && StrLen(b) < |b| && LookupFits(env)
    ensures Str(AbsoluteBuffer(env, b)) == Absolute(env, Str(b)) && StrLen(AbsoluteBuffer(env, b)) < |b|
  {
    AbsoluteClean(env, Str(b));
    var a := Absolute(env, Str(b));
    if !(Str(b) != [] && Str(b)[0] == '/') {
      PaddedStr(AbsoluteBuffer(env, b), a);
    }
  }

  /** The name is replaced by exactly the canonical path if and only if that
      path can take its place in the buffer, and otherwise by that path and what
      the buffer holds behind it; a name that leads nowhere is completed and
      stays. */
  lemma FillFinds(env: Env, b: seq<char>)
    requires |b| == PATH_MAX && StrLen(b) < |b| && LookupFits(env)
    ensures var (r, ret), t := FillBuffer(env, b), env.resolve(Absolute(env, Str(b)));
            && (ret == 0 <==> t.Some?)
            && (t.Some? ==> (Str(r) == t.value.path <==> TakesPlace(AbsoluteBuffer(env, b), t.value.path)))
            && (t.Some? ==> |t.value.path| < PATH_MAX && Str(r) == Overlaid(AbsoluteBuffer(env, b), t.value.path))
            && (t.None? ==> ret == -ENOENT && r == AbsoluteBuffer(env, b))
  {
    AbsoluteString(env, b);
    var a := AbsoluteBuffer(env, b);
    assert LookupFitsAt(env, Str(a));
    var t := env.resolve(Str(a));
    if t.Some? {
      PutHoldsIff(a, t.value.path);
      PutOverlays(a, t.value.path);
    }
  }

  lemma CutShort(b: seq<char>, i: nat)
    requires i < StrLen(b)
    ensures Str(b[i := NUL]) == Str(b)[..i] && StrLen(b[i := NUL]) < |b|
  {
    var p := b[i := NUL];
    StrLenIs(p, i);
    assert p[..i] == b[..i];
  }

  lemma ParentString(b: seq<char>)
    requires StrLen(b) < |b|
    ensures Str(ParentBuffer(b)) == ParentPath(Str(b)) && StrLen(ParentBuffer(b)) < |b|
  {
    var i := LastSlash(Str(b));
    if i > 0 { CutShort(b, i); }
  }

  lemma SwapPadded(b: seq<char>, s: string)
    requires Padded(b, s)
    ensures Padded(SwapBuffer(b), Unswapped(s))
  {
    PaddedStr(b, s);
    UnswappedShorter(s);
    PutPadded(b, s, Unswapped(s));
  }

  lemma AbsolutePadded(env: Env, b: seq<char>, s: string)
    requires |b| == PATH_MAX && LookupFits(env) && Padded(b, s)
    ensures Padded(AbsoluteBuffer(env, b), Absolute(env, s))
  {
    PaddedStr(b, s);
    AbsoluteClean(env, s);
  }

  // ------------------------------------------------------------------- example

  /** A short link to a long directory. */
  function LinkEnv(): Env {
    Env(0, s => s,
        p => if p == "/l" || p == "/long/dir" then Some(Target("/long/dir", 2)) else None,
        "/", "/log")
  }

  const LINK_BASE: map<nat, Attr> := map[2 := Attr(0x41ff, 0)]

  lemma LinkEnvOk()
    ensures LookupFits(LinkEnv()) && Canonical(LinkEnv()) && Knows(LinkEnv(), LINK_BASE)
    ensures !Forbidden(LinkEnv(), "/long/dir")
  {
    var env, path := LinkEnv(), "/long/dir";
    forall p ensures LookupFitsAt(env, p) {}
    assert path[1] == 'l' && path[2] == 'o';
  }
}
