/** What the four hooks decide and which inode they mark, as functions of the
    monitor's state and the arguments of the intercepted call. */
module Hooks {
  import opened KernelTypes
  import opened CString
  import opened PathList
  import opened Monitor
  import opened PathSolver
  import OpenFlags
  import Syscalls

  /** Arguments of an open: the kernel's copy of the name, and the bytes found
      at the user's pointer, as many as a path buffer takes. */
  datatype OpenArgs = OpenArgs(filename: Option<string>, user: Option<seq<char>>, flags: bv32, noMemory: bool)

  ghost predicate OpenArgsOk(args: OpenArgs) {
    args.user.Some? ==> |args.user.value| == PATH_MAX && StrLen(args.user.value) < PATH_MAX
  }

  /** What the open hook ends up looking at: nothing, or a path with whether it
      is the parent of a missing file and whether the name was a swap name. */
  datatype Solved = Nothing | Look(path: string, missing: bool, swap: bool)

  function SolveOpen(env: Env, b: seq<char>): Solved
    requires |b| == PATH_MAX && LookupFits(env)
  {
    if StrLen(b) < 6 then Look(Str(b), false, false)
    else
      var (found, ret) := FillBuffer(env, SwapBuffer(b));
      if ret == 0 then Look(Str(found), false, IsSwapName(Str(b)))
      else
        var (parent, ret') := FillBuffer(env, ParentBuffer(found));
        if ret' != 0 then Nothing else Look(Str(parent), true, false)
  }

  /** Listed under this path or, with `byInode`, under the inode it leads to. */
  predicate Listed(env: Env, m: MState, path: string, byInode: bool) {
    || HasPath(m.list, path)
    || (byInode && env.resolve(path).Some? && HasIno(m.list, env.resolve(path).value.ino))
  }

  function MarkPath(env: Env, m: MState, path: string): (MState, bool) {
    match env.resolve(path)
    case None => (m, false)
    case Some(t) => (Mark(m, t.ino), true)
  }

  /** Decision on a solved path; a path that cannot be marked is let through. */
  function DecideOpen(env: Env, m: MState, s: Solved, create: bool, write: bool): (MState, int) {
    if s.Nothing? || !Listed(env, m, s.path, true) then (m, 0)
    else if s.missing && create then
      var (m', ok) := MarkPath(env, m, s.path);
      (m', if ok then -EACCES else 0)
    else if s.swap then (m, -EACCES)
    else if write then
      var (m', ok) := MarkPath(env, m, s.path);
      (m', if ok then -EACCES else 0)
    else (m, 0)
  }

  function OpenHook(env: Env, m: MState, args: OpenArgs): (MState, int)
    requires OpenArgsOk(args) && LookupFits(env)
  {
    if args.filename.None? || Forbidden(env, args.filename.value) || args.user.None? then (m, 0)
    else if args.noMemory then (m, -ENOMEM)
    else
      DecideOpen(env, m, SolveOpen(env, args.user.value),
                 OpenFlags.WantsCreate(args.flags), OpenFlags.WantsWrite(args.flags))
  }

  /** Creating or removing a directory is denied in a listed parent. */
  function DirHook(env: Env, m: MState, parent: Option<string>): (MState, int) {
    if parent.None? || !Listed(env, m, parent.value, false) then (m, 0)
    else (MarkPath(env, m, parent.value).0, -EACCES)
  }

  /** Unlinking is denied for a listed file and in a listed parent. */
  function UnlinkHook(env: Env, m: MState, file: Option<string>, parent: Option<string>): (MState, int) {
    if file.None? then (m, 0)
    else if Listed(env, m, file.value, false) then (MarkPath(env, m, file.value).0, -EACCES)
    else DirHook(env, m, parent)
  }

  // -------------------------------------------------------- which opens are denied

  predicate Protected(m: MState, t: Target) {
    HasPath(m.list, t.path) || HasIno(m.list, t.ino)
  }

  /** What the user asked for, for a name of at least six characters: the named
      file itself, or the parent of a file that does not exist. */
  function Aim(env: Env, name: string): (Option<Target>, bool) {
    var full := Absolute(env, Unswapped(name));
    if env.resolve(full).Some? then (env.resolve(full), false)
    else (env.resolve(Absolute(env, ParentPath(full))), true)
  }

  lemma DecideOnTarget(env: Env, m: MState, t: Target, missing: bool, swap: bool, create: bool, write: bool)
    requires env.resolve(t.path) == Some(t)
    ensures DecideOpen(env, m, Look(t.path, missing, swap), create, write).1 == -EACCES <==>
            Protected(m, t) && (swap || write || (missing && create))
  {
  }

  /** The buffer in which the hook finds its target. */
  function FoundIn(env: Env, b: seq<char>): (a: seq<char>)
    requires |b| == PATH_MAX && LookupFits(env)
    ensures |a| == PATH_MAX
  {
    var a := AbsoluteBuffer(env, SwapBuffer(b));
    if env.resolve(Str(a)).Some? then a else AbsoluteBuffer(env, ParentBuffer(a))
  }

  /** The canonical path of what the hook finds can take the place of the name it
      was found for. Behind the cut-off parent of a missing file the buffer
      still holds that file's name, and behind the name whatever the user's
      memory held. */
  predicate Unspoilt(env: Env, b: seq<char>)
    requires |b| == PATH_MAX && LookupFits(env)
  {
    var a := FoundIn(env, b);
    env.resolve(Str(a)).Some? ==> TakesPlace(a, env.resolve(Str(a)).value.path)
  }

  lemma SolveOpenFinds(env: Env, b: seq<char>)
    requires |b| == PATH_MAX && 6 <= StrLen(b) < |b| && LookupFits(env)
    ensures var (t, missing), s := Aim(env, Str(b)), SolveOpen(env, b);
            && (t.None? ==> s.Nothing?)
            && (t.Some? ==> s.Look? && s.missing == missing && s.swap == (!missing && IsSwapName(Str(b))))
            && (t.Some? ==> (s.path == t.value.path <==> Unspoilt(env, b)))
  {
    SwapString(b);
    var c := SwapBuffer(b);
    FillFinds(env, c);
    AbsoluteString(env, c);
    var a := AbsoluteBuffer(env, c);
    if env.resolve(Str(a)).None? {
      ParentString(a);
      FillFinds(env, ParentBuffer(a));
      AbsoluteString(env, ParentBuffer(a));
    }
  }

  /** What the design asks of the open hook. */
  predicate ShouldDeny(env: Env, m: MState, name: string, create: bool, write: bool) {
    var (t, missing) := Aim(env, name);
    t.Some? && Protected(m, t.value) && ((!missing && IsSwapName(name)) || write || (missing && create))
  }

  predicate Denies(env: Env, m: MState, b: seq<char>, create: bool, write: bool)
    requires |b| == PATH_MAX && LookupFits(env)
  {
    DecideOpen(env, m, SolveOpen(env, b), create, write).1 == -EACCES
  }

  lemma OpenDecisionExact(env: Env, m: MState, b: seq<char>, create: bool, write: bool)
    requires |b| == PATH_MAX && 6 <= StrLen(b) < |b| && LookupFits(env) && Canonical(env)
    requires Unspoilt(env, b)
    ensures Denies(env, m, b, create, write) <==> ShouldDeny(env, m, Str(b), create, write)
  {
    SolveOpenFinds(env, b);
    var (t, missing) := Aim(env, Str(b));
    if t.Some? {
      DecideOnTarget(env, m, t.value, missing, !missing && IsSwapName(Str(b)), create, write);
    }
  }

  /** Some path that leads to this inode may be protected. */
  ghost predicate Protectable(env: Env, ino: nat) {
    exists p :: LeadsTo(env, p, ino) && !Forbidden(env, p)
  }

  /** The path the hook is left with for a target found in buffer `a`. */
  ghost predicate Harmless(env: Env, a: seq<char>, t: Target)
    requires |t.path| <= |a|
  {
    var left := Overlaid(a, t.path);
    || LeadsTo(env, left, t.ino)
    || (!Protectable(env, t.ino) && (env.resolve(left).Some? ==> !Protectable(env, env.resolve(left).value.ino)))
  }

  /** What stands behind the name does no harm: the path left in the buffer
      leads to the same inode as the target, or neither can be protected. */
  ghost predicate HarmlessBuffer(env: Env, b: seq<char>)
    requires |b| == PATH_MAX && LookupFits(env)
  {
    var a := FoundIn(env, b);
    assert LookupFitsAt(env, Str(a));
    env.resolve(Str(a)).Some? ==> Harmless(env, a, env.resolve(Str(a)).value)
  }

  /** What the hook looks at, spelled out for spoilt buffers too. */
  lemma SolveOpenLeaves(env: Env, b: seq<char>)
    requires |b| == PATH_MAX && 6 <= StrLen(b) < |b| && LookupFits(env)
    requires Aim(env, Str(b)).0.Some?
    ensures var t, s, a := Aim(env, Str(b)).0.value, SolveOpen(env, b), FoundIn(env, b);
            && |t.path| < |a| && s.Look? && s.path == Overlaid(a, t.path)
            && (HarmlessBuffer(env, b) <==> Harmless(env, a, t))
  {
    SwapString(b);
    var c := SwapBuffer(b);
    FillFinds(env, c);
    AbsoluteString(env, c);
    var a := AbsoluteBuffer(env, c);
    if env.resolve(Str(a)).None? {
      ParentString(a);
      FillFinds(env, ParentBuffer(a));
      AbsoluteString(env, ParentBuffer(a));
    }
  }

  /** In a state of the invariant, protected means an inode on the list. */
  lemma ProtectedByInode(env: Env, m: MState, base: map<nat, Attr>, path: string)
    requires Inv(env, m, base)
    ensures HasPath(m.list, path) ==> env.resolve(path).Some? && HasIno(m.list, env.resolve(path).value.ino)
    ensures forall ino :: HasIno(m.list, ino) ==> Protectable(env, ino)
  {
    forall i | 0 <= i < |m.list| ensures EntryOk(env, m.list[i], base) {}
  }

  lemma OneEntry(e: Entry, path: string, ino: nat)
    ensures HasPath([e], path) <==> e.path == path
    ensures HasIno([e], ino) <==> e.ino == ino
  {
    var l := [e];
    assert l[0] == e;
  }

  /** The state that protects just one path of an inode, hooks on. */
  lemma ProtectOne(env: Env, base: map<nat, Attr>, path: string, ino: nat) returns (m: MState)
    requires Knows(env, base) && LeadsTo(env, path, ino) && !Forbidden(env, path)
    ensures Inv(env, m, base) && m.hooks == seq(HOOKS_SIZE, _ => true)
    ensures ino in base && m.list == [Entry(path, ino, base[ino])] && m.attrs == base
  {
    m := Syscalls.Reconfiguring(env, base, "");
    AddKeepsInv(env, m, base, Target(path, ino));
    m := AddPath(m, Target(path, ino)).0;
  }

  /** With just one path protected, the hook errs on an open for writing if the
      target and the path it is left with lead to different inodes, one of them
      that of the protected path. */
  lemma ErrsOnWrite(env: Env, m: MState, t: Target, s: Solved, e: Entry)
    requires m.list == [e] && LeadsTo(env, e.path, e.ino) && LeadsTo(env, t.path, t.ino) && s.Look?
    requires !LeadsTo(env, s.path, t.ino) && (e.ino == t.ino || LeadsTo(env, s.path, e.ino))
    ensures (DecideOpen(env, m, s, false, true).1 == -EACCES) != Protected(m, t)
  {
    OneEntry(e, t.path, t.ino);
    OneEntry(e, s.path, if env.resolve(s.path).Some? then env.resolve(s.path).value.ino else 0);
  }

  /** Harm done: some state of the invariant in which the hook errs on an open
      for writing, one way or the other. */
  lemma HarmShows(env: Env, base: map<nat, Attr>, b: seq<char>) returns (m: MState)
    requires |b| == PATH_MAX && 6 <= StrLen(b) < |b| && LookupFits(env) && Canonical(env) && Knows(env, base)
    requires !HarmlessBuffer(env, b)
    ensures Inv(env, m, base)
    ensures ShouldDeny(env, m, Str(b), false, true) != Denies(env, m, b, false, true)
  {
    AimHarmless(env, b);
    SolveOpenLeaves(env, b);
    var t, s := Aim(env, Str(b)).0.value, SolveOpen(env, b);
    var ino := if Protectable(env, t.ino) then t.ino else env.resolve(s.path).value.ino;
    var p :| LeadsTo(env, p, ino) && !Forbidden(env, p);
    m := ProtectOne(env, base, p, ino);
    ErrsOnWrite(env, m, t, s, m.list[0]);
  }

  lemma AimHarmless(env: Env, b: seq<char>)
    requires |b| == PATH_MAX && 6 <= StrLen(b) < |b| && LookupFits(env)
    ensures Aim(env, Str(b)).0.None? ==> HarmlessBuffer(env, b)
  {
    SwapString(b);
    AbsoluteString(env, SwapBuffer(b));
    var a := AbsoluteBuffer(env, SwapBuffer(b));
    ParentString(a);
    AbsoluteString(env, ParentBuffer(a));
  }

  lemma HarmlessIsExact(env: Env, base: map<nat, Attr>, m: MState, b: seq<char>, create: bool, write: bool)
    requires |b| == PATH_MAX && 6 <= StrLen(b) < |b| && LookupFits(env) && Canonical(env)
    requires Inv(env, m, base) && HarmlessBuffer(env, b)
    ensures Denies(env, m, b, create, write) <==> ShouldDeny(env, m, Str(b), create, write)
  {
    SolveOpenFinds(env, b);
    if Aim(env, Str(b)).0.Some? {
      SolveOpenLeaves(env, b);
      var t, left := Aim(env, Str(b)).0.value, SolveOpen(env, b).path;
      ProtectedByInode(env, m, base, t.path);
      ProtectedByInode(env, m, base, left);
    }
  }

  /** A buffer that spoils no path is harmless. */
  lemma UnspoiltIsHarmless(env: Env, b: seq<char>)
    requires |b| == PATH_MAX && 6 <= StrLen(b) < |b| && LookupFits(env) && Canonical(env)
    requires Unspoilt(env, b)
    ensures HarmlessBuffer(env, b)
  {
    AimHarmless(env, b);
    if Aim(env, Str(b)).0.Some? {
      SolveOpenLeaves(env, b);
      SolveOpenFinds(env, b);
    }
  }

  /** With nothing but NULs behind the name, an existing file is never spoilt,
      and the parent of a missing one is not if its canonical path is at most as
      long as the parent as given or at least as long as the whole name. */
  lemma PaddedUnspoiltIff(env: Env, b: seq<char>, name: string)
    requires |b| == PATH_MAX && LookupFits(env) && RootedCwd(env) && Padded(b, name)
    ensures var full := Absolute(env, Unswapped(name));
            var parent := env.resolve(ParentPath(full));
            Unspoilt(env, b) <==>
              env.resolve(full).Some? || parent.None?
              || |parent.value.path| <= |ParentPath(full)| || |parent.value.path| >= |full|
  {
    SwapPadded(b, name);
    AbsolutePadded(env, SwapBuffer(b), Unswapped(name));
    PaddedLookups(env, AbsoluteBuffer(env, SwapBuffer(b)), Absolute(env, Unswapped(name)));
  }

  /** The two lookups in a buffer that holds a full name and then only NULs. */
  lemma PaddedLookups(env: Env, a: seq<char>, full: string)
    requires |a| == PATH_MAX && LookupFits(env) && Padded(a, full) && full != [] && full[0] == '/'
    ensures Str(a) == full
    ensures env.resolve(full).Some? ==> TakesPlace(a, env.resolve(full).value.path)
    ensures AbsoluteBuffer(env, ParentBuffer(a)) == ParentBuffer(a) && Str(ParentBuffer(a)) == ParentPath(full)
    ensures var parent := env.resolve(ParentPath(full));
            parent.Some? ==> (TakesPlace(ParentBuffer(a), parent.value.path) <==>
              |parent.value.path| <= |ParentPath(full)| || |parent.value.path| >= |full|)
  {
    PaddedStr(a, full);
    assert LookupFitsAt(env, full) && LookupFitsAt(env, ParentPath(full));
    if env.resolve(full).Some? { PaddedTakesAny(a, full, env.resolve(full).value.path); }
    ParentString(a);
    var parent := env.resolve(ParentPath(full));
    if parent.Some? { ParentTakes(a, full, parent.value.path); }
  }

  lemma PaddedTakesAny(b: seq<char>, s: string, t: string)
    requires Padded(b, s) && |t| < |b|
    ensures TakesPlace(b, t)
  {
    PaddedStr(b, s);
  }

  /** Behind the cut, the rest of the old name is still there. */
  lemma ParentTakes(b: seq<char>, full: string, s: string)
    requires Padded(b, full) && |s| < |b|
    ensures TakesPlace(ParentBuffer(b), s) <==> |s| <= |ParentPath(full)| || |s| >= |full|
  {
    PaddedStr(b, full);
    ParentString(b);
    if |s| > |ParentPath(full)| {
      assert ParentBuffer(b)[|s|] == b[|s|];
    }
  }

  ghost predicate RootedCwd(env: Env) {
    env.cwd != [] && env.cwd[0] == '/'
  }

  lemma ExampleName()
    ensures Unswapped("/l/newfile") == "/l/newfile" && ParentPath("/l/newfile") == "/l"
  {
    var name := "/l/newfile";
    assert name[|name| - 1] == 'e';
    assert name == "/l" + "/" + "newfile";
    ParentOfChild("/l", "newfile");
  }

  /** With "/long/dir" listed and "/l" leading to it, creating "/l/newfile" in
      it is let through: the hook looks at "/long/dire" instead. */
  lemma SpoiltParentExample() returns (b: seq<char>, m: MState)
    ensures LookupFits(LinkEnv()) && |b| == PATH_MAX && Padded(b, "/l/newfile") && Str(b) == "/l/newfile"
    ensures Inv(LinkEnv(), m, LINK_BASE) && m.hooks == seq(HOOKS_SIZE, _ => true)
    ensures m.list == [Entry("/long/dir", 2, LINK_BASE[2])]
    ensures SolveOpen(LinkEnv(), b) == Look("/long/dire", true, false)
    ensures ShouldDeny(LinkEnv(), m, Str(b), true, true) && !Denies(LinkEnv(), m, b, true, true)
  {
    var name := "/l/newfile";
    LinkEnvOk();
    b := name + Zeros(PATH_MAX - |name|);
    m := ProtectOne(LinkEnv(), LINK_BASE, "/long/dir", 2);
    ExampleLeaves(b);
    SolveOpenFinds(LinkEnv(), b);
    ExampleDecides(m);
  }

  lemma ExampleDecides(m: MState)
    requires m.list == [Entry("/long/dir", 2, LINK_BASE[2])]
    ensures Protected(m, Target("/long/dir", 2))
    ensures DecideOpen(LinkEnv(), m, Look("/long/dire", true, false), true, true) == (m, 0)
  {
    OneEntry(m.list[0], "/long/dir", 2);
    OneEntry(m.list[0], "/long/dire", 2);
    assert |"/long/dire"| == 10 && |"/long/dir"| == 9 && |"/l"| == 2;
  }

  lemma ExampleLeaves(b: seq<char>)
    requires |b| == PATH_MAX && Padded(b, "/l/newfile")
    ensures Str(b) == "/l/newfile" && Aim(LinkEnv(), Str(b)) == (Some(Target("/long/dir", 2)), true)
    ensures LookupFits(LinkEnv()) && SolveOpen(LinkEnv(), b).Look? && SolveOpen(LinkEnv(), b).path == "/long/dire"
  {
    var env, name := LinkEnv(), "/l/newfile";
    LinkEnvOk();
    ExampleName();
    PaddedStr(b, name);
    SolveOpenLeaves(env, b);
    SwapPadded(b, name);
    PaddedLookups(env, SwapBuffer(b), name);
    ExampleOverlay(b, ParentBuffer(b));
  }

  lemma ExampleOverlay(b: seq<char>, p: seq<char>)
    requires |b| == PATH_MAX && Padded(b, "/l/newfile") && p == ParentBuffer(b)
    ensures |p| == PATH_MAX && Overlaid(p, "/long/dir") == "/long/dire"
  {
    ExampleName();
    PaddedStr(b, "/l/newfile");
    ParentString(b);
    var rest := p[9..];
    assert rest[0] == 'e' && rest[1] == NUL;
    StrLenIs(rest, 1);
    assert rest[..1] == "e";
  }

  /** A name below six characters is neither stripped nor looked up first: the
      hook goes by the name as given and by the inode it leads to. */
  lemma ShortNameDecision(env: Env, m: MState, b: seq<char>, create: bool, write: bool)
    requires |b| == PATH_MAX && LookupFits(env) && StrLen(b) < 6
    ensures Denies(env, m, b, create, write) <==>
            write && env.resolve(Str(b)).Some? &&
            (HasPath(m.list, Str(b)) || HasIno(m.list, env.resolve(Str(b)).value.ino))
  {
  }

  /** In a state of the invariant it denies what it should, except in the directory
      of a file that does not exist, where it lets everything through. */
  lemma ShortNameMisses(env: Env, base: map<nat, Attr>, m: MState, b: seq<char>, create: bool, write: bool)
    requires |b| == PATH_MAX && LookupFits(env) && Canonical(env) && StrLen(b) < 6 && Inv(env, m, base)
    requires env.resolve(Str(b)) == env.resolve(Absolute(env, Str(b)))
    ensures Denies(env, m, b, create, write) <==> ShouldDeny(env, m, Str(b), create, write) && !Aim(env, Str(b)).1
  {
    ShortNameDecision(env, m, b, create, write);
    ProtectedByInode(env, m, base, Str(b));
    if env.resolve(Str(b)).Some? { ProtectedByInode(env, m, base, env.resolve(Str(b)).value.path); }
  }
}
