/** Runs from loading on in which a protected file is opened for writing. */
module OpenRuns {
  import opened KernelTypes
  import opened CString
  import opened Monitor
  import opened PathSolver
  import Syscalls
  import OpenFlags
  import opened Hooks
  import opened HookPromises
  import opened System
  import Audit

  /** The call that adds a path by its canonical name. */
  lemma AddByName(env: Env, m: MState, password: string, t: Target) returns (call: Syscalls.Call)
    requires EnvOk(env) && InodesKnown(env, m) && m.state == REC_ON && m.digest == env.hash(password)
    requires "/" <= t.path && |t.path| < PATH_MAX && NUL !in t.path
    requires env.resolve(t.path) == Some(t) && !Forbidden(env, t.path)
    ensures Syscalls.CallOk(call) && t.ino in m.attrs && Syscalls.Execute(env, m, env.admin, call) == AddPath(m, t)
  {
    var b := t.path + Zeros(PATH_MAX - |t.path|);
    assert Padded(b, t.path);
    Syscalls.PaddedKeepsName(env, b, t.path);
    Syscalls.SameLookupIff(env, b);
    assert env.resolve(t.path).value.ino in m.attrs;
    call := Syscalls.PathCall(Some(password), Some(b), ADD_PATH);
  }

  /** Right after loading, two calls protect a path: switch to REC_ON, then add. */
  lemma ProtectRun(env: Env, base: map<nat, Attr>, header: string, password: string, max: nat, t: Target)
    returns (ss: seq<Sys>, es: seq<Event>)
    requires EnvOk(env) && Knows(env, base) && "/" <= t.path && |t.path| < PATH_MAX && NUL !in t.path
    requires env.resolve(t.path) == Some(t) && !Forbidden(env, t.path)
    ensures IsRun(env, max, ss, es) && |es| == 2 && StartsLoaded(env, base, header, password, ss[0])
    ensures t.ino in base && ss[2].m.list == [Entry(t.path, t.ino, base[t.ino])] && ss[2].m.attrs == base
    ensures ss[2].m.hooks == seq(HOOKS_SIZE, _ => true)
  {
    var s0 := Sys(Loaded(env, password, base), Audit.Start(header));
    var e0 := Invoke(env.admin, Syscalls.StateCall(Some(password), REC_ON));
    var s1 := Step(env, max, s0, e0);
    assert s1.m == SetState(env, s0.m, REC_ON);
    var call := AddByName(env, s1.m, password, t);
    var e1 := Invoke(env.admin, call);
    var s2 := Step(env, max, s1, e1);
    ss, es := [s0, s1, s2], [e0, e1];
  }

  function WriteOpen(name: string, user: Option<seq<char>>, task: Audit.Task): Event {
    FireOpen(OpenArgs(Some(name), user, OpenFlags.O_WRONLY, false), task, false)
  }

  /** Three events after loading: target `t` is the one protected path, the hooks are
      on, and the last event, an open for writing, is let through without a trace. */
  ghost predicate LetsThrough(
      env: Env, base: map<nat, Attr>, header: string, password: string, max: nat, ss: seq<Sys>, es: seq<Event>,
      t: Target, name: string, user: Option<seq<char>>, task: Audit.Task)
    requires UserOk(user) && EnvOk(env) && t.ino in base
  {
    && IsRun(env, max, ss, es) && |es| == 3 && StartsLoaded(env, base, header, password, ss[0])
    && ss[2].m.list == [Entry(t.path, t.ino, base[t.ino])] && ss[2].m.hooks == seq(HOOKS_SIZE, _ => true)
    && es[2] == WriteOpen(name, user, task)
    && Decision(env, ss[2].m, es[2]) == Some((ss[2].m, 0)) && ss[3] == ss[2]
  }

  /** A target that two calls can protect. */
  ghost predicate CanProtect(env: Env, t: Target) {
    && "/" <= t.path && |t.path| < PATH_MAX && NUL !in t.path
    && env.resolve(t.path) == Some(t) && !Forbidden(env, t.path)
  }

  /** Whenever the hook does not watch a target's inode under the name given, two
      calls after loading it lets the protected target be opened for writing. */
  lemma UnwatchedRun(
      env: Env, base: map<nat, Attr>, header: string, password: string, max: nat,
      t: Target, name: string, user: Option<seq<char>>, task: Audit.Task)
    returns (ss: seq<Sys>, es: seq<Event>)
    requires EnvOk(env) && Knows(env, base) && UserOk(user) && CanProtect(env, t)
    requires !Watches(env, name, user, t.ino)
    ensures t.ino in base && LetsThrough(env, base, header, password, max, ss, es, t, name, user, task)
  {
    ss, es := ProtectRun(env, base, header, password, max, t);
    UnwatchedPasses(env, ss[2].m, ss[2].m.list[0], name, user);
    var e := WriteOpen(name, user, task);
    assert env.resolve(t.path).value.ino in base;
    assert Decision(env, ss[2].m, e) == Some((ss[2].m, 0));
    ss, es := ss + [Step(env, max, ss[2], e)], es + [e];
  }

  /** Whenever the path left in a buffer does not lead to the inode that the name
      in it aims at, the file itself or the directory of a missing one, two calls
      after loading the handler lets it be opened for writing though it should not. */
  lemma SpoiltOpenRun(
      env: Env, base: map<nat, Attr>, header: string, password: string, max: nat, b: seq<char>, task: Audit.Task)
    returns (ss: seq<Sys>, es: seq<Event>)
    requires EnvOk(env) && Knows(env, base) && |b| == PATH_MAX && 6 <= StrLen(b) < |b|
    requires var t := Aim(env, Str(b)).0;
             && t.Some? && CanProtect(env, t.value)
             && !LeadsTo(env, Overlaid(FoundIn(env, b), t.value.path), t.value.ino)
    ensures var t := Aim(env, Str(b)).0.value;
            && t.ino in base && LetsThrough(env, base, header, password, max, ss, es, t, Str(b), Some(b), task)
            && HookShould(env, ss[2].m, b, OpenFlags.O_WRONLY)
  {
    var t := Aim(env, Str(b)).0.value;
    FoundIsAim(env, b);
    ss, es := UnwatchedRun(env, base, header, password, max, t, Str(b), Some(b), task);
    OneEntry(ss[2].m.list[0], t.path, t.ino);
    OpenFlags.WriteFlag();
  }

  // ----------------------------------------------------------------- examples

  function NulPadded(name: string): (b: seq<char>)
    requires |name| < PATH_MAX
    ensures |b| == PATH_MAX
  {
    name + Zeros(PATH_MAX - |name|)
  }

  /** "/long/dir" is protected, "/l" leads to it, and "/l/newfile" may be opened in it. */
  lemma SpoiltParentRun(header: string, max: nat, task: Audit.Task)
    returns (b: seq<char>, ss: seq<Sys>, es: seq<Event>)
    ensures EnvOk(LinkEnv()) && b == NulPadded("/l/newfile") && Str(b) == "/l/newfile" && StrLen(b) < PATH_MAX
    ensures LetsThrough(LinkEnv(), LINK_BASE, header, "secret", max, ss, es,
                        Target("/long/dir", 2), "/l/newfile", Some(b), task)
    ensures HookShould(LinkEnv(), ss[2].m, b, OpenFlags.O_WRONLY)
  {
    b := NulPadded("/l/newfile");
    SpoiltParentReady(b);
    ss, es := SpoiltOpenRun(LinkEnv(), LINK_BASE, header, "secret", max, b, task);
  }

  lemma SpoiltParentReady(b: seq<char>)
    requires b == NulPadded("/l/newfile")
    ensures EnvOk(LinkEnv()) && Knows(LinkEnv(), LINK_BASE) && Str(b) == "/l/newfile" && 6 <= StrLen(b) < PATH_MAX
    ensures Aim(LinkEnv(), Str(b)).0 == Some(Target("/long/dir", 2)) && CanProtect(LinkEnv(), Target("/long/dir", 2))
    ensures !LeadsTo(LinkEnv(), Overlaid(FoundIn(LinkEnv(), b), "/long/dir"), 2)
  {
    LinkEnvOk();
    PaddedStr(b, "/l/newfile");
    ExampleLeaves(b);
    LinkLookups();
    LinkLeft(b);
  }

  lemma LinkLeft(b: seq<char>)
    requires |b| == PATH_MAX && Padded(b, "/l/newfile")
    ensures LookupFits(LinkEnv()) && Overlaid(FoundIn(LinkEnv(), b), "/long/dir") == "/long/dire"
  {
    PaddedStr(b, "/l/newfile");
    ExampleLeaves(b);
    SolveOpenLeaves(LinkEnv(), b);
  }

  lemma LinkLookups()
    ensures CanProtect(LinkEnv(), Target("/long/dir", 2)) && !LeadsTo(LinkEnv(), "/long/dire", 2)
  {
    LinkEnvOk();
    assert "/" <= "/long/dir" && |"/long/dire"| == 10 && |"/long/dir"| == 9 && |"/l"| == 2;
  }

  /** An environment that knows just these names. */
  function TableEnv(table: map<string, Target>): Env {
    Env(0, s => s, p => if p in table then Some(table[p]) else None, "/", "/log")
  }

  lemma TableEnvOk(table: map<string, Target>, base: map<nat, Attr>)
    requires forall p :: p in table ==>
               var t := table[p]; t.path in table && table[t.path] == t && |t.path| < PATH_MAX && NUL !in t.path
    requires forall p :: p in table ==> table[p].ino in base
    ensures EnvOk(TableEnv(table)) && Knows(TableEnv(table), base)
  {
    var env := TableEnv(table);
    forall p ensures LookupFitsAt(env, p) {}
  }

  const TMP_LINK: map<string, Target> := map["/tmp/x" := Target("/home/f", 2), "/home/f" := Target("/home/f", 2)]
  const BACKUP: map<string, Target> := map["/home/f~" := Target("/home/f~", 2), "/home" := Target("/home", 3)]
  const BASE: map<nat, Attr> := map[2 := Attr(0x81b6, 0), 3 := Attr(0x41ff, 0)]

  lemma HomeIsNotExempt(env: Env, path: string)
    requires env.logFile == "/log" && "/home/f" <= path
    ensures !Forbidden(env, path)
  {
    assert path[1] == 'h';
  }

  /** "/home/f" is protected, and through the link "/tmp/x" it may be opened: names
      under "/tmp" are exempt, wherever they lead. */
  lemma ExemptLinkRun(header: string, max: nat, task: Audit.Task)
    returns (b: seq<char>, ss: seq<Sys>, es: seq<Event>)
    ensures EnvOk(TableEnv(TMP_LINK)) && b == NulPadded("/tmp/x") && StrLen(b) < PATH_MAX
    ensures TableEnv(TMP_LINK).resolve("/tmp/x") == Some(Target("/home/f", 2))
    ensures LetsThrough(TableEnv(TMP_LINK), BASE, header, "secret", max, ss, es,
                        Target("/home/f", 2), "/tmp/x", Some(b), task)
  {
    b := NulPadded("/tmp/x");
    ExemptLinkReady(b);
    var t := Target("/home/f", 2);
    ss, es := UnwatchedRun(TableEnv(TMP_LINK), BASE, header, "secret", max, t, "/tmp/x", Some(b), task);
  }

  lemma ExemptLinkReady(b: seq<char>)
    requires b == NulPadded("/tmp/x")
    ensures EnvOk(TableEnv(TMP_LINK)) && Knows(TableEnv(TMP_LINK), BASE) && StrLen(b) < PATH_MAX
    ensures CanProtect(TableEnv(TMP_LINK), Target("/home/f", 2))
    ensures !Watches(TableEnv(TMP_LINK), "/tmp/x", Some(b), 2)
  {
    TableEnvOk(TMP_LINK, BASE);
    HomeIsNotExempt(TableEnv(TMP_LINK), "/home/f");
    PaddedStr(b, "/tmp/x");
    assert "/tmp" <= "/tmp/x";
  }

  /** "/home/f~" is protected and "/home/f" does not exist: the protected file may
      be opened, because the hook takes it for the backup of another and looks at
      the directory of that one. */
  lemma BackupNameRun(header: string, max: nat, task: Audit.Task)
    returns (b: seq<char>, ss: seq<Sys>, es: seq<Event>)
    ensures EnvOk(TableEnv(BACKUP)) && b == NulPadded("/home/f~") && StrLen(b) < PATH_MAX
    ensures TableEnv(BACKUP).resolve("/home/f~") == Some(Target("/home/f~", 2))
    ensures LetsThrough(TableEnv(BACKUP), BASE, header, "secret", max, ss, es,
                        Target("/home/f~", 2), "/home/f~", Some(b), task)
  {
    b := NulPadded("/home/f~");
    BackupReady(b);
    var t := Target("/home/f~", 2);
    ss, es := UnwatchedRun(TableEnv(BACKUP), BASE, header, "secret", max, t, "/home/f~", Some(b), task);
  }

  lemma BackupReady(b: seq<char>)
    requires b == NulPadded("/home/f~")
    ensures EnvOk(TableEnv(BACKUP)) && Knows(TableEnv(BACKUP), BASE) && StrLen(b) < PATH_MAX
    ensures CanProtect(TableEnv(BACKUP), Target("/home/f~", 2))
    ensures !Watches(TableEnv(BACKUP), "/home/f~", Some(b), 2)
  {
    TableEnvOk(BACKUP, BASE);
    BackupCanBeProtected();
    PaddedStr(b, "/home/f~");
    BackupLooksAtHome(b);
  }

  lemma BackupCanBeProtected()
    ensures CanProtect(TableEnv(BACKUP), Target("/home/f~", 2))
  {
    HomeIsNotExempt(TableEnv(BACKUP), "/home/f~");
  }

  lemma BackupLooksAtHome(b: seq<char>)
    requires |b| == PATH_MAX && Padded(b, "/home/f~") && StrLen(b) < PATH_MAX
    ensures EnvOk(TableEnv(BACKUP)) && !LooksAt(TableEnv(BACKUP), b, 2)
  {
    var env := TableEnv(BACKUP);
    TableEnvOk(BACKUP, BASE);
    BackupNames();
    PaddedStr(b, "/home/f~");
    PaddedUnspoiltIff(env, b, "/home/f~");
    SolveOpenFinds(env, b);
    BackupLookups();
    LooksAtIff(env, b, 2);
  }

  lemma BackupNames()
    ensures Unswapped("/home/f~") == "/home/f" && ParentPath("/home/f") == "/home"
  {
    assert "/home/f~" == "/home" + "/" + "f" + "~" && "/home/f" == "/home" + "/" + "f";
    BackupReduces("/home", "f");
    ParentOfChild("/home", "f");
  }

  lemma BackupLookups()
    ensures Aim(TableEnv(BACKUP), "/home/f~") == (Some(Target("/home", 3)), true)
  {
    BackupNames();
    BackupTable();
  }

  lemma BackupTable()
    ensures "/home/f" !in BACKUP && BACKUP["/home"] == Target("/home", 3)
  {
    assert |"/home/f"| == 7 && |"/home/f~"| == 8 && |"/home"| == 5;
  }
}
