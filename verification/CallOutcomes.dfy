/** What each administrative call does and answers, caller by caller and case by
    case, with the numbers of states, operations and errors spelled out. */
module CallOutcomes {
  import opened KernelTypes
  import CString
  import PathList
  import opened Monitor
  import opened PathSolver
  import opened Syscalls
  import Hooks
  import System

  // ------------------------------------------------------------- state changes

  /** ON, OFF, REC_ON and REC_OFF. */
  predicate IsState(st: int) { st == 1 || st == 2 || st == 4 || st == 8 }

  predicate KnowsPassword(env: Env, m: MState, pwd: Option<string>) {
    pwd.Some? && env.hash(pwd.value) == m.digest
  }

  /** A state change succeeds exactly for the administrator with the password, to
      another valid state; every error comes back exactly when it is due. */
  lemma StateCallAnswer(env: Env, m: MState, euid: nat, pwd: Option<string>, st: int)
    ensures var ret := ChangeState(env, m, euid, pwd, st).1;
            && (ret == 0 <==> euid == env.admin && IsState(st) && KnowsPassword(env, m, pwd) && m.state != st)
            && (ret == -1 <==> euid != env.admin)
            && (ret == -22 <==> euid == env.admin && (pwd.None? || !IsState(st)))
            && (ret == -13 <==> euid == env.admin && pwd.Some? && IsState(st) && !KnowsPassword(env, m, pwd))
            && (ret == -125 <==> euid == env.admin && IsState(st) && KnowsPassword(env, m, pwd) && m.state == st)
  {
  }

  /** One that succeeds sets the state and all four hooks, and restores the inodes
      when the hooks are off; one that fails changes nothing. */
  lemma StateCallEffect(env: Env, m: MState, euid: nat, pwd: Option<string>, st: int)
    ensures var (m', ret) := ChangeState(env, m, euid, pwd, st);
            && (ret != 0 ==> m' == m)
            && (ret == 0 ==> m'.state == st && m'.list == m.list && m'.digest == m.digest)
            && (ret == 0 ==> |m'.hooks| == 4 && forall i :: 0 <= i < 4 ==> (m'.hooks[i] <==> st == 1 || st == 4))
            && (ret == 0 ==> m'.attrs == if st == 1 || st == 4 then m.attrs else RestoreAll(env, m.list, m.attrs))
  {
  }

  // -------------------------------------------------------------- list changes

  /** A list change that changes anything or reports success was made by the
      administrator, with the password, in REC_ON or REC_OFF. */
  lemma PathCallWasAdmitted(env: Env, m: MState, euid: nat, pwd: Option<string>, b: Option<NameBuffer>, op: int)
    requires LookupFits(env) && InodesKnown(env, m)
    ensures var (m', ret) := ChangePathIn(env, m, euid, pwd, b, op);
            m' != m || ret == 0 ==>
              && euid == env.admin && KnowsPassword(env, m, pwd) && (m.state == 4 || m.state == 8)
              && b.Some? && (op == 0x10 || op == 0x20)
  {
  }

  /** The guards, in order: which of them answers what. */
  lemma PathCallRefusals(env: Env, m: MState, euid: nat, pwd: Option<string>, b: Option<NameBuffer>, op: int)
    requires LookupFits(env) && InodesKnown(env, m)
    ensures var r := ChangePathIn(env, m, euid, pwd, b, op);
            var asked := b.Some? && (op == 0x10 || op == 0x20);
            && (euid != env.admin ==> r == (m, -1))
            && (euid == env.admin && !asked ==> r == (m, -22))
            && (euid == env.admin && asked && !KnowsPassword(env, m, pwd) ==> r == (m, -13))
            && (&& euid == env.admin && asked && KnowsPassword(env, m, pwd) && m.state != 4 && m.state != 8
                ==> r == (m, -125))
  {
  }

  /** An admitted addition, by what is found in the buffer: nothing, an exempt or
      dangling path, a listed path, or a path that then heads the list with the
      attributes its inode has now. */
  lemma AdditionAnswer(env: Env, m: MState, pwd: Option<string>, b: NameBuffer)
    requires LookupFits(env) && InodesKnown(env, m) && Admitted(env, m, env.admin, pwd)
    ensures var r := ChangePathIn(env, m, env.admin, pwd, Some(b), 0x10);
            match LookUp(env, b)
            case Failed(err) => r == (m, err)
            case Found(t) =>
              if PathList.HasPath(m.list, t.path) then r == (m, -17)
              else
                && t.ino in m.attrs && r.1 == 0
                && |r.0.list| == |m.list| + 1 && r.0.list[1..] == m.list
                && r.0.list[0] == Entry(t.path, t.ino, m.attrs[t.ino])
                && r.0 == m.(list := r.0.list)
  {
    var l := LookUp(env, b);
    if l.Found? { assert env.resolve(l.target.path).value.ino in m.attrs; }
  }

  /** An admitted removal: without an entry that begins with the path found nothing
      happens; otherwise the first such entry goes and its inode, if its path still
      leads to one, gets back what the entry saved. */
  lemma RemovalAnswer(env: Env, m: MState, pwd: Option<string>, b: NameBuffer)
    requires LookupFits(env) && InodesKnown(env, m) && Admitted(env, m, env.admin, pwd)
    ensures var r := ChangePathIn(env, m, env.admin, pwd, Some(b), 0x20);
            match LookUp(env, b)
            case Failed(err) => r == (m, err)
            case Found(t) =>
              if forall i :: 0 <= i < |m.list| ==> !(t.path <= m.list[i].path) then r == (m, -2)
              else
                exists k :: 0 <= k < |m.list| && RemovesFirst(env, m, t.path, k, r)
  {
    var l := LookUp(env, b);
    if l.Found? {
      var k := PathList.FirstMatch(m.list, l.target.path);
      var r := ChangePathIn(env, m, env.admin, pwd, Some(b), 0x20);
      if k < |m.list| { assert RemovesFirst(env, m, l.target.path, k, r); }
    }
  }

  ghost predicate RemovesFirst(env: Env, m: MState, path: string, k: int, r: (MState, int))
    requires 0 <= k < |m.list|
  {
    var e := m.list[k];
    && path <= e.path && (forall i :: 0 <= i < k ==> !(path <= m.list[i].path))
    && r.0 == m.(list := m.list[..k] + m.list[k + 1..], attrs := r.0.attrs)
    && (match env.resolve(e.path)
        case None => r.1 == -2 && r.0.attrs == m.attrs
        case Some(t) => r.1 == 0 && r.0.attrs == m.attrs[t.ino := e.saved])
  }

  /** What is found in the buffer: nothing at all, an exempt path, one that leads
      nowhere, or a path with its inode. */
  lemma LookupAnswer(env: Env, b: seq<char>)
    requires BufferOk(b) && LookupFits(env)
    ensures var t := env.resolve(Absolute(env, CString.Str(b)));
            if t.None? then LookUp(env, b) == Failed(-2)
            else
              && |t.value.path| <= PATH_MAX
              && var left := Overlaid(AbsoluteBuffer(env, b), t.value.path);
                 if Exempt(env, left) then LookUp(env, b) == Failed(-22)
                 else if env.resolve(left).None? then LookUp(env, b) == Failed(-2)
                 else LookUp(env, b) == Found(Target(left, env.resolve(left).value.ino))
  {
    FillFinds(env, b);
    if env.resolve(Absolute(env, CString.Str(b))).Some? {
      ExemptIff(env, Overlaid(AbsoluteBuffer(env, b), env.resolve(Absolute(env, CString.Str(b))).value.path));
    }
  }

  // --------------------------------------------------------------- exempt paths

  const EXEMPT: seq<string> := ["/proc", "/sys", "/run", "/var", "/tmp", "/bin", "/etc", "/lib"]

  /** The root, the log, and everything that begins like a system directory. */
  predicate Exempt(env: Env, path: string) {
    path == "/" || path == env.logFile || exists i :: 0 <= i < |EXEMPT| && EXEMPT[i] <= path
  }

  lemma ExemptIff(env: Env, path: string)
    ensures Exempt(env, path) <==> Forbidden(env, path)
  {
    assert EXEMPT[0] == "/proc" && EXEMPT[1] == "/sys" && EXEMPT[2] == "/run" && EXEMPT[3] == "/var";
    assert EXEMPT[4] == "/tmp" && EXEMPT[5] == "/bin" && EXEMPT[6] == "/etc" && EXEMPT[7] == "/lib";
  }

  /** Whatever begins with one of the eight names is exempt, also "/library". */
  lemma PrefixIsExempt(env: Env, i: nat, rest: string)
    requires i < |EXEMPT|
    ensures Exempt(env, EXEMPT[i] + rest)
  {
    assert EXEMPT[i] <= EXEMPT[i] + rest;
  }

  /** An exempt name is never denied by the open hook, and no call ever lists it:
      the call is refused and nothing changes. */
  lemma ExemptIsLeftAlone(env: Env, m: MState, pwd: Option<string>, b: NameBuffer, op: int, args: Hooks.OpenArgs)
    requires LookupFits(env) && InodesKnown(env, m) && Hooks.OpenArgsOk(args)
    ensures args.filename.Some? && Exempt(env, args.filename.value) ==> Hooks.OpenHook(env, m, args) == (m, 0)
    ensures FillBuffer(env, b).1 == 0 && Exempt(env, CString.Str(FillBuffer(env, b).0))
            && Admitted(env, m, env.admin, pwd) && (op == 0x10 || op == 0x20) ==>
              ChangePathIn(env, m, env.admin, pwd, Some(b), op) == (m, -22)
  {
    if args.filename.Some? { ExemptIff(env, args.filename.value); }
    ExemptIff(env, CString.Str(FillBuffer(env, b).0));
  }

  // ------------------------------------------------------------- after loading

  /** The event is a state change that succeeds. */
  ghost predicate Switches(env: Env, m: MState, e: System.Event) {
    e.Invoke? && e.call.StateCall? && ChangeState(env, m, e.euid, e.call.pwd, e.call.st).1 == 0
  }

  /** Until the first state change succeeds nothing is ever listed, denied or
      touched: the monitor is OFF, its hooks are off, and path calls by the
      administrator with the password are refused with -ECANCELED. */
  lemma {:induction false} UntilFirstSwitch(
      env: Env, base: map<nat, Attr>, header: string, password: string, max: nat,
      ss: seq<System.Sys>, es: seq<System.Event>, n: nat)
    requires System.IsRun(env, max, ss, es) && n < |ss|
    requires System.StartsLoaded(env, base, header, password, ss[0])
    requires forall i :: 0 <= i < n ==> !Switches(env, ss[i].m, es[i])
    ensures ss[n].m.state == 2 && ss[n].m.hooks == [false, false, false, false]
    ensures ss[n].m.list == [] && ss[n].m.attrs == base && ss[n].audit.denials == 0
    ensures InodesKnown(env, ss[n].m)
    ensures forall pwd, b: NameBuffer :: KnowsPassword(env, ss[n].m, pwd) ==>
              ChangePathIn(env, ss[n].m, env.admin, pwd, Some(b), ADD_PATH) == (ss[n].m, -125)
  {
    if n == 0 {
      assert seq(HOOKS_SIZE, _ => false) == [false, false, false, false];
    } else {
      UntilFirstSwitch(env, base, header, password, max, ss, es, n - 1);
      assert ss[n - 1 + 1] == System.Step(env, max, ss[n - 1], es[n - 1]);
      QuietStep(env, max, ss[n - 1], es[n - 1]);
    }
  }

  /** In OFF no event but a successful state change does anything to the monitor
      except changing its password. */
  lemma QuietStep(env: Env, max: nat, s: System.Sys, e: System.Event)
    requires System.EnvOk(env) && System.EventOk(e) && InodesKnown(env, s.m) && !Switches(env, s.m, e)
    requires s.m.state == 2 && s.m.hooks == [false, false, false, false]
    ensures var s' := System.Step(env, max, s, e);
            s'.m == s.m.(digest := s'.m.digest) && s'.audit.denials == s.audit.denials
  {
    if e.Invoke? {
      match e.call {
        case StateCall(pwd, st) => StateCallEffect(env, s.m, e.euid, pwd, st);
        case PathCall(pwd, b, op) => PathCallWasAdmitted(env, s.m, e.euid, pwd, b, op);
        case PasswordCall(_, _) =>
      }
    }
  }

  lemma LoadedRefusesPaths(env: Env, base: map<nat, Attr>, password: string, b: NameBuffer, op: int)
    requires LookupFits(env) && Knows(env, base) && (op == 0x10 || op == 0x20)
    ensures var m := Loaded(env, password, base);
            ChangePathIn(env, m, env.admin, Some(password), Some(b), op) == (m, -125)
  {
  }
}
