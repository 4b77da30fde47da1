/** The whole module as one state machine: administrative calls, hooks that
    fire while they are enabled, and the worker that writes the audit log. What
    is proved here holds of every finite run. */
module System {
  import opened KernelTypes
  import PathList
  import opened Monitor
  import Removal
  import PathSolver
  import opened Syscalls
  import opened Hooks
  import Audit

  datatype Sys = Sys(m: MState, audit: Audit.AState)

  datatype Event =
    | Invoke(euid: nat, call: Call)
    | FireOpen(args: OpenArgs, task: Audit.Task, noMemory: bool)
    | FireDir(hook: nat, parent: Option<string>, task: Audit.Task, noMemory: bool)
    | FireUnlink(file: Option<string>, parent: Option<string>, task: Audit.Task, noMemory: bool)
    | RunWork(hash: Option<string>, ioFails: bool)

  ghost predicate EventOk(e: Event) {
    && (e.Invoke? ==> CallOk(e.call))
    && (e.FireOpen? ==> OpenArgsOk(e.args))
    && (e.FireDir? ==> e.hook == 1 || e.hook == 2)
  }

  ghost predicate EnvOk(env: Env) {
    PathSolver.LookupFits(env) && Canonical(env)
  }

  /** A decision of -EACCES goes to the audit trail, once; nothing else does. */
  function Decided(s: Sys, r: (MState, int), task: Audit.Task, noMemory: bool): Sys {
    if r.1 == -EACCES then Sys(r.0, Audit.TopHalf(s.audit, task, noMemory)) else Sys(r.0, s.audit)
  }

  /** Whether a hook fires on this event, and with which decision. */
  function Decision(env: Env, m: MState, e: Event): Option<(MState, int)>
    requires EventOk(e) && EnvOk(env)
  {
    match e
    case FireOpen(args, _, _) =>
      if |m.hooks| > 0 && m.hooks[0] then Some(OpenHook(env, m, args)) else None
    case FireDir(hook, parent, _, _) =>
      if |m.hooks| > hook && m.hooks[hook] then Some(DirHook(env, m, parent)) else None
    case FireUnlink(file, parent, _, _) =>
      if |m.hooks| > 3 && m.hooks[3] then Some(UnlinkHook(env, m, file, parent)) else None
    case _ => None
  }

  predicate Denied(env: Env, m: MState, e: Event)
    requires EventOk(e) && EnvOk(env)
  {
    Decision(env, m, e).Some? && Decision(env, m, e).value.1 == -EACCES
  }

  function Step(env: Env, max: nat, s: Sys, e: Event): Sys
    requires EventOk(e) && EnvOk(env) && InodesKnown(env, s.m)
  {
    match e
    case Invoke(euid, call) => s.(m := Execute(env, s.m, euid, call).0)
    case RunWork(hash, ioFails) => s.(audit := Audit.BottomHalf(s.audit, hash, ioFails, max))
    case _ =>
      var d := Decision(env, s.m, e);
      if d.Some? then Decided(s, d.value, e.task, e.noMemory) else s
  }

  ghost predicate SysInv(env: Env, base: map<nat, Attr>, header: string, s: Sys) {
    Monitor.Inv(env, s.m, base) && Audit.Inv(s.audit, header)
  }

  // ------------------------------------------------------------- single steps

  /** The event is a call to remove a path. */
  predicate IsRemoval(e: Event) {
    e.Invoke? && e.call.PathCall? && e.call.op == REMOVE_PATH
  }

  /** Entry that a removal call takes out. */
  ghost predicate Removes(env: Env, m: MState, e: Event, k: nat)
    requires EventOk(e) && EnvOk(env)
  {
    && IsRemoval(e) && Admitted(env, m, e.euid, e.call.pwd) && e.call.buffer.Some?
    && LookUp(env, e.call.buffer.value).Found?
    && k < |m.list| && k == PathList.FirstMatch(m.list, LookUp(env, e.call.buffer.value).target.path)
  }

  /** An entry that this event removes may be removed safely. */
  ghost predicate AliasSafe(env: Env, m: MState, e: Event)
    requires EventOk(e) && EnvOk(env)
  {
    forall k: nat :: Removes(env, m, e, k) ==> Removal.RemovalSafe(m, k)
  }

  lemma DelPathKeepsInv(env: Env, m: MState, base: map<nat, Attr>, path: string)
    requires Monitor.Inv(env, m, base)
    requires var k := PathList.FirstMatch(m.list, path); k < |m.list| ==> Removal.RemovalSafe(m, k)
    ensures Monitor.Inv(env, DelPath(env, m, path).0, base)
  {
    var k := PathList.FirstMatch(m.list, path);
    if k < |m.list| { Removal.SafeRemovalKeepsInv(env, m, base, k); }
  }

  lemma ListChangeCases(env: Env, m: MState, euid: nat, pwd: Option<string>, t: Target, op: int)
    requires InodesKnown(env, m) && LeadsTo(env, t.path, t.ino)
    ensures t.ino in m.attrs
    ensures var m' := ChangeList(env, m, euid, pwd, Some(Found(t)), op).0;
            || m' == m
            || (op == ADD_PATH && m' == AddPath(m, t).0)
            || (op == REMOVE_PATH && Admitted(env, m, euid, pwd) && m' == DelPath(env, m, t.path).0)
  {
    assert env.resolve(t.path).value.ino in m.attrs;
  }

  lemma ListChangeKeepsInv(
      env: Env, m: MState, base: map<nat, Attr>, euid: nat, pwd: Option<string>, t: Target, op: int)
    requires Monitor.Inv(env, m, base) && LeadsTo(env, t.path, t.ino) && !Forbidden(env, t.path)
    requires op == REMOVE_PATH && Admitted(env, m, euid, pwd) ==>
               var k := PathList.FirstMatch(m.list, t.path); k < |m.list| ==> Removal.RemovalSafe(m, k)
    ensures Monitor.Inv(env, ChangeList(env, m, euid, pwd, Some(Found(t)), op).0, base)
  {
    ListChangeCases(env, m, euid, pwd, t, op);
    AddKeepsInv(env, m, base, t);
    if op == REMOVE_PATH && Admitted(env, m, euid, pwd) { DelPathKeepsInv(env, m, base, t.path); }
  }

  lemma ChangePathKeepsInv(env: Env, m: MState, base: map<nat, Attr>, e: Event)
    requires EnvOk(env) && EventOk(e) && Monitor.Inv(env, m, base) && AliasSafe(env, m, e)
    requires e.Invoke? && e.call.PathCall?
    ensures Monitor.Inv(env, Execute(env, m, e.euid, e.call).0, base)
  {
    if e.call.buffer.Some? && LookUp(env, e.call.buffer.value).Found? {
      var t := LookUp(env, e.call.buffer.value).target;
      var k := PathList.FirstMatch(m.list, t.path);
      assert e.call.op == REMOVE_PATH && Admitted(env, m, e.euid, e.call.pwd) && k < |m.list| ==> Removes(env, m, e, k);
      ListChangeKeepsInv(env, m, base, e.euid, e.call.pwd, t, e.call.op);
    }
  }

  lemma CallKeepsInv(env: Env, m: MState, base: map<nat, Attr>, e: Event)
    requires EnvOk(env) && EventOk(e) && Monitor.Inv(env, m, base) && AliasSafe(env, m, e) && e.Invoke?
    ensures Monitor.Inv(env, Execute(env, m, e.euid, e.call).0, base)
  {
    match e.call {
      case StateCall(_, st) => if ValidState(st) { SetStateKeepsInv(env, m, base, st); }
      case PathCall(_, _, _) => ChangePathKeepsInv(env, m, base, e);
      case PasswordCall(_, _) =>
    }
  }

  lemma MarkPathKeepsInv(env: Env, m: MState, base: map<nat, Attr>, path: string, byInode: bool)
    requires Monitor.Inv(env, m, base) && HooksOn(m.state) && Listed(env, m, path, byInode)
    ensures Monitor.Inv(env, MarkPath(env, m, path).0, base)
  {
    var t := env.resolve(path);
    if t.Some? {
      if PathList.HasPath(m.list, path) {
        var i :| 0 <= i < |m.list| && m.list[i].path == path;
        assert EntryOk(env, m.list[i], base);
        assert PathList.HasIno(m.list, t.value.ino);
      }
      MarkKeepsInv(env, m, base, t.value.ino);
    }
  }

  /** The hooks fire in ON and REC_ON and in no other state: an open, a creation or
      removal of a directory, or an unlink then has the effect that its hook
      decides on, and one denial more is on the account exactly if it is refused;
      in the other states nothing happens at all. */
  lemma HooksFireIff(env: Env, base: map<nat, Attr>, max: nat, s: Sys, e: Event)
    requires EnvOk(env) && EventOk(e) && Monitor.Inv(env, s.m, base) && (e.FireOpen? || e.FireDir? || e.FireUnlink?)
    ensures !(s.m.state == 1 || s.m.state == 4) ==> Step(env, max, s, e) == s
    ensures s.m.state == 1 || s.m.state == 4 ==>
              var r := match e
                case FireOpen(args, _, _) => OpenHook(env, s.m, args)
                case FireDir(_, parent, _, _) => DirHook(env, s.m, parent)
                case FireUnlink(file, parent, _, _) => UnlinkHook(env, s.m, file, parent)
                case _ => (s.m, 0);
              && Step(env, max, s, e).m == r.0
              && Step(env, max, s, e).audit.denials == s.audit.denials + if r.1 == -13 then 1 else 0
  {
    assert |s.m.hooks| == 4 && forall i :: 0 <= i < 4 ==> s.m.hooks[i] == HooksOn(s.m.state);
  }

  lemma DecisionKeepsInv(env: Env, m: MState, base: map<nat, Attr>, e: Event)
    requires EnvOk(env) && EventOk(e) && Monitor.Inv(env, m, base) && Decision(env, m, e).Some?
    ensures Monitor.Inv(env, Decision(env, m, e).value.0, base)
  {
    assert HooksOn(m.state);
    if e.FireOpen? {
      if e.args.user.Some? {
        var s := SolveOpen(env, e.args.user.value);
        if s.Look? && Listed(env, m, s.path, true) { MarkPathKeepsInv(env, m, base, s.path, true); }
      }
    } else {
      if e.FireUnlink? && e.file.Some? && Listed(env, m, e.file.value, false) {
        MarkPathKeepsInv(env, m, base, e.file.value, false);
      }
      if e.parent.Some? && Listed(env, m, e.parent.value, false) {
        MarkPathKeepsInv(env, m, base, e.parent.value, false);
      }
    }
  }

  lemma StepKeepsInv(env: Env, base: map<nat, Attr>, header: string, max: nat, s: Sys, e: Event)
    requires EnvOk(env) && EventOk(e) && SysInv(env, base, header, s) && AliasSafe(env, s.m, e)
    ensures SysInv(env, base, header, Step(env, max, s, e))
  {
    if e.Invoke? {
      CallKeepsInv(env, s.m, base, e);
    } else if e.RunWork? {
      Audit.BottomHalfKeepsInv(s.audit, header, e.hash, e.ioFails, max);
    } else if Decision(env, s.m, e).Some? {
      DecisionKeepsInv(env, s.m, base, e);
      Audit.TopHalfKeepsInv(s.audit, header, e.task, e.noMemory);
    }
  }

  /** What an event that removes an entry does to the monitor. */
  lemma RemovalStep(env: Env, max: nat, s: Sys, e: Event, k: nat)
    requires EnvOk(env) && EventOk(e) && InodesKnown(env, s.m) && Removes(env, s.m, e, k)
    ensures Step(env, max, s, e).m == RemoveAt(env, s.m, k)
  {
  }

  /** A step of any kind keeps the invariant if and only if it does not remove an
      entry that is unsafe to remove. */
  lemma StepKeepsInvIff(env: Env, base: map<nat, Attr>, header: string, max: nat, s: Sys, e: Event)
    requires EnvOk(env) && EventOk(e) && SysInv(env, base, header, s)
    ensures SysInv(env, base, header, Step(env, max, s, e)) <==> AliasSafe(env, s.m, e)
  {
    if AliasSafe(env, s.m, e) {
      StepKeepsInv(env, base, header, max, s, e);
    } else {
      var k: nat :| Removes(env, s.m, e, k) && !Removal.RemovalSafe(s.m, k);
      RemovalStep(env, max, s, e, k);
      Removal.RemovalKeepsInvIff(env, s.m, base, k);
    }
  }

  lemma {:induction false} RestoreKeepsKeys(env: Env, l: seq<Entry>, attrs: map<nat, Attr>)
    ensures attrs.Keys <= RestoreAll(env, l, attrs).Keys
    decreases |l|
  {
    if l != [] { RestoreKeepsKeys(env, l[1..], RestoreOne(env, l[0], attrs)); }
  }

  lemma CallKeepsKeys(env: Env, m: MState, euid: nat, call: Call)
    requires EnvOk(env) && CallOk(call) && InodesKnown(env, m)
    ensures m.attrs.Keys <= Execute(env, m, euid, call).0.attrs.Keys
  {
    RestoreKeepsKeys(env, m.list, m.attrs);
    if call.PathCall? && call.buffer.Some? && LookUp(env, call.buffer.value).Found? {
      ListChangeCases(env, m, euid, call.pwd, LookUp(env, call.buffer.value).target, call.op);
    }
  }

  /** Every event can be taken in every state: no inode is ever forgotten. */
  lemma StepKeepsInodes(env: Env, max: nat, s: Sys, e: Event)
    requires EnvOk(env) && EventOk(e) && InodesKnown(env, s.m)
    ensures InodesKnown(env, Step(env, max, s, e).m)
  {
    if e.Invoke? {
      CallKeepsKeys(env, s.m, e.euid, e.call);
    } else if Decision(env, s.m, e).Some? {
      assert s.m.attrs.Keys <= Decision(env, s.m, e).value.0.attrs.Keys;
    }
  }

  // --------------------------------------------------------------------- runs

  /** The states of a run, one more than its events. */
  ghost predicate IsRun(env: Env, max: nat, ss: seq<Sys>, es: seq<Event>) {
    && |ss| == |es| + 1
    && (forall i :: 0 <= i < |es| ==> EventOk(es[i]))
    && EnvOk(env)
    && forall i :: 0 <= i < |es| ==>
      InodesKnown(env, ss[i].m) && ss[i + 1] == Step(env, max, ss[i], es[i])
  }

  ghost predicate StartsLoaded(env: Env, base: map<nat, Attr>, header: string, password: string, s: Sys) {
    s == Sys(Loaded(env, password, base), Audit.Start(header)) && InodesKnown(env, s.m)
  }

  ghost function CountDenied(env: Env, ss: seq<Sys>, es: seq<Event>, n: nat): nat
    requires EnvOk(env) && n <= |es| < |ss| && forall i :: 0 <= i < |es| ==> EventOk(es[i])
  {
    if n == 0 then 0
    else CountDenied(env, ss, es, n - 1) + if Denied(env, ss[n - 1].m, es[n - 1]) then 1 else 0
  }

  /** In every run whose removals are safe, hard-link aliases included: the
      hooks are on exactly in ON and REC_ON, an inode differs from its own
      attributes only while it is listed, marked and the hooks are on, the oldest
      entry of each inode saved those attributes, no path is listed twice, and
      the audit trail accounts for every denial. */
  lemma {:induction false} RunKeepsInv(
      env: Env, base: map<nat, Attr>, header: string, password: string, max: nat,
      ss: seq<Sys>, es: seq<Event>, n: nat)
    requires IsRun(env, max, ss, es) && n < |ss| && StartsLoaded(env, base, header, password, ss[0])
    requires forall i :: 0 <= i < n ==> AliasSafe(env, ss[i].m, es[i])
    ensures SysInv(env, base, header, ss[n])
  {
    if n == 0 {
      LoadedInv(env, password, base);
      Audit.StartInv(header);
    } else {
      RunKeepsInv(env, base, header, password, max, ss, es, n - 1);
      assert ss[n - 1 + 1] == Step(env, max, ss[n - 1], es[n - 1]);
      assert EventOk(es[n - 1]) && AliasSafe(env, ss[n - 1].m, es[n - 1]);
      StepKeepsInv(env, base, header, max, ss[n - 1], es[n - 1]);
    }
  }

  /** No removals, or no two listed paths with one inode: either makes every
      event safe. */
  lemma NoRemovalIsSafe(env: Env, m: MState, e: Event)
    requires EventOk(e) && EnvOk(env) && !IsRemoval(e)
    ensures AliasSafe(env, m, e)
  {
  }

  lemma NoAliasIsSafe(env: Env, m: MState, e: Event)
    requires EventOk(e) && EnvOk(env) && Removal.DistinctInodes(m.list)
    ensures AliasSafe(env, m, e)
  {
    forall k: nat | Removes(env, m, e, k) ensures Removal.RemovalSafe(m, k) { Removal.DistinctIsSafe(m, k); }
  }

  /** Runs in which listed paths never share an inode: every entry holds its
      inode's own attributes, and with the monitor off all inodes have theirs. */
  lemma DistinctRun(
      env: Env, base: map<nat, Attr>, header: string, password: string, max: nat,
      ss: seq<Sys>, es: seq<Event>, n: nat)
    requires IsRun(env, max, ss, es) && n < |ss| && StartsLoaded(env, base, header, password, ss[0])
    requires forall i :: 0 <= i <= n ==> Removal.DistinctInodes(ss[i].m.list)
    ensures SysInv(env, base, header, ss[n])
    ensures forall i :: 0 <= i < |ss[n].m.list| ==>
              ss[n].m.list[i].ino in base && ss[n].m.list[i].saved == base[ss[n].m.list[i].ino]
    ensures ss[n].m.state == OFF || ss[n].m.state == REC_OFF ==> ss[n].m.attrs == base
  {
    forall i | 0 <= i < n ensures AliasSafe(env, ss[i].m, es[i]) { NoAliasIsSafe(env, ss[i].m, es[i]); }
    RunKeepsInv(env, base, header, password, max, ss, es, n);
    forall i: nat | i < |ss[n].m.list|
      ensures ss[n].m.list[i].ino in base && ss[n].m.list[i].saved == base[ss[n].m.list[i].ino]
    {
      Removal.DistinctSavesBase(env, ss[n].m, base, i);
    }
    if !HooksOn(ss[n].m.state) { OffMeansUntouched(env, ss[n].m, base); }
  }

  /** Runs with aliases but without removals: unloading, or switching off, still
      brings back every inode's own attributes. */
  lemma AliasedRunRestores(
      env: Env, base: map<nat, Attr>, header: string, password: string, max: nat,
      ss: seq<Sys>, es: seq<Event>, n: nat)
    requires IsRun(env, max, ss, es) && n < |ss| && StartsLoaded(env, base, header, password, ss[0])
    requires forall i :: 0 <= i < n ==> !IsRemoval(es[i])
    ensures RestoreAll(env, ss[n].m.list, ss[n].m.attrs) == base
    ensures Unload(env, ss[n].m).attrs == base
  {
    forall i | 0 <= i < n ensures AliasSafe(env, ss[i].m, es[i]) { NoRemovalIsSafe(env, ss[i].m, es[i]); }
    RunKeepsInv(env, base, header, password, max, ss, es, n);
    RestoreGivesBase(env, ss[n].m, base);
  }

  lemma StepConservesAudit(env: Env, header: string, max: nat, s: Sys, e: Event)
    requires EnvOk(env) && EventOk(e) && InodesKnown(env, s.m) && Audit.Inv(s.audit, header)
    ensures Audit.Inv(Step(env, max, s, e).audit, header)
    ensures Step(env, max, s, e).audit.denials == s.audit.denials + if Denied(env, s.m, e) then 1 else 0
  {
    if e.RunWork? {
      Audit.BottomHalfKeepsInv(s.audit, header, e.hash, e.ioFails, max);
    } else if Decision(env, s.m, e).Some? {
      Audit.TopHalfKeepsInv(s.audit, header, e.task, e.noMemory);
    }
  }

  /** A work that runs with a digest, without a fault and with enough room below
      the limit lengthens the log by its line, and nothing else ever does. */
  lemma LogGrowsByOldestWork(env: Env, max: nat, s: Sys, e: Event)
    requires EnvOk(env) && EventOk(e) && InodesKnown(env, s.m)
    ensures var a, a' := s.audit, Step(env, max, s, e).audit;
            if && e.RunWork? && a.queue != [] && e.hash.Some? && !e.ioFails
               && |a.log| + |Audit.Record(a.queue[0], e.hash.value)| < max
            then a'.log == a.log + Audit.Record(a.queue[0], e.hash.value) && a'.queue == a.queue[1..]
            else a'.log == a.log
  {
  }

  /** Whatever the lists and aliases: the number of denials is the number of
      times a hook decided -EACCES, each is dropped, queued or finished, and the
      log holds whole lines of finished works in the order they were queued. */
  lemma {:induction false} AuditConserved(
      env: Env, header: string, max: nat, ss: seq<Sys>, es: seq<Event>, n: nat)
    requires IsRun(env, max, ss, es) && n < |ss| && ss[0].audit == Audit.Start(header)
    ensures Audit.Inv(ss[n].audit, header)
    ensures ss[n].audit.denials == CountDenied(env, ss, es, n)
  {
    if n == 0 {
      Audit.StartInv(header);
    } else {
      AuditConserved(env, header, max, ss, es, n - 1);
      assert ss[n - 1 + 1] == Step(env, max, ss[n - 1], es[n - 1]);
      assert EventOk(es[n - 1]);
      StepConservesAudit(env, header, max, ss[n - 1], es[n - 1]);
    }
  }
}
