/** A call that runs alone, from its entry to its return, does in steps what it does
    in one. */
module LoneCalls {
  import opened KernelTypes
  import opened Monitor
  import PathSolver
  import opened Syscalls
  import opened Calls

  function SharedOf(m: MState): Shared {
    Shared(m.state, m.digest, m.list)
  }

  /** Steps a call has still ahead of it, at most. */
  function Rank(p: Phase): nat {
    match p
    case Entered => 6
    case Admitted => 5
    case Proved => 4
    case Observed => 3
    case Placed(_) => 2
    case Fresh(_) => 1
    case Returned(_) => 0
  }

  lemma StepRank(env: Env, sh: Shared, th: Thread, saved: Attr)
    requires PathSolver.LookupFits(env) && !th.phase.Returned?
    ensures Rank(StepOf(env, sh, th, saved).0) < Rank(th.phase)
  {
  }

  /** What a call comes to when nobody else takes a step. */
  function Outcome(env: Env, sh: Shared, th: Thread, saved: Attr): (Shared, int)
    requires PathSolver.LookupFits(env)
    decreases Rank(th.phase)
  {
    if th.phase.Returned? then (sh, th.phase.err)
    else
      StepRank(env, sh, th, saved);
      var (phase, sh') := StepOf(env, sh, th, saved);
      Outcome(env, sh', th.(phase := phase), saved)
  }

  lemma OutcomeStep(env: Env, sh: Shared, th: Thread, saved: Attr, phase: Phase, sh': Shared)
    requires PathSolver.LookupFits(env) && !th.phase.Returned? && StepOf(env, sh, th, saved) == (phase, sh')
    ensures Outcome(env, sh, th, saved) == Outcome(env, sh', th.(phase := phase), saved)
  {
  }

  /** What an addition saves is what its inode has. */
  ghost predicate SavesPresent(env: Env, m: MState, call: Call, saved: Attr)
    requires PathSolver.LookupFits(env)
  {
    call.PathCall? && call.buffer.Some? && LookUp(env, call.buffer.value).Found? ==>
      var ino := LookUp(env, call.buffer.value).target.ino; ino in m.attrs && saved == m.attrs[ino]
  }

  /** From the found path on. */
  lemma PlacedOutcome(env: Env, m: MState, call: Call, t: Target, saved: Attr)
    requires PathSolver.LookupFits(env) && InodesKnown(env, m)
    requires call.PathCall? && (call.op == ADD_PATH || call.op == REMOVE_PATH)
    requires LeadsTo(env, t.path, t.ino) && t.ino in m.attrs && saved == m.attrs[t.ino]
    ensures var r := if call.op == ADD_PATH then AddPath(m, t) else DelPath(env, m, t.path);
            Outcome(env, SharedOf(m), Thread(env.admin, call, Placed(t)), saved) == (SharedOf(r.0), r.1)
  {
    var th, sh := Thread(env.admin, call, Placed(t)), SharedOf(m);
    var (phase, sh') := StepOf(env, sh, th, saved);
    OutcomeStep(env, sh, th, saved, phase, sh');
    if phase.Fresh? {
      var th' := th.(phase := phase);
      var (phase', sh'') := StepOf(env, sh', th', saved);
      OutcomeStep(env, sh', th', saved, phase', sh'');
    }
  }

  /** From the password check of a path call on. */
  lemma ProvedPathOutcome(env: Env, m: MState, call: Call, saved: Attr)
    requires PathSolver.LookupFits(env) && InodesKnown(env, m) && call.PathCall? && ArgumentsOk(call)
    requires PasswordOk(env, m.digest, call.pwd) && SavesPresent(env, m, call, saved)
    ensures var r := Execute(env, m, env.admin, call);
            Outcome(env, SharedOf(m), Thread(env.admin, call, Proved), saved) == (SharedOf(r.0), r.1)
  {
    var th, sh, l := Thread(env.admin, call, Proved), SharedOf(m), LookUp(env, call.buffer.value);
    if Reconfigurable(m.state) {
      OutcomeStep(env, sh, th, saved, Observed, sh);
      OutcomeStep(env, sh, th.(phase := Observed), saved, if l.Found? then Placed(l.target) else Returned(l.err), sh);
      if l.Found? { PlacedOutcome(env, m, call, l.target, saved); }
    } else {
      OutcomeStep(env, sh, th, saved, Returned(-ECANCELED), sh);
    }
  }

  lemma ProvedOutcome(env: Env, m: MState, call: Call, saved: Attr)
    requires PathSolver.LookupFits(env) && InodesKnown(env, m) && ArgumentsOk(call)
    requires PasswordOk(env, m.digest, PasswordOf(call)) && SavesPresent(env, m, call, saved)
    ensures var r := Execute(env, m, env.admin, call);
            Outcome(env, SharedOf(m), Thread(env.admin, call, Proved), saved) == (SharedOf(r.0), r.1)
  {
    if call.PathCall? {
      ProvedPathOutcome(env, m, call, saved);
    } else {
      var th, sh := Thread(env.admin, call, Proved), SharedOf(m);
      var (phase, sh') := StepOf(env, sh, th, saved);
      OutcomeStep(env, sh, th, saved, phase, sh');
    }
  }

  /** From its entry on, a call comes to the state, digest, list and error of the
      call in one step. */
  lemma OutcomeIsExecute(env: Env, m: MState, euid: nat, call: Call, saved: Attr)
    requires PathSolver.LookupFits(env) && InodesKnown(env, m) && SavesPresent(env, m, call, saved)
    ensures var r := Execute(env, m, euid, call);
            Outcome(env, SharedOf(m), Thread(euid, call, Entered), saved) == (SharedOf(r.0), r.1)
  {
    var th, sh := Thread(euid, call, Entered), SharedOf(m);
    var (phase, _) := StepOf(env, sh, th, saved);
    OutcomeStep(env, sh, th, saved, phase, sh);
    if phase.Admitted? {
      var th' := th.(phase := phase);
      var (phase', _) := StepOf(env, sh, th', saved);
      OutcomeStep(env, sh, th', saved, phase', sh);
      if phase'.Proved? { ProvedOutcome(env, m, call, saved); }
    }
  }

  /** From moment `b` to `e` only thread `t` takes steps. */
  ghost predicate OnlyAdvances(acts: seq<Action>, t: Tid, saved: Attr, b: nat, e: nat)
    requires b <= e <= |acts|
  {
    forall i :: b <= i < e ==> acts[i] == Advance(t, saved)
  }

  lemma {:induction false} OutcomeKept(
      env: Env, ws: seq<World>, acts: seq<Action>, t: Tid, saved: Attr, b: nat, e: nat)
    requires IsRun(env, ws, acts) && b <= e < |ws| && OnlyAdvances(acts, t, saved, b, e) && t in ws[b].threads
    ensures t in ws[e].threads
    ensures Outcome(env, ws[e].shared, ws[e].threads[t], saved) == Outcome(env, ws[b].shared, ws[b].threads[t], saved)
  {
    if b < e {
      OutcomeKept(env, ws, acts, t, saved, b, e - 1);
      RunStep(env, ws, acts, e);
      var w := ws[e - 1];
      var (phase, sh') := StepOf(env, w.shared, w.threads[t], saved);
      OutcomeStep(env, w.shared, w.threads[t], saved, phase, sh');
    }
  }

  /** In every run: a call that runs alone from its entry to its return leaves the
      state, digest and list, and returns the error, of the call in one step. */
  lemma LoneCallIsExecute(
      env: Env, m: MState, ws: seq<World>, acts: seq<Action>, t: Tid, saved: Attr, b: nat, e: nat)
    requires IsRun(env, ws, acts) && b <= e < |ws| && OnlyAdvances(acts, t, saved, b, e)
    requires InodesKnown(env, m) && ws[b].shared == SharedOf(m)
    requires t in ws[b].threads && ws[b].threads[t].phase.Entered? && SavesPresent(env, m, ws[b].threads[t].call, saved)
    requires t in ws[e].threads && ws[e].threads[t].phase.Returned?
    ensures var th := ws[b].threads[t];
            var r := Execute(env, m, th.euid, th.call);
            ws[e].shared == SharedOf(r.0) && ws[e].threads[t].phase == Returned(r.1)
  {
    OutcomeKept(env, ws, acts, t, saved, b, e);
    OutcomeIsExecute(env, m, ws[b].threads[t].euid, ws[b].threads[t].call, saved);
  }
}
