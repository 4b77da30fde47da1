/** Administrative calls that run at the same time, cut into the steps at which
    they read or write shared data: the guards of a call are read at different
    moments, and what is proved here holds of every interleaving. */
module Calls {
  import opened KernelTypes
  import opened PathList
  import CString
  import opened Monitor
  import opened PathSolver
  import opened Syscalls

  type Tid = nat

  /** How far a call has come. */
  datatype Phase =
    | Entered
    | Admitted
    | Proved
    | Observed
    | Placed(target: Target)
    | Fresh(target: Target)
    | Returned(err: int)

  datatype Thread = Thread(euid: nat, call: Call, phase: Phase)

  /** Shared data: the monitor's state, the password digest and the list. */
  datatype Shared = Shared(state: int, digest: string, list: seq<Entry>)
  datatype World = World(shared: Shared, threads: map<Tid, Thread>)

  datatype Action = Enter(t: Tid, euid: nat, call: Call) | Advance(t: Tid, saved: Attr) | Leave(t: Tid)

  function PasswordOf(c: Call): Option<string> {
    match c
    case StateCall(p, _) => p
    case PathCall(p, _, _) => p
    case PasswordCall(o, _) => o
  }

  predicate ArgumentsOk(c: Call) {
    match c
    case StateCall(p, st) => p.Some? && ValidState(st)
    case PathCall(_, buffer, op) => buffer.Some? && (op == ADD_PATH || op == REMOVE_PATH)
    case PasswordCall(o, n) => o.Some? && n.Some? && |n.value| > 8 && o != n
  }

  predicate Reconfigurable(st: int) { st == REC_ON || st == REC_OFF }

  /** One step of a call: its new phase and the new shared data. */
  function StepOf(env: Env, sh: Shared, th: Thread, saved: Attr): (Phase, Shared)
    requires LookupFits(env)
  {
    match th.phase
    case Entered =>
      if th.euid != env.admin then (Returned(-EPERM), sh)
      else if !ArgumentsOk(th.call) then (Returned(-EINVAL), sh)
      else (Admitted, sh)
    case Admitted =>
      if PasswordOk(env, sh.digest, PasswordOf(th.call)) then (Proved, sh)
      else (Returned(if th.call.PasswordCall? then -EINVAL else -EACCES), sh)
    case Proved =>
      (match th.call
       case StateCall(_, st) =>
         if sh.state == st then (Returned(-ECANCELED), sh) else (Returned(0), sh.(state := st))
       case PasswordCall(_, n) =>
         if n.None? then (Returned(-EINVAL), sh) else (Returned(0), sh.(digest := env.hash(n.value)))
       case PathCall(_, _, _) =>
         if Reconfigurable(sh.state) then (Observed, sh) else (Returned(-ECANCELED), sh))
    case Observed =>
      if !th.call.PathCall? || th.call.buffer.None? then (Returned(-EINVAL), sh)
      else
        (match LookUp(env, th.call.buffer.value)
         case Failed(err) => (Returned(err), sh)
         case Found(t) => (Placed(t), sh))
    case Placed(t) =>
      if !th.call.PathCall? then (Returned(-EINVAL), sh)
      else if th.call.op == ADD_PATH then
        if HasPath(sh.list, t.path) then (Returned(-EEXIST), sh) else (Fresh(t), sh)
      else if FirstMatch(sh.list, t.path) == |sh.list| then (Returned(-ENOENT), sh)
      else
        (Returned(if env.resolve(sh.list[FirstMatch(sh.list, t.path)].path).Some? then 0 else -ENOENT),
         sh.(list := Remove(sh.list, t.path)))
    case Fresh(t) => (Returned(0), sh.(list := [Entry(t.path, t.ino, saved)] + sh.list))
    case Returned(_) => (th.phase, sh)
  }

  predicate Enabled(w: World, a: Action) {
    match a
    case Enter(t, _, _) => t !in w.threads
    case Advance(t, _) => t in w.threads && !w.threads[t].phase.Returned?
    case Leave(t) => t in w.threads && w.threads[t].phase.Returned?
  }

  function Do(env: Env, w: World, a: Action): World
    requires LookupFits(env) && Enabled(w, a)
  {
    match a
    case Enter(t, euid, call) => w.(threads := w.threads[t := Thread(euid, call, Entered)])
    case Advance(t, saved) =>
      var (phase, shared) := StepOf(env, w.shared, w.threads[t], saved);
      World(shared, w.threads[t := w.threads[t].(phase := phase)])
    case Leave(t) => w.(threads := w.threads - {t})
  }

  ghost predicate IsRun(env: Env, ws: seq<World>, acts: seq<Action>) {
    && LookupFits(env)
    && |ws| == |acts| + 1
    && ws[0].threads == map[] && ws[0].shared.list == []
    && forall i :: 0 <= i < |acts| ==> Enabled(ws[i], acts[i]) && ws[i + 1] == Do(env, ws[i], acts[i])
  }

  lemma RunStep(env: Env, ws: seq<World>, acts: seq<Action>, n: nat)
    requires IsRun(env, ws, acts) && 0 < n < |ws|
    ensures Enabled(ws[n - 1], acts[n - 1]) && ws[n] == Do(env, ws[n - 1], acts[n - 1])
  {
    assert ws[n - 1 + 1] == Do(env, ws[n - 1], acts[n - 1]);
  }

  // --------------------------------------------------------- what guards a change

  /** Thread `t` is inside one call from moment `b` to moment `e`. */
  ghost predicate InCall(ws: seq<World>, t: Tid, euid: nat, call: Call, b: nat, e: nat)
    requires b <= e < |ws|
  {
    forall j :: b <= j <= e ==> t in ws[j].threads && ws[j].threads[t].euid == euid && ws[j].threads[t].call == call
  }

  predicate PastAdmission(p: Phase) { !p.Entered? && !p.Returned? }
  predicate PastProof(p: Phase) { p.Proved? || p.Observed? || p.Placed? || p.Fresh? }
  predicate PastObservation(p: Phase) { p.Observed? || p.Placed? || p.Fresh? }

  lemma {:induction false} AdmittedIsAdmin(env: Env, ws: seq<World>, acts: seq<Action>, t: Tid, n: nat)
    requires IsRun(env, ws, acts) && n < |ws| && t in ws[n].threads && PastAdmission(ws[n].threads[t].phase)
    ensures ws[n].threads[t].euid == env.admin && ArgumentsOk(ws[n].threads[t].call)
  {
    if n > 0 {
      RunStep(env, ws, acts, n);
      if t in ws[n - 1].threads && PastAdmission(ws[n - 1].threads[t].phase) {
        AdmittedIsAdmin(env, ws, acts, t, n - 1);
      }
    }
  }

  /** A call past its password check had, at a moment of its own, a password
      that matched the digest stored at that moment. */
  lemma {:induction false} ProvedMatched(env: Env, ws: seq<World>, acts: seq<Action>, t: Tid, n: nat) returns (j: nat)
    requires IsRun(env, ws, acts) && n < |ws| && t in ws[n].threads && PastProof(ws[n].threads[t].phase)
    ensures j <= n && InCall(ws, t, ws[n].threads[t].euid, ws[n].threads[t].call, j, n)
    ensures PasswordOk(env, ws[j].shared.digest, PasswordOf(ws[n].threads[t].call))
  {
    if n == 0 { assert false; }
    RunStep(env, ws, acts, n);
    PhaseBefore(env, ws[n - 1], acts[n - 1], t);
    if PastProof(ws[n - 1].threads[t].phase) {
      j := ProvedMatched(env, ws, acts, t, n - 1);
    } else {
      j := n - 1;
    }
  }

  /** Where a call past its password check stood one step earlier. */
  lemma PhaseBefore(env: Env, w: World, a: Action, t: Tid)
    requires LookupFits(env) && Enabled(w, a) && t in Do(env, w, a).threads && PastProof(Do(env, w, a).threads[t].phase)
    ensures t in w.threads
    ensures w.threads[t].euid == Do(env, w, a).threads[t].euid && w.threads[t].call == Do(env, w, a).threads[t].call
    ensures PastProof(w.threads[t].phase) || PasswordOk(env, w.shared.digest, PasswordOf(w.threads[t].call))
    ensures PastObservation(Do(env, w, a).threads[t].phase) ==>
              PastObservation(w.threads[t].phase) || (w.threads[t].phase.Proved? && Reconfigurable(w.shared.state))
  {
  }

  /** A call past its state check saw a reconfigurable state at a moment of its
      own, at or after the moment its password matched. */
  lemma {:induction false} ObservedSaw(env: Env, ws: seq<World>, acts: seq<Action>, t: Tid, n: nat)
    returns (j: nat, k: nat)
    requires IsRun(env, ws, acts) && n < |ws| && t in ws[n].threads && PastObservation(ws[n].threads[t].phase)
    ensures j <= k <= n && InCall(ws, t, ws[n].threads[t].euid, ws[n].threads[t].call, j, n)
    ensures PasswordOk(env, ws[j].shared.digest, PasswordOf(ws[n].threads[t].call))
    ensures Reconfigurable(ws[k].shared.state)
  {
    if n == 0 { assert false; }
    RunStep(env, ws, acts, n);
    PhaseBefore(env, ws[n - 1], acts[n - 1], t);
    if PastObservation(ws[n - 1].threads[t].phase) {
      j, k := ObservedSaw(env, ws, acts, t, n - 1);
    } else {
      j := ProvedMatched(env, ws, acts, t, n - 1);
      k := n - 1;
    }
  }

  /** In every interleaving, a step that changes the list belongs to a path call
      by the administrator whose password matched the stored digest at a moment
      of the call and which later in the call saw REC_ON or REC_OFF. */
  lemma ListChangeWasGuarded(env: Env, ws: seq<World>, acts: seq<Action>, n: nat) returns (t: Tid, j: nat, k: nat)
    requires IsRun(env, ws, acts) && n < |acts| && ws[n + 1].shared.list != ws[n].shared.list
    ensures acts[n].Advance? && t == acts[n].t && t in ws[n].threads
    ensures ws[n].threads[t].call.PathCall? && ws[n].threads[t].euid == env.admin
    ensures j <= k <= n && InCall(ws, t, env.admin, ws[n].threads[t].call, j, n)
    ensures PasswordOk(env, ws[j].shared.digest, ws[n].threads[t].call.pwd)
    ensures Reconfigurable(ws[k].shared.state)
  {
    RunStep(env, ws, acts, n + 1);
    t := acts[n].t;
    AdmittedIsAdmin(env, ws, acts, t, n);
    j, k := ObservedSaw(env, ws, acts, t, n);
    PathCallsChangeLists(env, ws, acts, t, n);
  }

  lemma {:induction false} PathCallsChangeLists(env: Env, ws: seq<World>, acts: seq<Action>, t: Tid, n: nat)
    requires IsRun(env, ws, acts) && n < |ws| && t in ws[n].threads && PastObservation(ws[n].threads[t].phase)
    ensures ws[n].threads[t].call.PathCall?
  {
    if n > 0 {
      RunStep(env, ws, acts, n);
      if PastObservation(ws[n - 1].threads[t].phase) { PathCallsChangeLists(env, ws, acts, t, n - 1); }
    }
  }

  /** The same for the monitor's state and for the digest. */
  lemma SecretChangeWasGuarded(env: Env, ws: seq<World>, acts: seq<Action>, n: nat) returns (t: Tid, j: nat)
    requires IsRun(env, ws, acts) && n < |acts|
    requires ws[n + 1].shared.state != ws[n].shared.state || ws[n + 1].shared.digest != ws[n].shared.digest
    ensures acts[n].Advance? && t == acts[n].t && t in ws[n].threads && ws[n].threads[t].euid == env.admin
    ensures ws[n + 1].shared.state != ws[n].shared.state ==> ws[n].threads[t].call.StateCall?
    ensures ws[n + 1].shared.digest != ws[n].shared.digest ==> ws[n].threads[t].call.PasswordCall?
    ensures j <= n && InCall(ws, t, env.admin, ws[n].threads[t].call, j, n)
    ensures PasswordOk(env, ws[j].shared.digest, PasswordOf(ws[n].threads[t].call))
  {
    RunStep(env, ws, acts, n + 1);
    t := acts[n].t;
    AdmittedIsAdmin(env, ws, acts, t, n);
    j := ProvedMatched(env, ws, acts, t, n);
  }

  // ------------------------------------------------- refused calls change nothing

  ghost predicate Resolvable(env: Env, w: World) {
    && (forall i :: 0 <= i < |w.shared.list| ==> env.resolve(w.shared.list[i].path).Some?)
    && (forall t :: t in w.threads && (w.threads[t].phase.Placed? || w.threads[t].phase.Fresh?) ==>
          env.resolve(w.threads[t].phase.target.path).Some?)
  }

  lemma StepKeepsResolvable(env: Env, w: World, a: Action)
    requires LookupFits(env) && Resolvable(env, w) && Enabled(w, a)
    ensures Resolvable(env, Do(env, w, a))
  {
    var w' := Do(env, w, a);
    if a.Advance? && w.threads[a.t].phase.Fresh? {
      assert forall i :: 0 < i < |w'.shared.list| ==> w'.shared.list[i] == w.shared.list[i - 1];
    }
  }

  lemma {:induction false} RunIsResolvable(env: Env, ws: seq<World>, acts: seq<Action>, n: nat)
    requires IsRun(env, ws, acts) && n < |ws|
    ensures Resolvable(env, ws[n])
  {
    if n > 0 {
      RunIsResolvable(env, ws, acts, n - 1);
      RunStep(env, ws, acts, n);
      StepKeepsResolvable(env, ws[n - 1], acts[n - 1]);
    }
  }

  /** The step that changes shared data is the one with which a call succeeds. */
  lemma ChangeMeansSuccess(env: Env, ws: seq<World>, acts: seq<Action>, n: nat)
    requires IsRun(env, ws, acts) && n < |acts| && ws[n + 1].shared != ws[n].shared
    ensures acts[n].Advance? && acts[n].t in ws[n + 1].threads
    ensures ws[n + 1].threads[acts[n].t].phase == Returned(0)
  {
    RunIsResolvable(env, ws, acts, n);
    RunStep(env, ws, acts, n + 1);
  }

  lemma {:induction false} ReturnedStays(
      env: Env, ws: seq<World>, acts: seq<Action>, t: Tid, euid: nat, call: Call, b: nat, e: nat)
    requires IsRun(env, ws, acts) && b <= e < |ws| && InCall(ws, t, euid, call, b, e)
    requires ws[b].threads[t].phase.Returned?
    ensures ws[e].threads[t].phase == ws[b].threads[t].phase
  {
    if b < e {
      assert InCall(ws, t, euid, call, b, e - 1);
      ReturnedStays(env, ws, acts, t, euid, call, b, e - 1);
      RunStep(env, ws, acts, e);
    }
  }

  /** A call that ends in an error has changed nothing at any of its steps. */
  lemma RefusedCallChangedNothing(
      env: Env, ws: seq<World>, acts: seq<Action>, t: Tid, euid: nat, call: Call, b: nat, e: nat, n: nat)
    requires IsRun(env, ws, acts) && b <= n < e < |ws| && InCall(ws, t, euid, call, b, e)
    requires ws[e].threads[t].phase.Returned? && ws[e].threads[t].phase.err != 0
    requires acts[n].Advance? && acts[n].t == t
    ensures ws[n + 1].shared == ws[n].shared
  {
    if ws[n + 1].shared != ws[n].shared {
      ChangeMeansSuccess(env, ws, acts, n);
      ReturnedStays(env, ws, acts, t, euid, call, n + 1, e);
      assert false;
    }
  }

  // --------------------------------------------------------------- no duplicates

  /** No two calls are between their membership test and their insertion with
      the same path. */
  ghost predicate AddsSerialised(w: World) {
    forall t, u :: t in w.threads && u in w.threads && t != u
      && w.threads[t].phase.Fresh? && w.threads[u].phase.Fresh?
      ==> w.threads[t].phase.target.path != w.threads[u].phase.target.path
  }

  ghost predicate NoDuplicates(w: World) {
    && UniquePaths(w.shared.list)
    && (forall t :: t in w.threads && w.threads[t].phase.Fresh? ==>
          !HasPath(w.shared.list, w.threads[t].phase.target.path))
  }

  lemma InsertKeepsUnique(l: seq<Entry>, e: Entry)
    requires UniquePaths(l) && !HasPath(l, e.path)
    ensures UniquePaths([e] + l)
    ensures forall p :: HasPath([e] + l, p) <==> p == e.path || HasPath(l, p)
  {
    var l' := [e] + l;
    assert forall i :: 0 < i < |l'| ==> l'[i] == l[i - 1];
    forall p ensures HasPath(l', p) <==> p == e.path || HasPath(l, p) {
      if HasPath(l, p) {
        var i :| 0 <= i < |l| && l[i].path == p;
        assert l'[i + 1].path == p;
      }
      assert l'[0].path == e.path;
    }
  }

  lemma RemoveKeepsUnique(l: seq<Entry>, request: string)
    requires UniquePaths(l)
    ensures UniquePaths(Remove(l, request))
    ensures forall p :: HasPath(Remove(l, request), p) ==> HasPath(l, p)
  {
    var k, r := FirstMatch(l, request), Remove(l, request);
    if k < |l| {
      assert forall i :: 0 <= i < |r| ==> r[i] == if i < k then l[i] else l[i + 1];
    }
  }

  lemma StepKeepsNoDuplicates(env: Env, w: World, a: Action)
    requires LookupFits(env) && NoDuplicates(w) && AddsSerialised(w) && Enabled(w, a)
    ensures NoDuplicates(Do(env, w, a))
  {
    if a.Advance? {
      var th := w.threads[a.t];
      if th.phase.Fresh? {
        InsertKeepsUnique(w.shared.list, Entry(th.phase.target.path, th.phase.target.ino, a.saved));
      } else if th.phase.Placed? {
        RemoveKeepsUnique(w.shared.list, th.phase.target.path);
      }
    }
  }

  /** Serialised adds keep every path at most once in the list, over every run. */
  lemma {:induction false} SerialisedAddsKeepUnique(env: Env, ws: seq<World>, acts: seq<Action>, n: nat)
    requires IsRun(env, ws, acts) && n < |ws|
    requires forall i :: 0 <= i < n ==> AddsSerialised(ws[i])
    ensures NoDuplicates(ws[n])
  {
    if n > 0 {
      SerialisedAddsKeepUnique(env, ws, acts, n - 1);
      RunStep(env, ws, acts, n);
      StepKeepsNoDuplicates(env, ws[n - 1], acts[n - 1]);
    }
  }

  /** Whenever two calls have both found the same path absent, letting both
      insert lists it twice. */
  lemma OverlappingAddsDuplicate(env: Env, w: World, t: Tid, u: Tid, a: Attr, b: Attr)
    requires LookupFits(env) && t in w.threads && u in w.threads && t != u
    requires w.threads[t].phase.Fresh? && w.threads[u].phase.Fresh?
    requires w.threads[t].phase.target.path == w.threads[u].phase.target.path
    ensures Enabled(w, Advance(t, a)) && Enabled(Do(env, w, Advance(t, a)), Advance(u, b))
    ensures !UniquePaths(Do(env, Do(env, w, Advance(t, a)), Advance(u, b)).shared.list)
  {
    var w1 := Do(env, w, Advance(t, a));
    var w2 := Do(env, w1, Advance(u, b));
    assert w2.shared.list[0].path == w2.shared.list[1].path;
  }

  /** A call that has passed its state check goes on to change the list even if
      the monitor has meanwhile left reconfiguration mode. */
  lemma InsertionAfterModeChange(env: Env, w: World, t: Tid, u: Tid, saved: Attr)
    requires LookupFits(env) && t in w.threads && u in w.threads && t != u && w.threads[t].phase.Fresh?
    requires w.threads[u].phase.Proved? && w.threads[u].call.StateCall? && w.threads[u].call.st == ON
    requires w.shared.state == REC_ON
    ensures Enabled(w, Advance(u, saved)) && Enabled(Do(env, w, Advance(u, saved)), Advance(t, saved))
    ensures var w1 := Do(env, w, Advance(u, saved));
            var w2 := Do(env, w1, Advance(t, saved));
            w1.shared.state == w2.shared.state == ON && w2.shared.list != w1.shared.list
  {
    var w1 := Do(env, w, Advance(u, saved));
    var w2 := Do(env, w1, Advance(t, saved));
    assert |w2.shared.list| == |w1.shared.list| + 1;
  }

  // ------------------------------------------------ runs in which this happens

  ghost function Last(ws: seq<World>): World
    requires ws != []
  {
    ws[|ws| - 1]
  }

  lemma Extend(env: Env, ws: seq<World>, acts: seq<Action>, a: Action) returns (ws': seq<World>, acts': seq<Action>)
    requires IsRun(env, ws, acts) && Enabled(Last(ws), a)
    ensures IsRun(env, ws', acts') && Last(ws') == Do(env, Last(ws), a)
    ensures |acts'| == |acts| + 1 && ws'[|acts|] == Last(ws)
  {
    ws', acts' := ws + [Do(env, Last(ws), a)], acts + [a];
    forall i | 0 <= i < |acts'| ensures Enabled(ws'[i], acts'[i]) && ws'[i + 1] == Do(env, ws'[i], acts'[i]) {
      if i < |acts| { assert ws[i + 1] == Do(env, ws[i], acts[i]); }
    }
  }

  /** A call by the administrator with the right password comes as far as its
      proof, and nothing else changes. */
  lemma RunToProved(env: Env, ws: seq<World>, acts: seq<Action>, t: Tid, call: Call)
    returns (ws': seq<World>, acts': seq<Action>)
    requires IsRun(env, ws, acts) && t !in Last(ws).threads && ArgumentsOk(call)
    requires PasswordOk(env, Last(ws).shared.digest, PasswordOf(call))
    ensures IsRun(env, ws', acts')
    ensures Last(ws') == Last(ws).(threads := Last(ws).threads[t := Thread(env.admin, call, Proved)])
  {
    ws', acts' := Extend(env, ws, acts, Enter(t, env.admin, call));
    ws', acts' := Extend(env, ws', acts', Advance(t, Attr(0, 0)));
    ws', acts' := Extend(env, ws', acts', Advance(t, Attr(0, 0)));
  }

  /** The buffer that holds a path and nothing else. */
  function Alone(path: string): NameBuffer
    requires |path| < PATH_MAX
  {
    path + CString.Zeros(PATH_MAX - |path|)
  }

  ghost predicate Addable(env: Env, t: Target) {
    && "/" <= t.path && |t.path| < PATH_MAX && CString.NUL !in t.path
    && env.resolve(t.path) == Some(t) && !Forbidden(env, t.path)
  }

  lemma AloneIsFound(env: Env, t: Target)
    requires LookupFits(env) && Canonical(env) && Addable(env, t)
    ensures LookUp(env, Alone(t.path)) == Found(t)
  {
    assert CString.Padded(Alone(t.path), t.path);
    PaddedKeepsName(env, Alone(t.path), t.path);
    SameLookupIff(env, Alone(t.path));
  }

  /** An addition of an unlisted path comes as far as its membership test. */
  lemma RunToFresh(env: Env, ws: seq<World>, acts: seq<Action>, t: Tid, pwd: string, target: Target)
    returns (ws': seq<World>, acts': seq<Action>)
    requires IsRun(env, ws, acts) && t !in Last(ws).threads && Reconfigurable(Last(ws).shared.state)
    requires env.hash(pwd) == Last(ws).shared.digest && Canonical(env) && Addable(env, target)
    requires !HasPath(Last(ws).shared.list, target.path)
    ensures IsRun(env, ws', acts')
    ensures Last(ws') == Last(ws).(threads := Last(ws).threads[t :=
              Thread(env.admin, PathCall(Some(pwd), Some(Alone(target.path)), ADD_PATH), Fresh(target))])
  {
    AloneIsFound(env, target);
    ws', acts' := RunAddition(env, ws, acts, t, PathCall(Some(pwd), Some(Alone(target.path)), ADD_PATH), target);
  }

  lemma RunAddition(env: Env, ws: seq<World>, acts: seq<Action>, t: Tid, call: Call, target: Target)
    returns (ws': seq<World>, acts': seq<Action>)
    requires IsRun(env, ws, acts) && t !in Last(ws).threads && Reconfigurable(Last(ws).shared.state)
    requires call.PathCall? && call.op == ADD_PATH && call.buffer.Some?
    requires PasswordOk(env, Last(ws).shared.digest, call.pwd)
    requires LookUp(env, call.buffer.value) == Found(target) && !HasPath(Last(ws).shared.list, target.path)
    ensures IsRun(env, ws', acts')
    ensures Last(ws') == Last(ws).(threads := Last(ws).threads[t := Thread(env.admin, call, Fresh(target))])
  {
    AddSteps(env, Last(ws).shared, call, target);
    ws', acts' := RunToProved(env, ws, acts, t, call);
    ws', acts' := AdvanceTo(env, ws', acts', t, Observed);
    ws', acts' := AdvanceTo(env, ws', acts', t, Placed(target));
    ws', acts' := AdvanceTo(env, ws', acts', t, Fresh(target));
  }

  /** The phases of an addition from its password check to its membership test. */
  lemma AddSteps(env: Env, sh: Shared, call: Call, target: Target)
    requires LookupFits(env) && call.PathCall? && call.op == ADD_PATH && call.buffer.Some?
    requires LookUp(env, call.buffer.value) == Found(target)
    requires Reconfigurable(sh.state) && !HasPath(sh.list, target.path)
    ensures StepOf(env, sh, Thread(env.admin, call, Proved), Attr(0, 0)) == (Observed, sh)
    ensures StepOf(env, sh, Thread(env.admin, call, Observed), Attr(0, 0)) == (Placed(target), sh)
    ensures StepOf(env, sh, Thread(env.admin, call, Placed(target)), Attr(0, 0)) == (Fresh(target), sh)
  {
  }

  /** A step of a call that changes nothing but its phase. */
  lemma AdvanceTo(env: Env, ws: seq<World>, acts: seq<Action>, t: Tid, phase: Phase)
    returns (ws': seq<World>, acts': seq<Action>)
    requires IsRun(env, ws, acts) && t in Last(ws).threads && !Last(ws).threads[t].phase.Returned?
    requires StepOf(env, Last(ws).shared, Last(ws).threads[t], Attr(0, 0)) == (phase, Last(ws).shared)
    ensures IsRun(env, ws', acts')
    ensures Last(ws') == Last(ws).(threads := Last(ws).threads[t := Last(ws).threads[t].(phase := phase)])
  {
    ws', acts' := Extend(env, ws, acts, Advance(t, Attr(0, 0)));
  }

  ghost function Begin(digest: string): World {
    World(Shared(REC_ON, digest, []), map[])
  }

  /** A run that ends with one path listed twice. */
  lemma DuplicateRun(env: Env, pwd: string, target: Target) returns (ws: seq<World>, acts: seq<Action>)
    requires LookupFits(env) && Canonical(env) && Addable(env, target)
    ensures IsRun(env, ws, acts) && !UniquePaths(Last(ws).shared.list)
  {
    ws, acts := [Begin(env.hash(pwd))], [];
    ws, acts := RunToFresh(env, ws, acts, 1, pwd, target);
    ws, acts := RunToFresh(env, ws, acts, 2, pwd, target);
    OverlappingAddsDuplicate(env, Last(ws), 1, 2, Attr(0, 0), Attr(0, 0));
    ws, acts := Extend(env, ws, acts, Advance(1, Attr(0, 0)));
    ws, acts := Extend(env, ws, acts, Advance(2, Attr(0, 0)));
  }

  /** A run whose last step changes the list while the monitor is ON. */
  lemma LateInsertionRun(env: Env, pwd: string, target: Target) returns (ws: seq<World>, acts: seq<Action>)
    requires LookupFits(env) && Canonical(env) && Addable(env, target)
    ensures IsRun(env, ws, acts) && |acts| > 0
    ensures ws[|acts| - 1].shared.state == ON && ws[|acts|].shared.list != ws[|acts| - 1].shared.list
  {
    ws, acts := [Begin(env.hash(pwd))], [];
    ws, acts := RunToFresh(env, ws, acts, 1, pwd, target);
    ws, acts := RunToProved(env, ws, acts, 2, StateCall(Some(pwd), ON));
    InsertionAfterModeChange(env, Last(ws), 1, 2, Attr(0, 0));
    ws, acts := Extend(env, ws, acts, Advance(2, Attr(0, 0)));
    ws, acts := Extend(env, ws, acts, Advance(1, Attr(0, 0)));
  }
}
