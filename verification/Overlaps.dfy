/** Hooks, additions, removals and state changes that overlap, cut into the steps
    at which they read or write the list and the inodes: a hook looks the list up
    and marks later, an addition saves attributes and inserts later, a state
    change disables the hooks and then restores one entry after the other. */
module Overlaps {
  import opened KernelTypes
  import InodeMark
  import opened PathList
  import opened Monitor
  import Removal

  type Tid = nat

  /** A hook has fired, or has found an inode listed and is about to mark it. */
  datatype HookPhase = Fired | Found(ino: nat)

  /** `adds` holds what additions have saved and not yet inserted; `restoring` is
      the place a state change has reached in its restoration, during which it
      holds the locks for the state and the list. */
  datatype World = World(
    m: MState,
    hooks: map<Tid, HookPhase>,
    adds: map<Tid, Entry>,
    restoring: Option<nat>)

  datatype Action =
    | Fire(t: Tid)
    | Find(t: Tid, ino: nat)
    | Miss(t: Tid)
    | MarkIt(t: Tid)
    | Save(t: Tid, target: Target)
    | Insert(t: Tid)
    | Take(k: nat)
    | Switch(st: int)
    | RestoreNext
    | Finish

  ghost predicate Enabled(env: Env, w: World, a: Action) {
    match a
    case Fire(t) => t !in w.hooks && HooksOn(w.m.state)
    case Find(t, ino) => t in w.hooks && w.hooks[t].Fired? && HasIno(w.m.list, ino)
    case Miss(t) => t in w.hooks && w.hooks[t].Fired?
    case MarkIt(t) => t in w.hooks && w.hooks[t].Found?
    case Save(t, target) =>
      && t !in w.adds && LeadsTo(env, target.path, target.ino) && !Forbidden(env, target.path)
      && target.ino in w.m.attrs
    case Insert(t) => t in w.adds && w.restoring.None? && !HasPath(w.m.list, w.adds[t].path)
    case Take(k) => k < |w.m.list| && w.restoring.None?
    case Switch(st) => ValidState(st) && st != w.m.state && w.restoring.None?
    case RestoreNext => w.restoring.Some? && w.restoring.value < |w.m.list|
    case Finish => w.restoring == Some(|w.m.list|)
  }

  ghost function Do(env: Env, w: World, a: Action): World
    requires Enabled(env, w, a)
  {
    match a
    case Fire(t) => w.(hooks := w.hooks[t := Fired])
    case Find(t, ino) => w.(hooks := w.hooks[t := Found(ino)])
    case Miss(t) => w.(hooks := w.hooks - {t})
    case MarkIt(t) => w.(m := Mark(w.m, w.hooks[t].ino), hooks := w.hooks - {t})
    case Save(t, target) => w.(adds := w.adds[t := Entry(target.path, target.ino, w.m.attrs[target.ino])])
    case Insert(t) => w.(m := w.m.(list := [w.adds[t]] + w.m.list), adds := w.adds - {t})
    case Take(k) => w.(m := RemoveAt(env, w.m, k))
    case Switch(st) =>
      w.(m := w.m.(state := st, hooks := seq(HOOKS_SIZE, _ => HooksOn(st))),
         restoring := if HooksOn(st) then None else Some(0))
    case RestoreNext =>
      w.(m := w.m.(attrs := RestoreOne(env, w.m.list[w.restoring.value], w.m.attrs)),
         restoring := Some(w.restoring.value + 1))
    case Finish => w.(restoring := None)
  }

  // ---------------------------------------------------------------- invariant

  /** Untouched, or marked with an entry of the inode still to be restored. */
  ghost predicate InodeRestorable(m: MState, base: map<nat, Attr>, k: nat, ino: nat)
    requires ino in base && ino in m.attrs && k <= |m.list|
  {
    m.attrs[ino] == base[ino] || (m.attrs[ino] == InodeMark.MarkAttr(base[ino]) && HasIno(m.list[k..], ino))
  }

  ghost predicate Restorable(env: Env, m: MState, base: map<nat, Attr>, k: nat) {
    && ValidState(m.state) && !HooksOn(m.state)
    && m.hooks == seq(HOOKS_SIZE, _ => false)
    && m.attrs.Keys == base.Keys
    && InodesKnown(env, m)
    && EntriesOk(env, m, base)
    && k <= |m.list|
    && (forall ino :: ino in base ==> InodeRestorable(m, base, k, ino))
  }

  ghost predicate HookOk(w: World, t: Tid)
    requires t in w.hooks
  {
    HooksOn(w.m.state) && (w.hooks[t].Found? ==> HasIno(w.m.list, w.hooks[t].ino))
  }

  ghost predicate AddOk(env: Env, w: World, base: map<nat, Attr>, e: Entry) {
    EntryOk(env, e, base) && (e.saved == base[e.ino] || HasIno(w.m.list, e.ino))
  }

  ghost predicate Settled(env: Env, w: World, base: map<nat, Attr>) {
    if w.restoring.None? then Inv(env, w.m, base) else Restorable(env, w.m, base, w.restoring.value)
  }

  ghost predicate WorldInv(env: Env, w: World, base: map<nat, Attr>) {
    && Settled(env, w, base)
    && (forall t :: t in w.hooks ==> HookOk(w, t))
    && (forall t :: t in w.adds ==> AddOk(env, w, base, w.adds[t]))
  }

  // ------------------------------------------- which overlaps have to be excluded

  /** No hook is about to mark this inode, and what additions of it have saved is
      what the entry about to go has saved. */
  ghost predicate NobodyNear(w: World, e: Entry) {
    && (forall t :: t in w.hooks ==> w.hooks[t] != Found(e.ino))
    && (forall t :: t in w.adds && w.adds[t].ino == e.ino ==> w.adds[t].saved == e.saved)
  }

  /** Switching off must not overlap a hook; taking out the only entry of an inode
      must not overlap a hook that has found it or an addition that has saved its
      mark; and a removal has to be safe in itself. */
  ghost predicate Harmless(w: World, a: Action) {
    match a
    case Switch(st) => HooksOn(st) || w.hooks == map[]
    case Take(k) =>
      k < |w.m.list| ==>
        && Removal.RemovalSafe(w.m, k)
        && (HasIno(Cut(w.m.list, k), w.m.list[k].ino) || NobodyNear(w, w.m.list[k]))
    case _ => true
  }

  lemma HookStepKeepsInv(env: Env, w: World, base: map<nat, Attr>, a: Action)
    requires WorldInv(env, w, base) && Enabled(env, w, a) && (a.Fire? || a.Find? || a.Miss? || a.MarkIt?)
    ensures WorldInv(env, Do(env, w, a), base)
  {
    var w' := Do(env, w, a);
    if !a.Fire? { assert HookOk(w, a.t); }
    if a.MarkIt? { MarkKeepsInv(env, w.m, base, w.hooks[a.t].ino); }
    forall t | t in w'.hooks ensures HookOk(w', t) {
      if t in w.hooks { assert HookOk(w, t); }
    }
    forall t | t in w'.adds ensures AddOk(env, w', base, w'.adds[t]) { assert AddOk(env, w, base, w.adds[t]); }
  }

  lemma SuffixHasIno(l: seq<Entry>, k: nat, ino: nat)
    requires k <= |l| && HasIno(l[k..], ino)
    ensures HasIno(l, ino)
  {
    var i :| 0 <= i < |l[k..]| && l[k..][i].ino == ino;
    assert l[k + i].ino == ino;
  }

  lemma SaveKeepsInv(env: Env, w: World, base: map<nat, Attr>, a: Action)
    requires WorldInv(env, w, base) && Enabled(env, w, a) && a.Save?
    ensures WorldInv(env, Do(env, w, a), base)
  {
    var w', ino := Do(env, w, a), a.target.ino;
    assert AddOk(env, w, base, w'.adds[a.t]) by {
      if w.restoring.None? {
        assert InodeOk(w.m, base, ino);
      } else {
        assert InodeRestorable(w.m, base, w.restoring.value, ino);
        if HasIno(w.m.list[w.restoring.value..], ino) { SuffixHasIno(w.m.list, w.restoring.value, ino); }
      }
    }
    forall t | t in w'.adds ensures AddOk(env, w', base, w'.adds[t]) {
      if t != a.t { assert AddOk(env, w, base, w.adds[t]); }
    }
    forall t | t in w'.hooks ensures HookOk(w', t) { assert HookOk(w, t); }
  }

  lemma InsertStepKeepsInv(env: Env, w: World, base: map<nat, Attr>, a: Action)
    requires WorldInv(env, w, base) && Enabled(env, w, a) && a.Insert?
    ensures WorldInv(env, Do(env, w, a), base)
  {
    var w', e := Do(env, w, a), w.adds[a.t];
    assert AddOk(env, w, base, e);
    InsertKeepsInv(env, w.m, base, e);
    forall ino | HasIno(w.m.list, ino) ensures HasIno(w'.m.list, ino) { PushIno(e, w.m.list, ino); }
    forall t | t in w'.hooks ensures HookOk(w', t) { assert HookOk(w, t); }
    forall t | t in w'.adds ensures AddOk(env, w', base, w'.adds[t]) { assert AddOk(env, w, base, w.adds[t]); }
  }

  lemma SwitchOnKeepsInv(env: Env, w: World, base: map<nat, Attr>, a: Action)
    requires WorldInv(env, w, base) && Enabled(env, w, a) && a.Switch? && HooksOn(a.st)
    ensures WorldInv(env, Do(env, w, a), base)
  {
    var w' := Do(env, w, a);
    SetStateKeepsInv(env, w.m, base, a.st);
    forall t | t in w'.adds ensures AddOk(env, w', base, w'.adds[t]) { assert AddOk(env, w, base, w.adds[t]); }
    forall t | t in w'.hooks ensures HookOk(w', t) { assert HookOk(w, t); }
  }

  lemma SwitchOffSettles(env: Env, w: World, base: map<nat, Attr>, a: Action)
    requires WorldInv(env, w, base) && Enabled(env, w, a) && a.Switch? && !HooksOn(a.st)
    ensures Settled(env, Do(env, w, a), base)
    ensures forall t :: t in w.adds ==> AddOk(env, Do(env, w, a), base, w.adds[t])
  {
    var w' := Do(env, w, a);
    assert w.m.list[0..] == w.m.list;
    forall ino | ino in base ensures InodeRestorable(w'.m, base, 0, ino) { assert InodeOk(w.m, base, ino); }
    forall t | t in w.adds ensures AddOk(env, w', base, w.adds[t]) { assert AddOk(env, w, base, w.adds[t]); }
  }

  lemma SwitchKeepsInvIff(env: Env, w: World, base: map<nat, Attr>, a: Action)
    requires WorldInv(env, w, base) && Enabled(env, w, a) && a.Switch?
    ensures WorldInv(env, Do(env, w, a), base) <==> Harmless(w, a)
  {
    if HooksOn(a.st) {
      SwitchOnKeepsInv(env, w, base, a);
    } else {
      SwitchOffSettles(env, w, base, a);
      if w.hooks != map[] {
        var t :| t in w.hooks;
        assert !HookOk(Do(env, w, a), t);
      }
    }
  }

  /** The other entries keep their inodes on the list. */
  lemma CutKeepsIno(l: seq<Entry>, k: nat, ino: nat)
    requires k < |l|
    ensures ino != l[k].ino ==> (HasIno(Cut(l, k), ino) <==> HasIno(l, ino))
  {
    if ino != l[k].ino && HasIno(l, ino) {
      var i: nat :| i < |l| && l[i].ino == ino;
      Removal.CutHasIno(l, k, i);
    }
    if HasIno(Cut(l, k), ino) {
      var i: nat :| i < |l| - 1 && Cut(l, k)[i].ino == ino;
      Removal.CutIndex(l, k, i);
      assert l[if i < k then i else i + 1].ino == ino;
    }
  }

  /** The only entry of an inode is its oldest, and saved its own attributes. */
  lemma OnlyEntrySavedBase(env: Env, m: MState, base: map<nat, Attr>, k: nat)
    requires Inv(env, m, base) && k < |m.list| && !HasIno(Cut(m.list, k), m.list[k].ino)
    ensures m.list[k].ino in base && m.list[k].saved == base[m.list[k].ino]
  {
    assert EntryOk(env, m.list[k], base);
    forall j: nat | k < j < |m.list| ensures m.list[j].ino != m.list[k].ino {
      Removal.CutHasIno(m.list, k, j);
    }
    assert IsOldest(m.list, k);
  }

  lemma TakeKeepsHooksIff(w: World, env: Env, k: nat, t: Tid)
    requires Enabled(env, w, Take(k)) && t in w.hooks && HookOk(w, t)
    ensures HookOk(Do(env, w, Take(k)), t) <==>
            HasIno(Cut(w.m.list, k), w.m.list[k].ino) || w.hooks[t] != Found(w.m.list[k].ino)
  {
    if w.hooks[t].Found? { CutKeepsIno(w.m.list, k, w.hooks[t].ino); }
  }

  lemma TakeKeepsAddsIff(w: World, env: Env, base: map<nat, Attr>, k: nat, t: Tid)
    requires Enabled(env, w, Take(k)) && Inv(env, w.m, base) && t in w.adds && AddOk(env, w, base, w.adds[t])
    ensures var e, l := w.adds[t], w.m.list;
            AddOk(env, Do(env, w, Take(k)), base, e) <==>
              HasIno(Cut(l, k), l[k].ino) || (e.ino == l[k].ino ==> e.saved == l[k].saved)
  {
    CutKeepsIno(w.m.list, k, w.adds[t].ino);
    if !HasIno(Cut(w.m.list, k), w.m.list[k].ino) { OnlyEntrySavedBase(env, w.m, base, k); }
  }

  lemma TakeKeepsAllHooksIff(w: World, env: Env, k: nat)
    requires Enabled(env, w, Take(k)) && forall t :: t in w.hooks ==> HookOk(w, t)
    ensures (forall t :: t in w.hooks ==> HookOk(Do(env, w, Take(k)), t)) <==>
            HasIno(Cut(w.m.list, k), w.m.list[k].ino)
            || forall t :: t in w.hooks ==> w.hooks[t] != Found(w.m.list[k].ino)
  {
    forall t | t in w.hooks
      ensures HookOk(Do(env, w, Take(k)), t) <==>
              HasIno(Cut(w.m.list, k), w.m.list[k].ino) || w.hooks[t] != Found(w.m.list[k].ino)
    {
      TakeKeepsHooksIff(w, env, k, t);
    }
  }

  lemma TakeKeepsAllAddsIff(w: World, env: Env, base: map<nat, Attr>, k: nat)
    requires Enabled(env, w, Take(k)) && Inv(env, w.m, base)
    requires forall t :: t in w.adds ==> AddOk(env, w, base, w.adds[t])
    ensures (forall t :: t in w.adds ==> AddOk(env, Do(env, w, Take(k)), base, w.adds[t])) <==>
            HasIno(Cut(w.m.list, k), w.m.list[k].ino)
            || forall t :: t in w.adds && w.adds[t].ino == w.m.list[k].ino ==> w.adds[t].saved == w.m.list[k].saved
  {
    forall t | t in w.adds
      ensures AddOk(env, Do(env, w, Take(k)), base, w.adds[t]) <==>
              HasIno(Cut(w.m.list, k), w.m.list[k].ino)
              || (w.adds[t].ino == w.m.list[k].ino ==> w.adds[t].saved == w.m.list[k].saved)
    {
      TakeKeepsAddsIff(w, env, base, k, t);
    }
  }

  lemma TakeKeepsInvIff(env: Env, w: World, base: map<nat, Attr>, k: nat)
    requires WorldInv(env, w, base) && Enabled(env, w, Take(k))
    ensures WorldInv(env, Do(env, w, Take(k)), base) <==> Harmless(w, Take(k))
  {
    Removal.RemovalKeepsInvIff(env, w.m, base, k);
    TakeKeepsAllHooksIff(w, env, k);
    TakeKeepsAllAddsIff(w, env, base, k);
  }

  lemma RestoreNextInode(env: Env, m: MState, base: map<nat, Attr>, k: nat, ino: nat)
    requires Restorable(env, m, base, k) && k < |m.list| && ino in base
    ensures var m' := m.(attrs := RestoreOne(env, m.list[k], m.attrs));
            ino in m'.attrs && InodeRestorable(m', base, k + 1, ino)
  {
    var l := m.list;
    assert EntryOk(env, l[k], base) && InodeRestorable(m, base, k, ino);
    if ino == l[k].ino && !IsOldest(l, k) {
      var j :| k < j < |l| && l[j].ino == ino;
      assert l[k + 1..][j - k - 1].ino == ino;
    } else if ino != l[k].ino && HasIno(l[k..], ino) {
      var j :| 0 <= j < |l[k..]| && l[k..][j].ino == ino;
      assert l[k + 1..][j - 1].ino == ino;
    }
  }

  lemma RestoreStepKeepsInv(env: Env, w: World, base: map<nat, Attr>, a: Action)
    requires WorldInv(env, w, base) && Enabled(env, w, a) && (a.RestoreNext? || a.Finish?)
    ensures WorldInv(env, Do(env, w, a), base)
  {
    var w', k := Do(env, w, a), w.restoring.value;
    if a.RestoreNext? {
      assert EntryOk(env, w.m.list[k], base);
      forall ino | ino in base ensures ino in w'.m.attrs && InodeRestorable(w'.m, base, k + 1, ino) {
        RestoreNextInode(env, w.m, base, k, ino);
      }
    } else {
      forall ino | ino in base ensures InodeOk(w'.m, base, ino) { assert InodeRestorable(w.m, base, k, ino); }
    }
    forall t | t in w'.adds ensures AddOk(env, w', base, w'.adds[t]) { assert AddOk(env, w, base, w.adds[t]); }
  }

  /** A step keeps the invariant if and only if it is harmless: these overlaps,
      and no others, have to be excluded. */
  lemma StepKeepsInvIff(env: Env, w: World, base: map<nat, Attr>, a: Action)
    requires WorldInv(env, w, base) && Enabled(env, w, a)
    ensures WorldInv(env, Do(env, w, a), base) <==> Harmless(w, a)
  {
    match a {
      case Save(_, _) => SaveKeepsInv(env, w, base, a);
      case Insert(_) => InsertStepKeepsInv(env, w, base, a);
      case Take(k) => TakeKeepsInvIff(env, w, base, k);
      case Switch(_) => SwitchKeepsInvIff(env, w, base, a);
      case RestoreNext => RestoreStepKeepsInv(env, w, base, a);
      case Finish => RestoreStepKeepsInv(env, w, base, a);
      case _ => HookStepKeepsInv(env, w, base, a);
    }
  }

  // --------------------------------------------------------------------- runs

  ghost predicate IsRun(env: Env, ws: seq<World>, acts: seq<Action>) {
    && |ws| == |acts| + 1
    && forall i :: 0 <= i < |acts| ==> Enabled(env, ws[i], acts[i]) && ws[i + 1] == Do(env, ws[i], acts[i])
  }

  ghost function Start(env: Env, password: string, base: map<nat, Attr>): World {
    World(Loaded(env, password, base), map[], map[], None)
  }

  /** In every run without these overlaps, once a switch to OFF or REC_OFF has
      finished restoring and until the hooks are switched on again, every inode
      has its own attributes. */
  lemma {:induction false} OffMeansUntouchedOverRuns(
      env: Env, base: map<nat, Attr>, password: string, ws: seq<World>, acts: seq<Action>, n: nat)
    requires IsRun(env, ws, acts) && n < |ws| && Knows(env, base) && ws[0] == Start(env, password, base)
    requires forall i :: 0 <= i < n ==> Harmless(ws[i], acts[i])
    ensures WorldInv(env, ws[n], base)
    ensures !HooksOn(ws[n].m.state) && ws[n].restoring.None? ==> ws[n].m.attrs == base
  {
    if n == 0 {
      LoadedInv(env, password, base);
    } else {
      OffMeansUntouchedOverRuns(env, base, password, ws, acts, n - 1);
      assert ws[n - 1 + 1] == Do(env, ws[n - 1], acts[n - 1]);
      StepKeepsInvIff(env, ws[n - 1], base, acts[n - 1]);
    }
    if !HooksOn(ws[n].m.state) && ws[n].restoring.None? { OffMeansUntouched(env, ws[n].m, base); }
  }

  // --------------------------------------------- what the excluded overlaps do

  ghost function Last(ws: seq<World>): World
    requires ws != []
  {
    ws[|ws| - 1]
  }

  lemma Extend(env: Env, ws: seq<World>, acts: seq<Action>, a: Action) returns (ws': seq<World>, acts': seq<Action>)
    requires IsRun(env, ws, acts) && Enabled(env, Last(ws), a)
    ensures IsRun(env, ws', acts') && ws'[0] == ws[0] && Last(ws') == Do(env, Last(ws), a)
  {
    ws', acts' := ws + [Do(env, Last(ws), a)], acts + [a];
    forall i | 0 <= i < |acts'| ensures Enabled(env, ws'[i], acts'[i]) && ws'[i + 1] == Do(env, ws'[i], acts'[i]) {
      if i < |acts| { assert ws[i + 1] == Do(env, ws[i], acts[i]); }
    }
  }

  /** A restoration that is under way can run to its end. */
  lemma {:induction false} FinishRestoring(env: Env, ws: seq<World>, acts: seq<Action>)
    returns (ws': seq<World>, acts': seq<Action>)
    requires IsRun(env, ws, acts) && Last(ws).restoring.Some? && Last(ws).restoring.value <= |Last(ws).m.list|
    ensures IsRun(env, ws', acts') && ws'[0] == ws[0]
    ensures var w := Last(ws);
            Last(ws') == w.(restoring := None,
                            m := w.m.(attrs := RestoreAll(env, w.m.list[w.restoring.value..], w.m.attrs)))
    decreases |Last(ws).m.list| - Last(ws).restoring.value
  {
    var w := Last(ws);
    var k := w.restoring.value;
    if k == |w.m.list| {
      ws', acts' := Extend(env, ws, acts, Finish);
    } else {
      assert w.m.list[k..][1..] == w.m.list[k + 1..];
      ws', acts' := Extend(env, ws, acts, RestoreNext);
      ws', acts' := FinishRestoring(env, ws', acts');
    }
  }

  /** Some state other than the present one in which the hooks are off. */
  function OtherOff(st: int): (r: int)
    ensures ValidState(r) && !HooksOn(r) && r != st
  {
    if st == OFF then REC_OFF else OFF
  }

  /** Switching off without a step of anyone else is the one-step state change. */
  lemma SwitchOffAndRestore(env: Env, ws: seq<World>, acts: seq<Action>)
    returns (ws': seq<World>, acts': seq<Action>)
    requires IsRun(env, ws, acts) && Last(ws).restoring.None?
    ensures IsRun(env, ws', acts') && ws'[0] == ws[0]
    ensures var w, w' := Last(ws), Last(ws');
            w' == w.(m := SetState(env, w.m, OtherOff(w.m.state)))
  {
    assert Last(ws).m.list[0..] == Last(ws).m.list;
    ws', acts' := Extend(env, ws, acts, Switch(OtherOff(Last(ws).m.state)));
    ws', acts' := FinishRestoring(env, ws', acts');
  }

  /** Saving and inserting at once is the one-step addition. */
  lemma UndisturbedAdd(env: Env, w: World, t: Tid, target: Target)
    requires Enabled(env, w, Save(t, target)) && w.restoring.None? && !HasPath(w.m.list, target.path)
    ensures var w1 := Do(env, w, Save(t, target));
            && Enabled(env, w1, Insert(t)) && AddPath(w.m, target).1 == 0
            && Do(env, w1, Insert(t)) == w.(m := AddPath(w.m, target).0)
  {
  }

  /** A hook that fires, finds and marks at once leaves the one-step mark. */
  lemma UndisturbedMark(env: Env, w: World, t: Tid, ino: nat)
    requires t !in w.hooks && HooksOn(w.m.state) && HasIno(w.m.list, ino)
    ensures var w1 := Do(env, w, Fire(t));
            var w2 := Do(env, w1, Find(t, ino));
            Enabled(env, w2, MarkIt(t)) && Do(env, w2, MarkIt(t)) == w.(m := Mark(w.m, ino))
  {
  }

  /** The monitor is off, nothing is being restored, and this inode is marked. */
  ghost predicate MarkedOff(w: World, base: map<nat, Attr>, ino: nat) {
    && !HooksOn(w.m.state) && w.restoring.None?
    && ino in base && ino in w.m.attrs && w.m.attrs[ino] == InodeMark.MarkAttr(base[ino])
  }

  /** Whenever a hook has found an inode listed, switching off before it marks
      leaves the inode marked with the monitor off. */
  lemma MarkedWhileOff(env: Env, base: map<nat, Attr>, ws: seq<World>, acts: seq<Action>, t: Tid)
    returns (ws': seq<World>, acts': seq<Action>)
    requires IsRun(env, ws, acts) && WorldInv(env, Last(ws), base)
    requires t in Last(ws).hooks && Last(ws).hooks[t].Found?
    ensures IsRun(env, ws', acts') && ws'[0] == ws[0] && MarkedOff(Last(ws'), base, Last(ws).hooks[t].ino)
  {
    var w := Last(ws);
    assert HookOk(w, t);
    RestoreGivesBase(env, w.m, base);
    var i :| 0 <= i < |w.m.list| && w.m.list[i].ino == w.hooks[t].ino;
    assert EntryOk(env, w.m.list[i], base);
    ws', acts' := SwitchOffAndRestore(env, ws, acts);
    ws', acts' := Extend(env, ws', acts', MarkIt(t));
  }

  /** The same for a hook that has only fired, and any inode it may find. */
  lemma FiredMarksWhileOff(
      env: Env, base: map<nat, Attr>, ws: seq<World>, acts: seq<Action>, t: Tid, ino: nat)
    returns (ws': seq<World>, acts': seq<Action>)
    requires IsRun(env, ws, acts) && WorldInv(env, Last(ws), base)
    requires t in Last(ws).hooks && Last(ws).hooks[t].Fired? && HasIno(Last(ws).m.list, ino)
    ensures IsRun(env, ws', acts') && ws'[0] == ws[0] && MarkedOff(Last(ws'), base, ino)
  {
    var w := Last(ws);
    assert HookOk(w, t);
    RestoreGivesBase(env, w.m, base);
    var i :| 0 <= i < |w.m.list| && w.m.list[i].ino == ino;
    assert EntryOk(env, w.m.list[i], base);
    ws', acts' := SwitchOffAndRestore(env, ws, acts);
    ws', acts' := Extend(env, ws', acts', Find(t, ino));
    ws', acts' := Extend(env, ws', acts', MarkIt(t));
  }

  /** Whenever a hook has found an inode listed, taking out the inode's only entry
      before it marks leaves the inode marked for good: no restoration reaches it. */
  lemma MarkedUnlisted(env: Env, base: map<nat, Attr>, ws: seq<World>, acts: seq<Action>, t: Tid, k: nat)
    returns (ws': seq<World>, acts': seq<Action>)
    requires IsRun(env, ws, acts) && WorldInv(env, Last(ws), base) && k < |Last(ws).m.list|
    requires t in Last(ws).hooks && Last(ws).hooks[t] == Found(Last(ws).m.list[k].ino)
    requires !HasIno(Cut(Last(ws).m.list, k), Last(ws).m.list[k].ino)
    ensures IsRun(env, ws', acts') && ws'[0] == ws[0] && MarkedOff(Last(ws'), base, Last(ws).m.list[k].ino)
    ensures !HasIno(Last(ws').m.list, Last(ws).m.list[k].ino)
  {
    var w := Last(ws);
    assert HookOk(w, t) && EntryOk(env, w.m.list[k], base);
    OnlyEntrySavedBase(env, w.m, base, k);
    Removal.CutResolves(env, w.m, base, k);
    ws', acts' := Extend(env, ws, acts, Take(k));
    ws', acts' := Extend(env, ws', acts', MarkIt(t));
    RestoreGivesOldest(env, Last(ws').m.list, Last(ws').m.attrs);
    ws', acts' := SwitchOffAndRestore(env, ws', acts');
  }

  /** Whenever an addition has saved the mark of an inode, taking out the inode's
      only entry before it inserts makes the mark outlast every restoration. */
  lemma MarkSavedForGood(env: Env, base: map<nat, Attr>, ws: seq<World>, acts: seq<Action>, t: Tid, k: nat)
    returns (ws': seq<World>, acts': seq<Action>)
    requires IsRun(env, ws, acts) && WorldInv(env, Last(ws), base) && Last(ws).restoring.None?
    requires k < |Last(ws).m.list| && t in Last(ws).adds
    requires var w, e := Last(ws), Last(ws).m.list[k];
             && w.adds[t].ino == e.ino && w.adds[t].saved != e.saved && !HasPath(w.m.list, w.adds[t].path)
             && !HasIno(Cut(w.m.list, k), e.ino)
    ensures IsRun(env, ws', acts') && ws'[0] == ws[0] && MarkedOff(Last(ws'), base, Last(ws).adds[t].ino)
  {
    var w, e := Last(ws), Last(ws).adds[t];
    assert AddOk(env, w, base, e);
    OnlyEntrySavedBase(env, w.m, base, k);
    ws', acts' := Extend(env, ws, acts, Take(k));
    var l := Last(ws').m.list;
    forall i: nat | i < |l| ensures l[i].path != e.path { Removal.CutIndex(w.m.list, k, i); }
    Removal.CutResolves(env, w.m, base, k);
    ws', acts' := Extend(env, ws', acts', Insert(t));
    LoneEntryWins(env, e, l, Last(ws').m.attrs);
    ws', acts' := SwitchOffAndRestore(env, ws', acts');
  }

  lemma LoneEntryWins(env: Env, e: Entry, l: seq<Entry>, attrs: map<nat, Attr>)
    requires LeadsTo(env, e.path, e.ino) && e.ino in attrs && !HasIno(l, e.ino)
    requires Resolves(env, l) && forall i :: 0 <= i < |l| ==> l[i].ino in attrs
    ensures e.ino in RestoreAll(env, [e] + l, attrs) && RestoreAll(env, [e] + l, attrs)[e.ino] == e.saved
  {
    var l' := [e] + l;
    assert forall i :: 0 < i < |l'| ==> l'[i] == l[i - 1];
    RestoreGivesOldest(env, l', attrs);
    assert IsOldest(l', 0);
  }

  /** From loading on: two calls protect a file. */
  lemma RunToListed(env: Env, base: map<nat, Attr>, password: string, target: Target)
    returns (ws: seq<World>, acts: seq<Action>)
    requires Knows(env, base) && LeadsTo(env, target.path, target.ino) && !Forbidden(env, target.path)
    ensures IsRun(env, ws, acts) && ws[0] == Start(env, password, base) && target.ino in base
    ensures Last(ws) == World(Last(ws).m, map[], map[], None) && HooksOn(Last(ws).m.state)
    ensures Last(ws).m.list == [Entry(target.path, target.ino, base[target.ino])] && Last(ws).m.attrs == base
    ensures WorldInv(env, Last(ws), base)
  {
    assert env.resolve(target.path).value.ino in base;
    LoadedInv(env, password, base);
    var w := Start(env, password, base);
    ws, acts := [w], [];
    ws, acts := ExtendHarmless(env, base, ws, acts, Switch(REC_ON));
    ws, acts := ExtendHarmless(env, base, ws, acts, Save(1, target));
    ws, acts := ExtendHarmless(env, base, ws, acts, Insert(1));
  }

  /** Then a hook fires and finds it. */
  lemma RunToFound(env: Env, base: map<nat, Attr>, password: string, target: Target)
    returns (ws: seq<World>, acts: seq<Action>)
    requires Knows(env, base) && LeadsTo(env, target.path, target.ino) && !Forbidden(env, target.path)
    ensures IsRun(env, ws, acts) && ws[0] == Start(env, password, base) && target.ino in base
    ensures Last(ws) == World(Last(ws).m, map[2 := Found(target.ino)], map[], None) && HooksOn(Last(ws).m.state)
    ensures Last(ws).m.list == [Entry(target.path, target.ino, base[target.ino])] && Last(ws).m.attrs == base
    ensures WorldInv(env, Last(ws), base)
  {
    ws, acts := RunToListed(env, base, password, target);
    ws, acts := ExtendHarmless(env, base, ws, acts, Fire(2));
    assert Last(ws).m.list[0].ino == target.ino;
    ws, acts := ExtendHarmless(env, base, ws, acts, Find(2, target.ino));
  }

  lemma ExtendHarmless(env: Env, base: map<nat, Attr>, ws: seq<World>, acts: seq<Action>, a: Action)
    returns (ws': seq<World>, acts': seq<Action>)
    requires IsRun(env, ws, acts) && Enabled(env, Last(ws), a) && Harmless(Last(ws), a) && WorldInv(env, Last(ws), base)
    ensures IsRun(env, ws', acts') && ws'[0] == ws[0] && Last(ws') == Do(env, Last(ws), a)
    ensures WorldInv(env, Last(ws'), base)
  {
    StepKeepsInvIff(env, Last(ws), base, a);
    ws', acts' := Extend(env, ws, acts, a);
  }

  /** A run, from loading on, that ends with the monitor off and a file marked. */
  lemma MarkedWhileOffRun(env: Env, base: map<nat, Attr>, password: string, target: Target)
    returns (ws: seq<World>, acts: seq<Action>)
    requires Knows(env, base) && LeadsTo(env, target.path, target.ino) && !Forbidden(env, target.path)
    ensures IsRun(env, ws, acts) && ws[0] == Start(env, password, base) && MarkedOff(Last(ws), base, target.ino)
  {
    ws, acts := RunToFound(env, base, password, target);
    ws, acts := MarkedWhileOff(env, base, ws, acts, 2);
  }

  /** The same with hard links and without a hook under way: the second link is
      added while the first is removed. */
  lemma SavedMarkRun(env: Env, base: map<nat, Attr>, password: string, a: Target, b: Target)
    returns (ws: seq<World>, acts: seq<Action>)
    requires Knows(env, base) && a.ino == b.ino && a.path != b.path
    requires LeadsTo(env, a.path, a.ino) && !Forbidden(env, a.path)
    requires LeadsTo(env, b.path, b.ino) && !Forbidden(env, b.path)
    requires a.ino in base && base[a.ino] != InodeMark.MarkAttr(base[a.ino])
    ensures IsRun(env, ws, acts) && ws[0] == Start(env, password, base) && MarkedOff(Last(ws), base, a.ino)
  {
    ws, acts := RunToFound(env, base, password, a);
    ws, acts := ExtendHarmless(env, base, ws, acts, MarkIt(2));
    ws, acts := ExtendHarmless(env, base, ws, acts, Save(1, b));
    assert Cut(Last(ws).m.list, 0) == [];
    ws, acts := MarkSavedForGood(env, base, ws, acts, 1, 0);
  }
}
