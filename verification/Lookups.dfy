/** Lookups of the hooks and calls as readers of the list: what a traversal answers
    is what the monitor's one-step test says, as long as nobody changes the list. */
module Lookups {
  import opened KernelTypes
  import PathList
  import Monitor
  import opened RcuList
  import opened RcuRuns
  import Hooks

  /** What is looked for: a path and, for an open, the inode that it leads to. */
  function QueryOf(env: Monitor.Env, path: string, byInode: bool): Query {
    Query(path, if byInode && env.resolve(path).Some? then Some(env.resolve(path).value.ino) else None)
  }

  /** Some entry has what is looked for just if the path is listed. */
  lemma MatchIffListed(env: Monitor.Env, m: Monitor.MState, path: string, byInode: bool)
    ensures (exists i :: 0 <= i < |m.list| && Matches(QueryOf(env, path, byInode), m.list[i]))
            <==> Hooks.Listed(env, m, path, byInode)
  {
    var q := QueryOf(env, path, byInode);
    if i :| 0 <= i < |m.list| && Matches(q, m.list[i]) {
      assert PathList.HasPath(m.list, path) || PathList.HasIno(m.list, m.list[i].ino);
    }
    if i :| 0 <= i < |m.list| && m.list[i].path == path { assert Matches(q, m.list[i]); }
    if byInode && env.resolve(path).Some? {
      if i :| 0 <= i < |m.list| && m.list[i].ino == env.resolve(path).value.ino { assert Matches(q, m.list[i]); }
    }
  }

  /** The list has the same entries from `b` to `e`. */
  ghost predicate Quiet(ss: seq<State>, acts: seq<Action>, b: nat, e: nat)
    requires IsRun(ss, acts) && b <= e < |ss|
  {
    forall j :: b <= j <= e ==> EntriesAt(ss, acts, j) == EntriesAt(ss, acts, b)
  }

  /** A step after which the entries are the same has not touched the list. */
  lemma SameEntriesSameNodes(s: State, a: Action)
    requires RcuList.Inv(s) && Enabled(s, a)
    requires RcuList.Inv(Do(s, a)) && Entries(Do(s, a)) == Entries(s)
    ensures Do(s, a).linked == s.linked
  {
    assert |Do(s, a).linked| == |Entries(Do(s, a))| == |s.linked|;
    if a.UnlinkDel? {
      var k := UnlinkEffect(s);
      assert false;
    }
  }

  lemma {:induction false} QuietKeepsNodes(ss: seq<State>, acts: seq<Action>, b: nat, e: nat)
    requires IsRun(ss, acts) && b <= e < |ss| && Quiet(ss, acts, b, e)
    ensures ss[e].linked == ss[b].linked
  {
    if b < e {
      assert Quiet(ss, acts, b, e - 1);
      QuietKeepsNodes(ss, acts, b, e - 1);
      RunStep(ss, acts, e);
      assert EntriesAt(ss, acts, e) == EntriesAt(ss, acts, e - 1);
      SameEntriesSameNodes(ss[e - 1], acts[e - 1]);
    }
  }

  lemma StartBefore(s: State, a: Action, t: Tid)
    requires Enabled(s, a) && t in s.readers && t in Do(s, a).readers && Do(s, a).readers[t].pc.Start?
    ensures s.readers[t].pc.Start?
  {
  }

  /** A reader that has not loaded anything had not before, in the same section. */
  lemma {:induction false} StartStays(ss: seq<State>, acts: seq<Action>, t: Tid, q: Query, m: nat, b: nat)
    requires IsRun(ss, acts) && m <= b < |ss| && InSession(ss, t, q, m, b) && ss[b].readers[t].pc.Start?
    ensures ss[m].readers[t].pc.Start?
    decreases b - m
  {
    if m < b {
      RunStep(ss, acts, b);
      StartBefore(ss[b - 1], acts[b - 1], t);
      StartStays(ss, acts, t, q, m, b - 1);
    }
  }

  /** Where a read section begins and ends: nothing loaded yet, and an answer. */
  ghost predicate IsLookup(ss: seq<State>, t: Tid, q: Query, b: nat, e: nat)
    requires b <= e < |ss|
  {
    InSession(ss, t, q, b, e) && ss[b].readers[t].pc.Start? && ss[e].readers[t].pc.Done?
  }

  lemma HitIsListed(ss: seq<State>, acts: seq<Action>, t: Tid, q: Query, b: nat, e: nat) returns (i: nat)
    requires IsRun(ss, acts) && b <= e < |ss| && IsLookup(ss, t, q, b, e) && Quiet(ss, acts, b, e)
    requires ss[e].readers[t].pc.hit.Some?
    ensures i < |EntriesAt(ss, acts, b)| && Matches(q, EntriesAt(ss, acts, b)[i])
  {
    var m := FoundEntryWasLinked(ss, acts, t, e);
    if m <= b {
      StartStays(ss, acts, t, q, m, b);
      assert false;
    }
    var hit := ss[e].readers[t].pc.hit.value;
    RunKeepsInv(ss, acts, m);
    var n :| n in ss[m].linked && n in ss[m].heap && ss[m].heap[n].entry == hit;
    i :| i < |ss[m].linked| && ss[m].linked[i] == n;
    assert EntriesAt(ss, acts, m)[i] == hit;
    assert EntriesAt(ss, acts, m) == EntriesAt(ss, acts, b);
  }

  lemma MissIsUnlisted(ss: seq<State>, acts: seq<Action>, t: Tid, q: Query, b: nat, e: nat, i: nat)
    requires IsRun(ss, acts) && b <= e < |ss| && IsLookup(ss, t, q, b, e) && Quiet(ss, acts, b, e)
    requires ss[e].readers[t].pc == Done(None) && i < |EntriesAt(ss, acts, b)|
    ensures !Matches(q, EntriesAt(ss, acts, b)[i])
  {
    RunKeepsInv(ss, acts, b);
    var n := ss[b].linked[i];
    forall j | b <= j <= e ensures n in ss[j].linked {
      assert Quiet(ss, acts, b, j);
      QuietKeepsNodes(ss, acts, b, j);
    }
    MissMeansNoLastingMatch(ss, acts, t, q, n, b, e);
  }

  /** In every interleaving: a lookup during which the entries stay the same answers
      "listed" if and only if the one-step test does on the list of that time. */
  lemma QuietLookupIsListed(
      env: Monitor.Env, m: Monitor.MState, path: string, byInode: bool,
      ss: seq<State>, acts: seq<Action>, t: Tid, b: nat, e: nat)
    requires IsRun(ss, acts) && b <= e < |ss| && IsLookup(ss, t, QueryOf(env, path, byInode), b, e)
    requires Quiet(ss, acts, b, e) && m.list == EntriesAt(ss, acts, b)
    ensures ss[e].readers[t].pc.hit.Some? <==> Hooks.Listed(env, m, path, byInode)
  {
    var q := QueryOf(env, path, byInode);
    MatchIffListed(env, m, path, byInode);
    if ss[e].readers[t].pc.hit.Some? {
      var i := HitIsListed(ss, acts, t, q, b, e);
    } else {
      forall i: nat | i < |m.list| ensures !Matches(q, m.list[i]) { MissIsUnlisted(ss, acts, t, q, b, e, i); }
    }
  }

  /** With changes meanwhile, a "not listed" is still right about every entry that
      was linked throughout: it has neither the path nor, for an open, its inode. */
  lemma MissMeansNotLasting(
      env: Monitor.Env, path: string, byInode: bool, ss: seq<State>, acts: seq<Action>, t: Tid, n: NodeId, b: nat, e: nat)
    requires IsRun(ss, acts) && b <= e < |ss| && IsLookup(ss, t, QueryOf(env, path, byInode), b, e)
    requires ss[e].readers[t].pc == Done(None) && forall j :: b <= j <= e ==> n in ss[j].linked
    ensures n in ss[b].heap && ss[b].heap[n].entry.path != path
    ensures byInode && env.resolve(path).Some? ==> ss[b].heap[n].entry.ino != env.resolve(path).value.ino
  {
    MissMeansNoLastingMatch(ss, acts, t, QueryOf(env, path, byInode), n, b, e);
  }
}
