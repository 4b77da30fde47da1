/** What holds of every run of the pointer-level list: memory safety of the
    readers, agreement with the one-step list, and the answers of lookups. */
module RcuRuns {
  import opened KernelTypes
  import opened RcuList
  import opened PathList

  ghost predicate IsRun(ss: seq<State>, acts: seq<Action>) {
    && |ss| == |acts| + 1
    && Init(ss[0])
    && forall i :: 0 <= i < |acts| ==> Enabled(ss[i], acts[i]) && ss[i + 1] == Do(ss[i], acts[i])
  }

  lemma {:induction false} RunKeepsInv(ss: seq<State>, acts: seq<Action>, n: nat)
    requires IsRun(ss, acts) && n < |ss|
    ensures Inv(ss[n])
  {
    if n > 0 {
      RunKeepsInv(ss, acts, n - 1);
      assert ss[n - 1 + 1] == Do(ss[n - 1], acts[n - 1]);
      StepKeepsInv(ss[n - 1], acts[n - 1]);
    }
  }

  /** A step of the run, with the invariant before and after it. */
  lemma RunStep(ss: seq<State>, acts: seq<Action>, n: nat)
    requires IsRun(ss, acts) && 0 < n < |ss|
    ensures Inv(ss[n - 1]) && Inv(ss[n])
    ensures Enabled(ss[n - 1], acts[n - 1]) && ss[n] == Do(ss[n - 1], acts[n - 1])
  {
    RunKeepsInv(ss, acts, n - 1);
    RunKeepsInv(ss, acts, n);
    assert ss[n - 1 + 1] == Do(ss[n - 1], acts[n - 1]);
  }

  /** No run ever touches unallocated memory, and every node a reader stands on
      is linked or is the one unlinked node whose removal still waits for it. */
  lemma ReadersNeverTouchFreedNodes(ss: seq<State>, acts: seq<Action>, n: nat, t: Tid)
    requires IsRun(ss, acts) && n < |ss| && t in ss[n].readers
    ensures !ss[n].fault
    ensures var pc := ss[n].readers[t].pc;
            pc.Visit? || pc.Passed? ==>
              && pc.id in ss[n].heap
              && pc.id !in ss[n].pending
              && (pc.id in ss[n].linked || InGrace(ss[n], t, pc.id))
  {
    RunKeepsInv(ss, acts, n);
    assert ReaderOk(ss[n], t);
  }

  // ------------------------------------------------------------ nobody is stuck

  /** Whoever the writer waits for is inside a read section. */
  ghost predicate GraceOk(s: State) {
    && (s.writer.Waiting? ==> s.writer.grace <= s.readers.Keys)
    && (s.writer.RestoreWaiting? ==> s.writer.grace <= s.readers.Keys)
  }

  lemma StepKeepsGrace(s: State, a: Action)
    requires Enabled(s, a) && GraceOk(s)
    ensures GraceOk(Do(s, a))
  {
  }

  lemma {:induction false} RunKeepsGrace(ss: seq<State>, acts: seq<Action>, n: nat)
    requires IsRun(ss, acts) && n < |ss|
    ensures GraceOk(ss[n])
  {
    if n > 0 {
      RunKeepsGrace(ss, acts, n - 1);
      RunStep(ss, acts, n);
      StepKeepsGrace(ss[n - 1], acts[n - 1]);
    }
  }

  /** The next step of the lock holder. */
  function WriterStep(s: State): Action
    requires !s.writer.Unlocked?
  {
    match s.writer
    case Inserting(_, prepared) => if prepared then PublishAdd else PrepareAdd
    case Scanning(_, _) => if AtMatch(s) then UnlinkDel else ScanDel
    case Unlinked(_) => SyncDel
    case Waiting(_, _) => FreeDel
    case Restoring(at) => if at.Some? then ScanRestore else SyncRestore
    case RestoreWaiting(_) => EndRestore
    case Leaving => Unlock
  }

  /** In every run a reader can always take its next step, and the lock holder can
      unless it waits for a reader that is inside its read section right now. */
  lemma NobodyIsStuck(ss: seq<State>, acts: seq<Action>, n: nat)
    requires IsRun(ss, acts) && n < |ss|
    ensures forall t :: t in ss[n].readers ==>
              Enabled(ss[n], Load(t)) || Enabled(ss[n], Compare(t)) || Enabled(ss[n], ReadUnlock(t))
    ensures ss[n].writer.Unlocked? || Enabled(ss[n], WriterStep(ss[n]))
            || exists t :: t in ss[n].readers && (ss[n].writer.Waiting? || ss[n].writer.RestoreWaiting?)
                           && t in ss[n].writer.grace
  {
    RunKeepsGrace(ss, acts, n);
    var w := ss[n].writer;
    if (w.Waiting? || w.RestoreWaiting?) && w.grace != {} {
      var t :| t in w.grace;
      assert t in ss[n].readers;
    }
  }

  // ------------------------------------------------- agreement with one-step list

  ghost function Entries(s: State): seq<Entry>
    requires Inv(s)
  {
    seq(|s.linked|, i requires 0 <= i < |s.linked| => s.heap[s.linked[i]].entry)
  }

  datatype ListOp = Insert(entry: Entry) | Delete(request: string)

  function ApplyOp(l: seq<Entry>, op: ListOp): seq<Entry> {
    match op
    case Insert(e) => [e] + l
    case Delete(r) => Remove(l, r)
  }

  function ApplyOps(l: seq<Entry>, ops: seq<ListOp>): seq<Entry> {
    if ops == [] then l else ApplyOp(ApplyOps(l, ops[..|ops| - 1]), ops[|ops| - 1])
  }

  /** The one-step operation a pointer-level step amounts to, if any. */
  ghost function OpOf(s: State, a: Action): Option<ListOp>
    requires Inv(s) && Enabled(s, a)
  {
    match a
    case PublishAdd => Some(Insert(s.heap[s.writer.node].entry))
    case UnlinkDel => Some(Delete(s.writer.request))
    case ScanDel => if s.writer.at.None? then Some(Delete(s.writer.request)) else None
    case _ => None
  }

  lemma FirstMatchAt(l: seq<Entry>, request: string, k: nat)
    requires k <= |l| && (k < |l| ==> request <= l[k].path)
    requires forall i :: 0 <= i < k ==> !(request <= l[i].path)
    ensures FirstMatch(l, request) == k
  {
    var m := FirstMatch(l, request);
    assert m >= k;
  }

  lemma UnlinkIsDelete(s: State)
    requires Inv(s) && Enabled(s, UnlinkDel)
    ensures Inv(Do(s, UnlinkDel))
    ensures Entries(Do(s, UnlinkDel)) == Remove(Entries(s), s.writer.request)
  {
    StepKeepsInv(s, UnlinkDel);
    var k := UnlinkEffect(s);
    FirstMatchAt(Entries(s), s.writer.request, k);
    EntriesCut(s, Do(s, UnlinkDel), k);
  }

  lemma EntriesCut(s: State, s': State, k: nat)
    requires Inv(s) && Inv(s') && k < |s.linked| && Spliced(s, s', k)
    requires s'.linked == s.linked[..k] + s.linked[k + 1..]
    ensures Entries(s') == Cut(Entries(s), k)
  {
    var es, es' := Entries(s), Entries(s');
    forall i | 0 <= i < |s'.linked| ensures es'[i] == Cut(es, k)[i] {
      var o := if i < k then i else i + 1;
      assert s'.linked[i] == s.linked[o] && s.linked[o] in s.heap;
      assert Cut(es, k)[i] == es[o];
    }
  }

  lemma ScanEndIsEmptyDelete(s: State)
    requires Inv(s) && Enabled(s, ScanDel) && s.writer.at.None?
    ensures FirstMatch(Entries(s), s.writer.request) == |s.linked|
  {
    var k: nat :| ScanAt(s, s.writer.request, s.writer.at, k);
    FirstMatchAt(Entries(s), s.writer.request, k);
  }

  /** Every pointer-level step is one list operation or leaves the list alone. */
  lemma StepRefinesList(s: State, a: Action)
    requires Inv(s) && Enabled(s, a)
    ensures Inv(Do(s, a))
    ensures var op := OpOf(s, a);
            Entries(Do(s, a)) == if op.Some? then ApplyOp(Entries(s), op.value) else Entries(s)
  {
    StepKeepsInv(s, a);
    if a.UnlinkDel? {
      UnlinkIsDelete(s);
    } else if a.PublishAdd? {
      assert Entries(Do(s, a)) == [s.heap[s.writer.node].entry] + Entries(s);
    } else {
      if a.ScanDel? && s.writer.at.None? { ScanEndIsEmptyDelete(s); }
      assert Do(s, a).linked == s.linked;
      assert Entries(Do(s, a)) == Entries(s);
    }
  }

  /** The list operation of the step that led to moment `n`. */
  ghost function OpAt(ss: seq<State>, acts: seq<Action>, n: nat): Option<ListOp>
    requires IsRun(ss, acts) && 0 < n < |ss|
  {
    RunStep(ss, acts, n);
    OpOf(ss[n - 1], acts[n - 1])
  }

  ghost function EntriesAt(ss: seq<State>, acts: seq<Action>, n: nat): seq<Entry>
    requires IsRun(ss, acts) && n < |ss|
  {
    RunKeepsInv(ss, acts, n);
    Entries(ss[n])
  }

  lemma RunStepRefines(ss: seq<State>, acts: seq<Action>, n: nat)
    requires IsRun(ss, acts) && 0 < n < |ss|
    ensures var op := OpAt(ss, acts, n);
            EntriesAt(ss, acts, n) ==
              if op.Some? then ApplyOp(EntriesAt(ss, acts, n - 1), op.value) else EntriesAt(ss, acts, n - 1)
  {
    RunStep(ss, acts, n);
    StepRefinesList(ss[n - 1], acts[n - 1]);
  }

  ghost function OpsOf(ss: seq<State>, acts: seq<Action>, n: nat): seq<ListOp>
    requires IsRun(ss, acts) && n < |ss|
  {
    if n == 0 then [] else
      var op := OpAt(ss, acts, n);
      if op.Some? then OpsOf(ss, acts, n - 1) + [op.value] else OpsOf(ss, acts, n - 1)
  }

  lemma ApplyOneMore(ops: seq<ListOp>, op: ListOp)
    ensures ApplyOps([], ops + [op]) == ApplyOp(ApplyOps([], ops), op)
  {
    assert (ops + [op])[..|ops|] == ops;
  }

  /** In every interleaving the list in memory is the one the operations give
      when carried out one at a time, each at its publishing or unlinking store. */
  lemma {:induction false} RunRefinesList(ss: seq<State>, acts: seq<Action>, n: nat)
    requires IsRun(ss, acts) && n < |ss|
    ensures EntriesAt(ss, acts, n) == ApplyOps([], OpsOf(ss, acts, n))
  {
    if n > 0 {
      RunRefinesList(ss, acts, n - 1);
      RunStepRefines(ss, acts, n);
      var op := OpAt(ss, acts, n);
      if op.Some? { ApplyOneMore(OpsOf(ss, acts, n - 1), op.value); }
    }
  }

  // ---------------------------------------------------------- answers of lookups

  /** Thread `t` is inside one read section, with one query, from `b` to `e`. */
  ghost predicate InSession(ss: seq<State>, t: Tid, q: Query, b: nat, e: nat)
    requires b <= e < |ss|
  {
    forall j :: b <= j <= e ==> t in ss[j].readers && ss[j].readers[t].query == q
  }

  ghost predicate HoldsEntry(s: State, e: Entry) {
    exists n :: n in s.linked && n in s.heap && s.heap[n].entry == e
  }

  lemma HoldsNode(s: State, n: NodeId)
    requires n in s.linked && n in s.heap
    ensures HoldsEntry(s, s.heap[n].entry)
  {
  }

  lemma SessionGrows(ss: seq<State>, t: Tid, q: Query, b: nat, e: nat)
    requires b < e < |ss| && InSession(ss, t, q, b, e - 1) && t in ss[e].readers && ss[e].readers[t].query == q
    ensures InSession(ss, t, q, b, e)
  {
  }

  /** While a reader stands on a node, no step of anyone changes its entry. */
  lemma StandingEntryKept(s: State, a: Action, t: Tid)
    requires Inv(s) && Enabled(s, a) && t in s.readers
    requires s.readers[t].pc.Visit? || s.readers[t].pc.Passed?
    ensures var id := s.readers[t].pc.id;
            id in s.heap && id in Do(s, a).heap && Do(s, a).heap[id].entry == s.heap[id].entry
  {
    assert ReaderOk(s, t);
  }

  /** The next pointer a reader follows always leads to a linked node. */
  lemma LoadLandsOnLinked(s: State, t: Tid)
    requires Inv(s) && Enabled(s, Load(t))
    ensures var r := DoLoad(s, t).readers[t]; r.pc.Visit? ==> r.pc.id in s.linked && r.pc.id in s.heap
    ensures DoLoad(s, t).readers[t].pc.Visit? || DoLoad(s, t).readers[t].pc == Done(None)
  {
    NextIsLinked(s, t);
  }

  /** A reader that stands on a node without having just moved there stood on it
      a step ago, and the node held the same entry. */
  lemma StandsStill(s: State, a: Action, t: Tid)
    requires Inv(s) && Enabled(s, a) && a != Load(t) && t in Do(s, a).readers
    requires Do(s, a).readers[t].pc.Visit? || Do(s, a).readers[t].pc.Passed?
    ensures t in s.readers && s.readers[t].query == Do(s, a).readers[t].query
    ensures var pc := s.readers[t].pc; (pc.Visit? || pc.Passed?) && pc.id == Do(s, a).readers[t].pc.id
    ensures var id := Do(s, a).readers[t].pc.id;
            id in s.heap && id in Do(s, a).heap && Do(s, a).heap[id].entry == s.heap[id].entry
  {
    StandingEntryKept(s, a, t);
  }

  /** The node a reader stands on was linked, with the same entry, at some
      moment of the same read section. */
  lemma {:induction false} StoodOnLinked(ss: seq<State>, acts: seq<Action>, t: Tid, n: nat) returns (m: nat)
    requires IsRun(ss, acts) && n < |ss| && t in ss[n].readers
    requires ss[n].readers[t].pc.Visit? || ss[n].readers[t].pc.Passed?
    ensures m <= n && InSession(ss, t, ss[n].readers[t].query, m, n) && ss[m].readers[t].pc.Visit?
    ensures var id := ss[n].readers[t].pc.id;
            id in ss[n].heap && id in ss[m].linked && id in ss[m].heap && ss[m].heap[id].entry == ss[n].heap[id].entry
  {
    if n == 0 { assert false; }
    RunStep(ss, acts, n);
    if acts[n - 1] == Load(t) {
      LoadLandsOnLinked(ss[n - 1], t);
      m := n;
    } else {
      StandsStill(ss[n - 1], acts[n - 1], t);
      m := StoodOnLinked(ss, acts, t, n - 1);
    }
  }

  /** A lookup that answers "listed" was right at a moment of its own read
      section, on its way along the list: the entry it found was then linked, and
      it has the path, or the inode, that was asked for. */
  lemma {:induction false} FoundEntryWasLinked(ss: seq<State>, acts: seq<Action>, t: Tid, n: nat) returns (m: nat)
    requires IsRun(ss, acts) && n < |ss| && t in ss[n].readers
    requires ss[n].readers[t].pc.Done? && ss[n].readers[t].pc.hit.Some?
    ensures m <= n && InSession(ss, t, ss[n].readers[t].query, m, n) && !ss[m].readers[t].pc.Start?
    ensures HoldsEntry(ss[m], ss[n].readers[t].pc.hit.value)
    ensures var q, e := ss[n].readers[t].query, ss[n].readers[t].pc.hit.value;
            e.path == q.path || (q.ino.Some? && e.ino == q.ino.value)
  {
    if n == 0 { assert false; }
    RunStep(ss, acts, n);
    FoundJustNow(ss[n - 1], acts[n - 1], t);
    if acts[n - 1] == Compare(t) {
      m := StoodOnHit(ss, acts, t, n - 1, ss[n].readers[t].pc.hit.value);
    } else {
      m := FoundEntryWasLinked(ss, acts, t, n - 1);
    }
    SessionGrows(ss, t, ss[n].readers[t].query, m, n);
  }

  /** The entry a reader stands on was linked on its way there. */
  lemma StoodOnHit(ss: seq<State>, acts: seq<Action>, t: Tid, n: nat, hit: Entry) returns (m: nat)
    requires IsRun(ss, acts) && n < |ss| && t in ss[n].readers && ss[n].readers[t].pc.Visit?
    requires ss[n].readers[t].pc.id in ss[n].heap && ss[n].heap[ss[n].readers[t].pc.id].entry == hit
    ensures m <= n && InSession(ss, t, ss[n].readers[t].query, m, n) && !ss[m].readers[t].pc.Start?
    ensures HoldsEntry(ss[m], hit)
  {
    m := StoodOnLinked(ss, acts, t, n);
    HoldsNode(ss[m], ss[n].readers[t].pc.id);
  }

  /** A finished lookup with a hit has just compared the node it stands on, or
      was finished with that hit before. */
  lemma FoundJustNow(s: State, a: Action, t: Tid)
    requires Inv(s) && Enabled(s, a) && t in Do(s, a).readers
    requires Do(s, a).readers[t].pc.Done? && Do(s, a).readers[t].pc.hit.Some?
    ensures t in s.readers && s.readers[t].query == Do(s, a).readers[t].query
    ensures a != Compare(t) ==> s.readers[t].pc == Do(s, a).readers[t].pc
    ensures a == Compare(t) ==>
              var pc, e := s.readers[t].pc, Do(s, a).readers[t].pc.hit.value;
              pc.Visit? && pc.id in s.heap && s.heap[pc.id].entry == e && Matches(s.readers[t].query, e)
  {
  }

  ghost predicate Ordered(l: seq<NodeId>, a: NodeId, b: NodeId) {
    exists i, j :: 0 <= i <= j < |l| && l[i] == a && l[j] == b
  }

  /** Following next pointers from `id` reaches `n`, whether or not `id` is
      itself still linked. */
  ghost predicate Beyond(s: State, id: NodeId, n: NodeId) {
    if id in s.linked then Ordered(s.linked, id, n) && id != n
    else id in s.heap && s.heap[id].next.Some? && Ordered(s.linked, s.heap[id].next.value, n)
  }

  /** The lookup has still to compare node `n`. */
  ghost predicate Ahead(s: State, pc: Pc, n: NodeId) {
    match pc
    case Start => n in s.linked
    case Visit(id) => id == n || Beyond(s, id, n)
    case Passed(id) => Beyond(s, id, n)
    case Done(_) => false
  }

  lemma OrderedCut(l: seq<NodeId>, k: nat, a: NodeId, b: NodeId)
    requires k < |l| && Distinct(l) && Ordered(l, a, b) && a != l[k] && b != l[k]
    ensures Ordered(Cut(l, k), a, b)
  {
    var i, j :| 0 <= i <= j < |l| && l[i] == a && l[j] == b;
    var c := Cut(l, k);
    var i', j' := if i < k then i else i - 1, if j < k then j else j - 1;
    assert c[i'] == a && c[j'] == b;
  }

  lemma OrderedPush(l: seq<NodeId>, x: NodeId, a: NodeId, b: NodeId)
    requires Ordered(l, a, b)
    ensures Ordered([x] + l, a, b)
  {
    var i, j :| 0 <= i <= j < |l| && l[i] == a && l[j] == b;
    var c := [x] + l;
    assert c[i + 1] == a && c[j + 1] == b;
  }

  /** Removing another node keeps `n` ahead, also of a reader on that node. */
  lemma BeyondUnlink(s: State, id: NodeId, n: NodeId)
    requires Inv(s) && Enabled(s, UnlinkDel) && Beyond(s, id, n)
    requires id in s.linked && n in Do(s, UnlinkDel).linked
    ensures Beyond(Do(s, UnlinkDel), id, n)
  {
    var s' := Do(s, UnlinkDel);
    var k := UnlinkEffect(s);
    var l := s.linked;
    CutMembers(l, k);
    if id != l[k] {
      OrderedCut(l, k, id, n);
    } else {
      var i, j :| 0 <= i <= j < |l| && l[i] == id && l[j] == n;
      assert s.heap[l[k]].next == After(l, k);
      assert Ordered(l, l[k + 1], n);
      OrderedCut(l, k, l[k + 1], n);
    }
  }

  lemma BeyondPublish(s: State, id: NodeId, n: NodeId)
    requires Inv(s) && Enabled(s, PublishAdd) && Beyond(s, id, n) && id in s.linked
    ensures Beyond(Do(s, PublishAdd), id, n)
  {
    OrderedPush(s.linked, s.writer.node, id, n);
  }

  /** Steps that neither insert nor unlink leave next pointers alone. */
  lemma NextKept(s: State, a: Action, t: Tid)
    requires Inv(s) && Enabled(s, a) && !a.UnlinkDel? && !a.PublishAdd? && t in s.readers
    requires s.readers[t].pc.Visit? || s.readers[t].pc.Passed?
    ensures var id := s.readers[t].pc.id;
            && Do(s, a).linked == s.linked
            && id in s.heap && id in Do(s, a).heap && Do(s, a).heap[id].next == s.heap[id].next
  {
    assert ReaderOk(s, t);
  }

  lemma BeyondKept(s: State, a: Action, t: Tid, n: NodeId)
    requires Inv(s) && Enabled(s, a) && t in s.readers && n in Do(s, a).linked
    requires (s.readers[t].pc.Visit? || s.readers[t].pc.Passed?) && Beyond(s, s.readers[t].pc.id, n)
    ensures Beyond(Do(s, a), s.readers[t].pc.id, n)
  {
    assert ReaderOk(s, t);
    if a.UnlinkDel? {
      BeyondUnlink(s, s.readers[t].pc.id, n);
    } else if a.PublishAdd? {
      BeyondPublish(s, s.readers[t].pc.id, n);
    } else {
      NextKept(s, a, t);
    }
  }

  /** A step that is not the reader's own keeps a node that stays linked ahead
      of the reader. */
  lemma OthersKeepAhead(s: State, a: Action, t: Tid, n: NodeId)
    requires Inv(s) && Enabled(s, a) && t in s.readers && t in Do(s, a).readers
    requires a != Load(t) && a != Compare(t)
    requires n in s.linked && n in Do(s, a).linked && Ahead(s, s.readers[t].pc, n)
    ensures Ahead(Do(s, a), Do(s, a).readers[t].pc, n)
  {
    var pc := s.readers[t].pc;
    assert Do(s, a).readers[t].pc == pc;
    if (pc.Visit? || pc.Passed?) && Beyond(s, pc.id, n) {
      BeyondKept(s, a, t, n);
    }
  }

  lemma OrderedNext(l: seq<NodeId>, i: nat, n: NodeId)
    requires i < |l| && Distinct(l) && Ordered(l, l[i], n) && l[i] != n
    ensures i + 1 < |l| && Ordered(l, l[i + 1], n)
  {
    var p, q :| 0 <= p <= q < |l| && l[p] == l[i] && l[q] == n;
  }

  lemma OrderedStrict(l: seq<NodeId>, a: NodeId, n: NodeId)
    requires Ordered(l, a, n)
    ensures a in l && n in l
  {}

  /** Loading the next pointer cannot jump over a node that is ahead. */
  lemma LoadKeepsAhead(s: State, t: Tid, n: NodeId)
    requires Inv(s) && Enabled(s, Load(t)) && n in s.linked && Ahead(s, s.readers[t].pc, n)
    ensures Ahead(Do(s, Load(t)), Do(s, Load(t)).readers[t].pc, n)
  {
    assert ReaderOk(s, t);
    var l, pc := s.linked, s.readers[t].pc;
    if pc.Start? {
      var j :| 0 <= j < |l| && l[j] == n;
      assert Ordered(l, l[0], n);
    } else if pc.id in l {
      var i: nat :| i < |l| && l[i] == pc.id;
      OrderedNext(l, i, n);
      assert s.heap[l[i]].next == After(l, i);
    } else {
      OrderedStrict(l, s.heap[pc.id].next.value, n);
    }
  }

  /** The lookup will compare `n`, or has already found a match. */
  ghost predicate WillAnswer(s: State, t: Tid, n: NodeId)
    requires t in s.readers
  {
    var pc := s.readers[t].pc;
    Ahead(s, pc, n) || (pc.Done? && pc.hit.Some?)
  }

  lemma StepKeepsAnswer(s: State, a: Action, t: Tid, n: NodeId)
    requires Inv(s) && Enabled(s, a) && t in s.readers && t in Do(s, a).readers
    requires n in s.linked && n in Do(s, a).linked
    requires Matches(s.readers[t].query, s.heap[n].entry)
    requires WillAnswer(s, t, n)
    ensures WillAnswer(Do(s, a), t, n)
  {
    if !s.readers[t].pc.Done? {
      if a == Load(t) {
        LoadKeepsAhead(s, t, n);
      } else if a != Compare(t) {
        OthersKeepAhead(s, a, t, n);
      } else {
        assert ReaderOk(s, t);
      }
    }
  }

  lemma RunStepKeepsAnswer(ss: seq<State>, acts: seq<Action>, t: Tid, n: NodeId, e: nat)
    requires IsRun(ss, acts) && 0 < e < |ss| && t in ss[e - 1].readers && t in ss[e].readers
    requires n in ss[e - 1].linked && n in ss[e].linked && n in ss[e - 1].heap
    requires Matches(ss[e - 1].readers[t].query, ss[e - 1].heap[n].entry)
    requires WillAnswer(ss[e - 1], t, n)
    ensures WillAnswer(ss[e], t, n)
  {
    RunStep(ss, acts, e);
    StepKeepsAnswer(ss[e - 1], acts[e - 1], t, n);
  }

  /** Node `n` is linked and has the path, or the inode, that is asked for. */
  ghost predicate LinkedMatch(s: State, q: Query, n: NodeId) {
    && n in s.linked && n in s.heap
    && (s.heap[n].entry.path == q.path || (q.ino.Some? && s.heap[n].entry.ino == q.ino.value))
  }

  /** As long as node `n` stays linked, a lookup it would satisfy has it ahead,
      unless the lookup has already found a match. */
  lemma {:induction false} LinkedStaysAhead(
      ss: seq<State>, acts: seq<Action>, t: Tid, q: Query, n: NodeId, b: nat, e: nat)
    requires IsRun(ss, acts) && b <= e < |ss| && InSession(ss, t, q, b, e)
    requires ss[b].readers[t].pc.Start?
    requires forall j :: b <= j <= e ==> LinkedMatch(ss[j], q, n)
    ensures WillAnswer(ss[e], t, n)
  {
    assert LinkedMatch(ss[e], q, n);
    if b < e {
      LinkedStaysAhead(ss, acts, t, q, n, b, e - 1);
      assert LinkedMatch(ss[e - 1], q, n);
      RunStepKeepsAnswer(ss, acts, t, n, e);
    }
  }

  lemma EntryKeptWhileLinked(s: State, a: Action, n: NodeId)
    requires Inv(s) && Enabled(s, a) && n in s.linked && n in Do(s, a).linked
    ensures n in s.heap && n in Do(s, a).heap && Do(s, a).heap[n].entry == s.heap[n].entry
  {
    StepKeepsInv(s, a);
  }

  lemma {:induction false} EntryKeptOverRun(ss: seq<State>, acts: seq<Action>, n: NodeId, b: nat, e: nat)
    requires IsRun(ss, acts) && b <= e < |ss|
    requires forall j :: b <= j <= e ==> n in ss[j].linked
    ensures n in ss[b].heap
    ensures forall j :: b <= j <= e ==> n in ss[j].heap && ss[j].heap[n].entry == ss[b].heap[n].entry
  {
    RunKeepsInv(ss, acts, b);
    if b < e {
      EntryKeptOverRun(ss, acts, n, b, e - 1);
      RunStep(ss, acts, e);
      assert n in ss[e - 1].linked;
      EntryKeptWhileLinked(ss[e - 1], acts[e - 1], n);
    }
  }

  /** A lookup that answers "not listed" is right about every entry that was
      linked for the whole of its read section, whatever was inserted and
      removed meanwhile: none of them has the path or the inode asked for. */
  lemma MissMeansNoLastingMatch(
      ss: seq<State>, acts: seq<Action>, t: Tid, q: Query, n: NodeId, b: nat, e: nat)
    requires IsRun(ss, acts) && b <= e < |ss| && InSession(ss, t, q, b, e)
    requires ss[b].readers[t].pc.Start? && ss[e].readers[t].pc == Done(None)
    requires forall j :: b <= j <= e ==> n in ss[j].linked
    ensures n in ss[b].heap && ss[b].heap[n].entry.path != q.path
    ensures q.ino.Some? ==> ss[b].heap[n].entry.ino != q.ino.value
  {
    EntryKeptOverRun(ss, acts, n, b, e);
    if LinkedMatch(ss[b], q, n) {
      assert forall j :: b <= j <= e ==> LinkedMatch(ss[j], q, n);
      LinkedStaysAhead(ss, acts, t, q, n, b, e);
      assert false;
    }
  }
}
