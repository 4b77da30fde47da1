/** The list of protected paths at the level of its pointers: readers that
    follow next pointers without the lock, and one lock holder that inserts,
    or unlinks, waits for a grace period and frees. Any interleaving of the
    single steps below is a run. */
module RcuList {
  import opened KernelTypes

  type NodeId = nat
  type Tid = nat

  /** A list node in memory. `None` as a pointer is the list head. */
  datatype Cell = Cell(entry: Entry, next: Option<NodeId>, prev: Option<NodeId>)

  /** What a lookup compares with: a path, and an inode number when the path
      resolved and hard links are to be caught. */
  datatype Query = Query(path: string, ino: Option<nat>)

  predicate Matches(q: Query, e: Entry) {
    e.path == q.path || q.ino == Some(e.ino)
  }

  /** Position of a lookup: before the first load, on a node not yet compared,
      past a node that did not match, or finished inside the read section. */
  datatype Pc = Start | Visit(id: NodeId) | Passed(id: NodeId) | Done(hit: Option<Entry>)
  datatype Reader = Reader(query: Query, pc: Pc)

  /** What the lock holder is doing. */
  datatype Writer =
    | Unlocked
    | Inserting(node: NodeId, prepared: bool)
    | Scanning(request: string, at: Option<NodeId>)
    | Unlinked(victim: NodeId)
    | Waiting(victim: NodeId, grace: set<Tid>)
    | Restoring(at: Option<NodeId>)
    | RestoreWaiting(grace: set<Tid>)
    | Leaving

  /** `linked` is an auxiliary record of the nodes in list order; no step reads
      it. `fault` is raised by a step that touches unallocated memory. */
  datatype State = State(
    head: Option<NodeId>,
    heap: map<NodeId, Cell>,
    pending: set<NodeId>,
    readers: map<Tid, Reader>,
    writer: Writer,
    linked: seq<NodeId>,
    fault: bool)

  datatype Action =
    | ReadLock(t: Tid, query: Query)
    | Load(t: Tid)
    | Compare(t: Tid)
    | ReadUnlock(t: Tid)
    | Alloc(id: NodeId, entry: Entry)
    | LockAdd(id: NodeId)
    | PrepareAdd
    | PublishAdd
    | LockDel(request: string)
    | ScanDel
    | UnlinkDel
    | SyncDel
    | FreeDel
    | LockRestore
    | ScanRestore
    | SyncRestore
    | EndRestore
    | Unlock

  ghost predicate Init(s: State) {
    s == State(None, map[], {}, map[], Unlocked, [], false)
  }

  /** When a step may be taken; nothing here says that memory is allocated. */
  predicate Enabled(s: State, a: Action) {
    match a
    case ReadLock(t, _) => t !in s.readers
    case Load(t) => t in s.readers && (s.readers[t].pc.Start? || s.readers[t].pc.Passed?)
    case Compare(t) => t in s.readers && s.readers[t].pc.Visit?
    case ReadUnlock(t) => t in s.readers && s.readers[t].pc.Done?
    case Alloc(id, _) => id !in s.heap
    case LockAdd(id) => s.writer.Unlocked? && id in s.pending
    case PrepareAdd => s.writer.Inserting? && !s.writer.prepared
    case PublishAdd => s.writer.Inserting? && s.writer.prepared
    case LockDel(_) => s.writer.Unlocked?
    case ScanDel => s.writer.Scanning? && !AtMatch(s)
    case UnlinkDel => s.writer.Scanning? && AtMatch(s)
    case SyncDel => s.writer.Unlinked?
    case FreeDel => s.writer.Waiting? && s.writer.grace == {}
    case LockRestore => s.writer.Unlocked?
    case ScanRestore => s.writer.Restoring? && s.writer.at.Some?
    case SyncRestore => s.writer.Restoring? && s.writer.at.None?
    case EndRestore => s.writer.RestoreWaiting? && s.writer.grace == {}
    case Unlock => s.writer.Leaving?
  }

  /** The scan stands on an allocated node whose path begins with the request. */
  predicate AtMatch(s: State)
    requires s.writer.Scanning?
  {
    s.writer.at.Some? && s.writer.at.value in s.heap
    && s.writer.request <= s.heap[s.writer.at.value].entry.path
  }

  function SetPc(s: State, t: Tid, pc: Pc): State
    requires t in s.readers
  {
    s.(readers := s.readers[t := s.readers[t].(pc := pc)])
  }

  /** The pointer a lookup follows next; `None` outside if the node is gone. */
  function NextOf(s: State, pc: Pc): Option<Option<NodeId>>
    requires pc.Start? || pc.Passed?
  {
    if pc.Start? then Some(s.head)
    else if pc.id in s.heap then Some(s.heap[pc.id].next)
    else None
  }

  function DoLoad(s: State, t: Tid): State
    requires Enabled(s, Load(t))
  {
    match NextOf(s, s.readers[t].pc)
    case None => s.(fault := true)
    case Some(None) => SetPc(s, t, Done(None))
    case Some(Some(id)) => SetPc(s, t, Visit(id))
  }

  function DoCompare(s: State, t: Tid): State
    requires Enabled(s, Compare(t))
  {
    var id := s.readers[t].pc.id;
    if id !in s.heap then s.(fault := true)
    else if Matches(s.readers[t].query, s.heap[id].entry) then SetPc(s, t, Done(Some(s.heap[id].entry)))
    else SetPc(s, t, Passed(id))
  }

  /** Leaving a read section also takes the thread out of a running grace period. */
  function DoReadUnlock(s: State, t: Tid): State {
    var w := match s.writer
      case Waiting(v, g) => Waiting(v, g - {t})
      case RestoreWaiting(g) => RestoreWaiting(g - {t})
      case _ => s.writer;
    s.(readers := s.readers - {t}, writer := w)
  }

  function DoPrepare(s: State): State
    requires s.writer.Inserting?
  {
    var n := s.writer.node;
    if n !in s.heap then s.(fault := true)
    else s.(heap := s.heap[n := Cell(s.heap[n].entry, s.head, None)], writer := Inserting(n, true))
  }

  /** `head.next` and the back pointer of the old first node; only lock holders
      read back pointers, so the two stores are one step. */
  function DoPublish(s: State): State
    requires s.writer.Inserting?
  {
    var n := s.writer.node;
    if s.head.Some? && s.head.value !in s.heap then s.(fault := true)
    else
      var heap := if s.head.None? then s.heap
                  else s.heap[s.head.value := s.heap[s.head.value].(prev := Some(n))];
      s.(head := Some(n), heap := heap, writer := Leaving, linked := [n] + s.linked)
  }

  function DoScan(s: State): State
    requires s.writer.Scanning?
  {
    match s.writer.at
    case None => s.(writer := Leaving)
    case Some(id) =>
      if id !in s.heap then s.(fault := true)
      else s.(writer := Scanning(s.writer.request, s.heap[id].next))
  }

  function Without<T(==)>(l: seq<T>, x: T): seq<T> {
    if l == [] then [] else if l[0] == x then l[1..] else [l[0]] + Without(l[1..], x)
  }

  /** Both stores of the unlink; the node keeps its own next pointer. */
  function DoUnlink(s: State): State
    requires s.writer.Scanning? && AtMatch(s)
  {
    var v := s.writer.at.value;
    var n, p := s.heap[v].next, s.heap[v].prev;
    if (n.Some? && n.value !in s.heap) || (p.Some? && p.value !in s.heap) then s.(fault := true)
    else
      var heap1 := if n.None? then s.heap else s.heap[n.value := s.heap[n.value].(prev := p)];
      var heap2 := if p.None? then heap1 else heap1[p.value := heap1[p.value].(next := n)];
      var head := if p.None? then n else s.head;
      s.(head := head, heap := heap2, writer := Unlinked(v), linked := Without(s.linked, v))
  }

  function DoFree(s: State): State
    requires s.writer.Waiting?
  {
    if s.writer.victim !in s.heap then s.(fault := true)
    else s.(heap := s.heap - {s.writer.victim}, writer := Leaving)
  }

  function DoScanRestore(s: State): State
    requires s.writer.Restoring? && s.writer.at.Some?
  {
    var id := s.writer.at.value;
    if id !in s.heap then s.(fault := true) else s.(writer := Restoring(s.heap[id].next))
  }

  function Do(s: State, a: Action): State
    requires Enabled(s, a)
  {
    match a
    case ReadLock(t, q) => s.(readers := s.readers[t := Reader(q, Start)])
    case Load(t) => DoLoad(s, t)
    case Compare(t) => DoCompare(s, t)
    case ReadUnlock(t) => DoReadUnlock(s, t)
    case Alloc(id, e) => s.(heap := s.heap[id := Cell(e, None, None)], pending := s.pending + {id})
    case LockAdd(id) => s.(pending := s.pending - {id}, writer := Inserting(id, false))
    case PrepareAdd => DoPrepare(s)
    case PublishAdd => DoPublish(s)
    case LockDel(r) => s.(writer := Scanning(r, s.head))
    case ScanDel => DoScan(s)
    case UnlinkDel => DoUnlink(s)
    case SyncDel => s.(writer := Waiting(s.writer.victim, s.readers.Keys))
    case FreeDel => DoFree(s)
    case LockRestore => s.(writer := Restoring(s.head))
    case ScanRestore => DoScanRestore(s)
    case SyncRestore => s.(writer := RestoreWaiting(s.readers.Keys))
    case EndRestore => s.(writer := Leaving)
    case Unlock => s.(writer := Unlocked)
  }

  // ---------------------------------------------------------------- invariant

  ghost predicate Distinct<T(!new)>(l: seq<T>) {
    forall i, j :: 0 <= i < j < |l| ==> l[i] != l[j]
  }

  function First(l: seq<NodeId>): Option<NodeId> {
    if l == [] then None else Some(l[0])
  }

  function After(l: seq<NodeId>, i: nat): Option<NodeId> {
    if i + 1 < |l| then Some(l[i + 1]) else None
  }

  function Before(l: seq<NodeId>, i: nat): Option<NodeId>
    requires i <= |l|
  {
    if i == 0 then None else Some(l[i - 1])
  }

  /** The pointers in memory spell out exactly the sequence `linked`. */
  ghost predicate Chained(s: State) {
    && Distinct(s.linked)
    && s.head == First(s.linked)
    && (forall i :: 0 <= i < |s.linked| ==> s.linked[i] in s.heap)
    && (forall i {:trigger After(s.linked, i)} :: 0 <= i < |s.linked| ==>
          s.heap[s.linked[i]].next == After(s.linked, i))
    && (forall i {:trigger Before(s.linked, i)} :: 0 <= i < |s.linked| ==>
          s.heap[s.linked[i]].prev == Before(s.linked, i))
  }

  /** A node in memory that no linked node points to. */
  ghost predicate Detached(s: State, n: NodeId) {
    n in s.heap && n !in s.linked && n !in s.pending
  }

  ghost predicate PendingOk(s: State) {
    forall n :: n in s.pending ==> n in s.heap && n !in s.linked
  }

  /** The scan stands at position `k` and everything before it fails to match. */
  ghost predicate ScanAt(s: State, request: string, at: Option<NodeId>, k: nat)
    requires forall i :: 0 <= i < |s.linked| ==> s.linked[i] in s.heap
  {
    && k <= |s.linked|
    && at == (if k < |s.linked| then Some(s.linked[k]) else None)
    && forall i :: 0 <= i < k ==> !(request <= s.heap[s.linked[i]].entry.path)
  }

  ghost predicate ScanOk(s: State, request: string, at: Option<NodeId>)
    requires forall i :: 0 <= i < |s.linked| ==> s.linked[i] in s.heap
  {
    exists k: nat :: ScanAt(s, request, at, k)
  }

  ghost predicate PointsIn(s: State, p: Option<NodeId>) {
    p.Some? ==> p.value in s.linked
  }

  ghost predicate WriterOk(s: State)
    requires Chained(s)
  {
    match s.writer
    case Inserting(n, prepared) =>
      Detached(s, n) && (prepared ==> s.heap[n].next == s.head && s.heap[n].prev == None)
    case Scanning(r, at) => ScanOk(s, r, at)
    case Unlinked(v) => Detached(s, v) && PointsIn(s, s.heap[v].next)
    case Waiting(v, _) => Detached(s, v) && PointsIn(s, s.heap[v].next)
    case Restoring(at) => PointsIn(s, at)
    case _ => true
  }

  /** The node is the one just unlinked and the writer still waits, or has yet
      to begin waiting, for this reader. */
  ghost predicate InGrace(s: State, t: Tid, id: NodeId) {
    || s.writer == Unlinked(id)
    || (s.writer.Waiting? && s.writer.victim == id && t in s.writer.grace)
  }

  ghost predicate ReaderOk(s: State, t: Tid)
    requires t in s.readers
  {
    var pc := s.readers[t].pc;
    pc.Visit? || pc.Passed? ==> pc.id in s.linked || InGrace(s, t, pc.id)
  }

  ghost predicate Inv(s: State) {
    && !s.fault
    && Chained(s)
    && PendingOk(s)
    && WriterOk(s)
    && (forall t :: t in s.readers ==> ReaderOk(s, t))
  }

  // ------------------------------------------------------ preservation, by step

  lemma {:induction false} WithoutAt<T>(l: seq<T>, k: nat)
    requires k < |l| && forall i :: 0 <= i < k ==> l[i] != l[k]
    ensures Without(l, l[k]) == l[..k] + l[k + 1..]
  {
    if k == 0 {
      assert l[..0] + l[1..] == l[1..];
    } else {
      var tail := l[1..];
      assert tail[k - 1] == l[k];
      forall i | 0 <= i < k - 1 ensures tail[i] != tail[k - 1] { assert tail[i] == l[i + 1]; }
      WithoutAt(tail, k - 1);
      assert tail[k..] == l[k + 1..];
      assert [l[0]] + (tail[..k - 1] + tail[k..]) == l[..k] + l[k + 1..];
    }
  }

  /** A step that leaves the list and its entries alone leaves a scan valid. */
  lemma ScanFrame(s: State, s': State)
    requires Chained(s) && WriterOk(s) && Chained(s') && s'.linked == s.linked
    requires s.writer.Scanning? && s'.writer == s.writer
    requires forall n :: n in s.linked ==> s'.heap[n].entry == s.heap[n].entry
    ensures ScanOk(s', s.writer.request, s.writer.at)
  {
    var k: nat :| ScanAt(s, s.writer.request, s.writer.at, k);
    assert ScanAt(s', s.writer.request, s.writer.at, k);
  }

  /** Everything but the readers is kept by a step that changes only readers. */
  lemma ReadersFrame(s: State, s': State)
    requires Inv(s) && s' == s.(readers := s'.readers)
    requires forall u :: u in s'.readers ==> ReaderOk(s', u)
    ensures Inv(s')
  {
    if s.writer.Scanning? { ScanFrame(s, s'); }
  }

  lemma ReadLockKeepsInv(s: State, a: Action)
    requires Inv(s) && Enabled(s, a) && a.ReadLock?
    ensures Inv(Do(s, a))
  {
    var s' := Do(s, a);
    forall u | u in s'.readers ensures ReaderOk(s', u) {
      if u != a.t { assert ReaderOk(s, u); }
    }
    ReadersFrame(s, s');
  }

  /** The pointer a reader follows is null or leads to a linked node. */
  lemma NextIsLinked(s: State, t: Tid)
    requires Inv(s) && Enabled(s, Load(t))
    ensures var n := NextOf(s, s.readers[t].pc); n.Some? && PointsIn(s, n.value)
  {
    var pc := s.readers[t].pc;
    assert ReaderOk(s, t);
    if pc.Passed? && pc.id in s.linked {
      var i :| 0 <= i < |s.linked| && s.linked[i] == pc.id;
      assert s.heap[s.linked[i]].next == After(s.linked, i);
    }
  }

  lemma LoadKeepsInv(s: State, a: Action)
    requires Inv(s) && Enabled(s, a) && a.Load?
    ensures Inv(Do(s, a))
  {
    var s' := Do(s, a);
    NextIsLinked(s, a.t);
    forall u | u in s'.readers ensures ReaderOk(s', u) {
      if u != a.t { assert ReaderOk(s, u); }
    }
    ReadersFrame(s, s');
  }

  lemma CompareKeepsInv(s: State, a: Action)
    requires Inv(s) && Enabled(s, a) && a.Compare?
    ensures Inv(Do(s, a))
  {
    var s' := Do(s, a);
    assert ReaderOk(s, a.t);
    forall u | u in s'.readers ensures ReaderOk(s', u) {
      if u != a.t { assert ReaderOk(s, u); }
    }
    ReadersFrame(s, s');
  }

  lemma ReadUnlockKeepsInv(s: State, a: Action)
    requires Inv(s) && Enabled(s, a) && a.ReadUnlock?
    ensures Inv(Do(s, a))
  {
    var s' := Do(s, a);
    forall u | u in s'.readers ensures ReaderOk(s', u) { assert ReaderOk(s, u); }
    if s.writer.Scanning? { ScanFrame(s, s'); }
  }

  lemma AllocKeepsInv(s: State, a: Action)
    requires Inv(s) && Enabled(s, a) && a.Alloc?
    ensures Inv(Do(s, a))
  {
    var s' := Do(s, a);
    assert forall n :: n in s.heap ==> n != a.id && s'.heap[n] == s.heap[n];
    assert Chained(s');
    assert WriterOk(s') by {
      if s.writer.Scanning? { ScanFrame(s, s'); }
    }
    forall u | u in s'.readers ensures ReaderOk(s', u) { assert ReaderOk(s, u); }
  }

  lemma LockStepKeepsInv(s: State, a: Action)
    requires Inv(s) && Enabled(s, a)
    requires a.LockAdd? || a.PrepareAdd? || a.LockDel? || a.LockRestore? || a.Unlock?
    ensures Inv(Do(s, a))
  {
    var s' := Do(s, a);
    forall u | u in s'.readers ensures ReaderOk(s', u) { assert ReaderOk(s, u); }
    if a.LockDel? {
      assert ScanAt(s', a.request, s.head, 0);
    }
  }

  lemma PublishKeepsInv(s: State)
    requires Inv(s) && Enabled(s, PublishAdd)
    ensures Inv(Do(s, PublishAdd))
  {
    var s' := Do(s, PublishAdd);
    var l, l' := s.linked, s'.linked;
    forall i | 0 <= i < |l'|
      ensures s'.heap[l'[i]].next == After(l', i) && s'.heap[l'[i]].prev == Before(l', i)
    {
      if i > 0 {
        assert l'[i] == l[i - 1];
        assert s.heap[l[i - 1]].next == After(l, i - 1) && s.heap[l[i - 1]].prev == Before(l, i - 1);
      }
    }
    forall u | u in s'.readers ensures ReaderOk(s', u) { assert ReaderOk(s, u); }
  }

  lemma ScanKeepsInv(s: State, a: Action)
    requires Inv(s) && Enabled(s, a)
    requires a.ScanDel? || a.ScanRestore?
    ensures Inv(Do(s, a))
  {
    var s' := Do(s, a);
    forall u | u in s'.readers ensures ReaderOk(s', u) { assert ReaderOk(s, u); }
    if a.ScanDel? {
      var r := s.writer.request;
      var k: nat :| ScanAt(s, r, s.writer.at, k);
      if k < |s.linked| {
        assert s.heap[s.linked[k]].next == After(s.linked, k);
        assert ScanAt(s', r, s'.writer.at, k + 1);
      }
    } else {
      var i :| 0 <= i < |s.linked| && s.linked[i] == s.writer.at.value;
      assert s.heap[s.linked[i]].next == After(s.linked, i);
    }
  }

  /** Only the neighbours of position `k` change, and they now skip it. */
  ghost predicate Spliced(s: State, s': State, k: nat)
    requires k < |s.linked|
  {
    var after, before := After(s.linked, k), Before(s.linked, k);
    && s'.heap.Keys == s.heap.Keys
    && forall n :: n in s.heap ==>
      s'.heap[n] == Cell(s.heap[n].entry,
                         if before == Some(n) then after else s.heap[n].next,
                         if after == Some(n) then before else s.heap[n].prev)
  }

  /** Where the deletion scan stands when it has found a match, and what the
      unlink does to the sequence and to memory. */
  lemma UnlinkEffect(s: State) returns (k: nat)
    requires Inv(s) && Enabled(s, UnlinkDel)
    ensures k < |s.linked| && s.writer.at == Some(s.linked[k])
    ensures ScanAt(s, s.writer.request, s.writer.at, k)
    ensures var s', l := Do(s, UnlinkDel), s.linked;
            && !s'.fault && s'.writer == Unlinked(l[k])
            && s'.linked == l[..k] + l[k + 1..]
            && s'.head == (if k == 0 then After(l, k) else s.head)
            && Spliced(s, s', k)
  {
    k :| ScanAt(s, s.writer.request, s.writer.at, k);
    WithoutAt(s.linked, k);
    assert s.heap[s.linked[k]].next == After(s.linked, k);
    assert s.heap[s.linked[k]].prev == Before(s.linked, k);
  }

  lemma SplicedPointers(s: State, s': State, k: nat, i: nat)
    requires Chained(s) && k < |s.linked| && Spliced(s, s', k)
    requires s'.linked == s.linked[..k] + s.linked[k + 1..]
    requires i < |s'.linked|
    ensures var l' := s'.linked;
            l'[i] in s'.heap && s'.heap[l'[i]].next == After(l', i) && s'.heap[l'[i]].prev == Before(l', i)
  {
    var l, l' := s.linked, s'.linked;
    var o := if i < k then i else i + 1;
    assert l'[i] == l[o];
    assert s.heap[l[o]].next == After(l, o) && s.heap[l[o]].prev == Before(l, o);
    assert Before(l, k) == Some(l[o]) <==> o + 1 == k;
    assert After(l, k) == Some(l[o]) <==> o == k + 1;
  }

  lemma SplicedIsChained(s: State, s': State, k: nat)
    requires Chained(s) && k < |s.linked| && Spliced(s, s', k)
    requires s'.linked == s.linked[..k] + s.linked[k + 1..]
    requires s'.head == if k == 0 then After(s.linked, k) else s.head
    ensures Chained(s')
  {
    var l' := s'.linked;
    forall i: nat | i < |l'|
      ensures l'[i] in s'.heap && s'.heap[l'[i]].next == After(l', i) && s'.heap[l'[i]].prev == Before(l', i)
    {
      SplicedPointers(s, s', k, i);
    }
  }

  /** The pointers spell a chain again, of all nodes but the one unlinked, in the
      order they had. */
  lemma UnlinkKeepsChain(s: State)
    requires Inv(s) && Enabled(s, UnlinkDel)
    ensures Chained(Do(s, UnlinkDel))
    ensures exists k: nat :: k < |s.linked| && s.linked[k] == s.writer.at.value
                          && Do(s, UnlinkDel).linked == s.linked[..k] + s.linked[k + 1..]
  {
    var k := UnlinkEffect(s);
    SplicedIsChained(s, Do(s, UnlinkDel), k);
    assert s.linked[k] == s.writer.at.value;
  }

  /** Removing position `k` keeps exactly the other members. */
  lemma CutMembers(l: seq<NodeId>, k: nat)
    requires k < |l| && Distinct(l)
    ensures var c := l[..k] + l[k + 1..];
            l[k] !in c && (forall n :: n in l && n != l[k] <==> n in c)
  {
    var c := l[..k] + l[k + 1..];
    forall n | n in l && n != l[k] ensures n in c {
      var i :| 0 <= i < |l| && l[i] == n;
      assert c[if i < k then i else i - 1] == n;
    }
  }

  /** The node just unlinked is detached and still points into the list. */
  lemma UnlinkDetaches(s: State)
    requires Inv(s) && Enabled(s, UnlinkDel)
    ensures var s', v := Do(s, UnlinkDel), s.writer.at.value;
            && s'.writer == Unlinked(v) && !s'.fault && s'.readers == s.readers && s'.pending == s.pending
            && s'.heap.Keys == s.heap.Keys
            && Detached(s', v) && PointsIn(s', s'.heap[v].next)
            && forall n :: n in s.linked && n != v <==> n in s'.linked
  {
    var k := UnlinkEffect(s);
    CutMembers(s.linked, k);
    assert s.heap[s.linked[k]].next == After(s.linked, k);
    if k + 1 < |s.linked| { assert s.linked[k + 1] in s.linked; }
  }

  lemma UnlinkKeepsInv(s: State)
    requires Inv(s) && Enabled(s, UnlinkDel)
    ensures Inv(Do(s, UnlinkDel))
  {
    var s' := Do(s, UnlinkDel);
    UnlinkKeepsChain(s);
    UnlinkDetaches(s);
    forall u | u in s'.readers ensures ReaderOk(s', u) { assert ReaderOk(s, u); }
  }

  lemma GraceStepKeepsInv(s: State, a: Action)
    requires Inv(s) && Enabled(s, a)
    requires a.SyncDel? || a.FreeDel? || a.SyncRestore? || a.EndRestore?
    ensures Inv(Do(s, a))
  {
    var s' := Do(s, a);
    forall u | u in s'.readers ensures ReaderOk(s', u) { assert ReaderOk(s, u); }
  }

  lemma StepKeepsInv(s: State, a: Action)
    requires Inv(s) && Enabled(s, a)
    ensures Inv(Do(s, a))
  {
    match a {
      case ReadLock(_, _) => ReadLockKeepsInv(s, a);
      case Load(_) => LoadKeepsInv(s, a);
      case Compare(_) => CompareKeepsInv(s, a);
      case ReadUnlock(_) => ReadUnlockKeepsInv(s, a);
      case Alloc(_, _) => AllocKeepsInv(s, a);
      case PublishAdd => PublishKeepsInv(s);
      case ScanDel => ScanKeepsInv(s, a);
      case ScanRestore => ScanKeepsInv(s, a);
      case UnlinkDel => UnlinkKeepsInv(s);
      case SyncDel => GraceStepKeepsInv(s, a);
      case FreeDel => GraceStepKeepsInv(s, a);
      case SyncRestore => GraceStepKeepsInv(s, a);
      case EndRestore => GraceStepKeepsInv(s, a);
      case _ => LockStepKeepsInv(s, a);
    }
  }
}
