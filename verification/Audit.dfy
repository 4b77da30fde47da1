/** The audit trail: a denial takes a snapshot of the offender and queues it,
    one worker at a time turns the oldest snapshot into a line and appends it
    to the log. */
module Audit {
  import opened KernelTypes
  import opened Tokens
  import Decimal

  /** The running thread; `exe` is absent for a thread without a program file. */
  datatype Task = Task(tgid: int, tid: int, uid: nat, euid: nat, exe: Option<string>)

  datatype Work = Work(tgid: int, tid: int, uid: nat, euid: nat, path: string)

  /** A work that has run; `hash` is there just if its line was appended. */
  datatype Finished = Finished(work: Work, hash: Option<string>)

  /** `queue` and `log` are the module's; the rest is history: how many denials
      there were, how many left no snapshot, and what was queued and finished. */
  datatype AState = AState(
    denials: nat,
    dropped: nat,
    enqueued: seq<Work>,
    queue: seq<Work>,
    finished: seq<Finished>,
    log: string)

  /** A 32-bit user id printed with a signed conversion. */
  function SignedId(id: nat): int {
    if id < 0x8000_0000 then id else id - 0x1_0000_0000
  }

  function Fields(w: Work, hash: string): seq<string> {
    [Decimal.IntStr(w.tgid), Decimal.IntStr(w.tid),
     Decimal.IntStr(SignedId(w.uid)), Decimal.IntStr(SignedId(w.euid)), w.path, hash]
  }

  function Record(w: Work, hash: string): string {
    Join(Fields(w, hash), ',') + "\n"
  }

  /** Snapshot and queue, or drop when memory or the program file is missing. */
  function TopHalf(a: AState, t: Task, noMemory: bool): AState {
    if noMemory || t.exe.None? then a.(denials := a.denials + 1, dropped := a.dropped + 1)
    else
      var w := Work(t.tgid, t.tid, t.uid, t.euid, t.exe.value);
      a.(denials := a.denials + 1, enqueued := a.enqueued + [w], queue := a.queue + [w])
  }

  /** The oldest work runs. `hash` is absent when the program file could not be
      read or the log could not be opened; `ioFails` is the block store's. */
  function BottomHalf(a: AState, hash: Option<string>, ioFails: bool, max: nat): AState {
    if a.queue == [] then a
    else
      var w := a.queue[0];
      var ok := hash.Some? && !ioFails && |a.log| + |Record(w, hash.value)| < max;
      a.(queue := a.queue[1..],
         finished := a.finished + [Finished(w, if ok then hash else None)],
         log := if ok then a.log + Record(w, hash.value) else a.log)
  }

  // ------------------------------------------------------------- conservation

  function WorksOf(fs: seq<Finished>): seq<Work> {
    seq(|fs|, i requires 0 <= i < |fs| => fs[i].work)
  }

  function LinesOf(fs: seq<Finished>): string {
    if fs == [] then ""
    else
      var f := fs[|fs| - 1];
      LinesOf(fs[..|fs| - 1]) + if f.hash.Some? then Record(f.work, f.hash.value) else ""
  }

  /** Every denial is accounted for, works finish in the order they were queued,
      and the log is its first contents followed by the whole lines of the works
      whose append succeeded, in that order. */
  ghost predicate Inv(a: AState, header: string) {
    && a.denials == a.dropped + |a.queue| + |a.finished|
    && a.enqueued == WorksOf(a.finished) + a.queue
    && a.log == header + LinesOf(a.finished)
  }

  function Start(header: string): AState {
    AState(0, 0, [], [], [], header)
  }

  lemma StartInv(header: string)
    ensures Inv(Start(header), header)
  {
  }

  lemma TopHalfKeepsInv(a: AState, header: string, t: Task, noMemory: bool)
    requires Inv(a, header)
    ensures Inv(TopHalf(a, t, noMemory), header)
  {
  }

  lemma BottomHalfKeepsInv(a: AState, header: string, hash: Option<string>, ioFails: bool, max: nat)
    requires Inv(a, header)
    ensures Inv(BottomHalf(a, hash, ioFails, max), header)
  {
    if a.queue != [] {
      var a' := BottomHalf(a, hash, ioFails, max);
      assert a'.finished[..|a.finished|] == a.finished;
      assert WorksOf(a'.finished) == WorksOf(a.finished) + [a.queue[0]];
    }
  }

  // -------------------------------------------------------- one line per record

  function Appended(fs: seq<Finished>): nat {
    if fs == [] then 0 else Appended(fs[..|fs| - 1]) + if fs[|fs| - 1].hash.Some? then 1 else 0
  }

  predicate HasNewline(f: Finished) {
    f.hash.Some? && '\n' in f.work.path
  }

  /** Every record ends its line, and splitting the line at its commas gives back
      the six fields if and only if neither the program's path nor the digest
      contains a comma. */
  lemma RecordRoundTripIff(w: Work, hash: string)
    ensures Record(w, hash)[|Record(w, hash)| - 1] == '\n'
    ensures Split(Record(w, hash)[..|Record(w, hash)| - 1], ',') == Fields(w, hash) <==> ',' !in w.path && ',' !in hash
  {
    var r, fields := Record(w, hash), Fields(w, hash);
    assert r[..|r| - 1] == Join(fields, ',');
    if ',' !in w.path && ',' !in hash { SplitJoin(fields, ','); }
    SplitPieces(Join(fields, ','), ',');
    assert fields[4] == w.path && fields[5] == hash;
  }

  const TWO32 := 0x1_0000_0000

  lemma IdReads(id: nat)
    requires id < TWO32
    ensures Decimal.ReadInt(Decimal.IntStr(SignedId(id))) % TWO32 == id
  {
    Decimal.IntReads(SignedId(id));
  }

  /** What a denial leaves in the log: the line of the snapshot it queued reads
      back, piece by piece, as the task's thread group, thread, user and effective
      user (ids from 2^31 on are printed negative), its program and the digest. */
  lemma LineReadsTask(a: AState, t: Task, hash: string)
    requires t.exe.Some? && ',' !in t.exe.value && ',' !in hash && t.uid < TWO32 && t.euid < TWO32
    ensures var a' := TopHalf(a, t, false);
            && |a'.queue| == |a.queue| + 1
            && var line := Record(a'.queue[|a.queue|], hash);
               var p := Split(line[..|line| - 1], ',');
               && |p| == 6
               && Decimal.ReadInt(p[0]) == t.tgid && Decimal.ReadInt(p[1]) == t.tid
               && Decimal.ReadInt(p[2]) % TWO32 == t.uid && Decimal.ReadInt(p[3]) % TWO32 == t.euid
               && p[4] == t.exe.value && p[5] == hash
  {
    RecordRoundTripIff(TopHalf(a, t, false).queue[|a.queue|], hash);
    Decimal.IntReads(t.tgid);
    Decimal.IntReads(t.tid);
    IdReads(t.uid);
    IdReads(t.euid);
  }

  lemma {:induction false} CountJoin(parts: seq<string>, sep: char, c: char, k: nat)
    requires k < |parts| && sep != c
    requires forall i :: 0 <= i < |parts| && i != k ==> c !in parts[i]
    ensures Count(Join(parts, sep), c) == Count(parts[k], c)
    decreases |parts|
  {
    var n := |parts|;
    if n > 1 {
      var front := Join(parts[..n - 1], sep);
      CountConcat(front + [sep], parts[n - 1], c);
      CountConcat(front, [sep], c);
      CountZero([sep], c);
      CountZero(parts[n - 1], c);
      if k == n - 1 {
        CountJoin(parts[..n - 1], sep, c, 0);
        CountZero(parts[0], c);
      } else {
        CountJoin(parts[..n - 1], sep, c, k);
      }
    }
  }

  lemma RecordNewlines(w: Work, hash: string)
    requires '\n' !in hash
    ensures Count(Record(w, hash), '\n') == 1 + Count(w.path, '\n')
  {
    CountJoin(Fields(w, hash), ',', '\n', 4);
    CountConcat(Join(Fields(w, hash), ','), "\n", '\n');
  }

  /** The log has one line per appended record if and only if none of the
      recorded programs has a newline in its path. */
  lemma {:induction false} OneLinePerRecordIff(fs: seq<Finished>)
    requires forall i :: 0 <= i < |fs| && fs[i].hash.Some? ==> '\n' !in fs[i].hash.value
    ensures Count(LinesOf(fs), '\n') >= Appended(fs)
    ensures Count(LinesOf(fs), '\n') == Appended(fs) <==> forall i :: 0 <= i < |fs| ==> !HasNewline(fs[i])
    decreases |fs|
  {
    if fs != [] {
      var front, f := fs[..|fs| - 1], fs[|fs| - 1];
      OneLinePerRecordIff(front);
      var line := if f.hash.Some? then Record(f.work, f.hash.value) else "";
      CountConcat(LinesOf(front), line, '\n');
      if f.hash.Some? {
        RecordNewlines(f.work, f.hash.value);
        CountZero(f.work.path, '\n');
      }
      NewlineFreeSplits(fs);
    }
  }

  lemma NewlineFreeSplits(fs: seq<Finished>)
    requires fs != []
    ensures var front, f := fs[..|fs| - 1], fs[|fs| - 1];
            (forall i :: 0 <= i < |fs| ==> !HasNewline(fs[i]))
            <==> (forall i :: 0 <= i < |front| ==> !HasNewline(front[i])) && !HasNewline(f)
  {
    assert forall i :: 0 <= i < |fs| - 1 ==> fs[..|fs| - 1][i] == fs[i];
  }
}
