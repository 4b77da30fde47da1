/** The module's globals and the code that updates them: system calls, hook
    handlers and deferred work, with their loops, each proved to do in one call
    what Monitor, Hooks and Audit say. */
module MonitorModule {
  import opened KernelTypes
  import InodeMark
  import CString
  import PathList
  import opened Monitor
  import opened PathSolver
  import Syscalls
  import PathBuffer
  import OpenFlags
  import opened Hooks
  import Audit
  import BlockStore

  class ReferenceMonitor {
    var currentState: int
    const hooks: array<bool>
    var list: seq<Entry>
    var attrs: map<nat, Attr>
    var digest: string
    var queue: seq<Audit.Work>
    const store: BlockStore.Store
    ghost var denials: nat
    ghost var dropped: nat
    ghost var enqueued: seq<Audit.Work>
    ghost var finished: seq<Audit.Finished>

    ghost predicate Valid()
      reads this, store
    {
      hooks.Length == HOOKS_SIZE && store.Valid()
    }

    ghost function M(): MState
      reads this, hooks
    {
      MState(currentState, hooks[..], list, attrs, digest)
    }

    ghost function A(): Audit.AState
      reads this, store, store.disk
      requires store.Valid()
    {
      Audit.AState(denials, dropped, enqueued, queue, finished, store.Contents())
    }

    constructor (env: Env, password: string, attrs: map<nat, Attr>, store: BlockStore.Store)
      requires store.Valid()
      ensures Valid() && fresh(hooks) && this.store == store
      ensures M() == Loaded(env, password, attrs)
      ensures A() == Audit.Start(store.Contents())
    {
      this.hooks := new bool[HOOKS_SIZE](_ => false);
      this.currentState := OFF;
      this.list, this.attrs, this.digest := [], attrs, env.hash(password);
      this.store, this.queue := store, [];
      this.denials, this.dropped, this.enqueued, this.finished := 0, 0, [], [];
    }

    // ------------------------------------------------------------ system calls

    method CheckPassword(env: Env, pwd: Option<string>) returns (ret: int)
      ensures ret == 0 <==> PasswordOk(env, digest, pwd)
    {
      if pwd.None? { return -EINVAL; }
      var tmp := env.hash(pwd.value);
      ret := if tmp == digest then 0 else 1;
    }

    method RestoreBlackListEntries(env: Env)
      modifies this`attrs
      ensures attrs == RestoreAll(env, list, old(attrs))
    {
      assert list[0..] == list;
      for i := 0 to |list|
        invariant RestoreAll(env, list[i..], attrs) == RestoreAll(env, list, old(attrs))
      {
        assert list[i..][1..] == list[i + 1..];
        match env.resolve(list[i].path) {
          case None =>
          case Some(t) => attrs := attrs[t.ino := list[i].saved];
        }
      }
    }

    method SetHooks(on: bool)
      requires hooks.Length == HOOKS_SIZE
      modifies hooks
      ensures hooks[..] == seq(HOOKS_SIZE, _ => on)
    {
      for i := 0 to HOOKS_SIZE
        invariant forall k :: 0 <= k < i ==> hooks[k] == on
      {
        hooks[i] := on;
      }
    }

    method DoChangeState(env: Env, euid: nat, pwd: Option<string>, st: int) returns (ret: int)
      requires Valid()
      modifies this`currentState, this`attrs, hooks
      ensures Valid()
      ensures (M(), ret) == ChangeState(env, old(M()), euid, pwd, st)
    {
      if euid != env.admin { return -EPERM; }
      if pwd.None? || (st != ON && st != OFF && st != REC_ON && st != REC_OFF) { return -EINVAL; }
      ret := CheckPassword(env, pwd);
      if ret != 0 { return -EACCES; }
      if currentState == st { return -ECANCELED; }
      currentState := st;
      if currentState == REC_ON || currentState == ON {
        SetHooks(true);
      } else {
        SetHooks(false);
        RestoreBlackListEntries(env);
      }
      return 0;
    }

    method IsPathIn(path: string) returns (ret: int)
      ensures ret == 0 <==> PathList.HasPath(list, path)
    {
      for i := 0 to |list|
        invariant forall k :: 0 <= k < i ==> list[k].path != path
      {
        if list[i].path == path { return 0; }
      }
      return 1;
    }

    method InsertPath(path: string, ino: nat) returns (ret: int)
      requires ino in attrs
      modifies this`list
      ensures (M(), ret) == AddPath(old(M()), Target(path, ino))
    {
      var present := IsPathIn(path);
      if present == 0 { return -EEXIST; }
      list := [Entry(path, ino, attrs[ino])] + list;
      return 0;
    }

    method DeletePath(env: Env, path: string) returns (ret: int)
      modifies this`list, this`attrs
      ensures (M(), ret) == DelPath(env, old(M()), path)
    {
      var i := 0;
      while i < |list|
        invariant 0 <= i <= |list| && list == old(list) && attrs == old(attrs)
        invariant forall k :: 0 <= k < i ==> !(path <= list[k].path)
      {
        if path <= list[i].path {
          var entry := list[i];
          match env.resolve(entry.path) {
            case None => ret := -ENOENT;
            case Some(t) =>
              attrs := attrs[t.ino := entry.saved];
              ret := 0;
          }
          list := list[..i] + list[i + 1..];
          assert PathList.FirstMatch(old(list), path) == i;
          return;
        }
        i := i + 1;
      }
      return -ENOENT;
    }

    method DoChangePath(env: Env, euid: nat, pwd: Option<string>, buf: array?<char>, op: int) returns (ret: int)
      requires Valid() && LookupFits(env) && InodesKnown(env, M())
      requires buf != null ==> buf.Length == PATH_MAX && CString.StrLen(buf[..]) < PATH_MAX
      modifies this`list, this`attrs, buf
      ensures Valid()
      ensures var b := if buf == null then None else Some(old(buf[..]));
              (M(), ret) == Syscalls.ChangePathIn(env, old(M()), euid, pwd, b, op)
    {
      if euid != env.admin { return -EPERM; }
      if buf == null { return -EINVAL; }
      if op != ADD_PATH && op != REMOVE_PATH { return -EINVAL; }
      ret := CheckPassword(env, pwd);
      if ret != 0 { return -EACCES; }
      if !(currentState == REC_OFF || currentState == REC_ON) { return -ECANCELED; }
      ret := PathBuffer.FillAbsolutePath(env, buf);
      if ret != 0 { return; }
      var path := CString.ReadStr(buf);
      if Forbidden(env, path) { return -EINVAL; }
      match env.resolve(path) {
        case None => return -ENOENT;
        case Some(t) =>
          assert env.resolve(path).value.ino in attrs;
          if op == ADD_PATH {
            ret := InsertPath(path, t.ino);
          } else {
            ret := DeletePath(env, path);
          }
      }
    }

    /** The digest changes, and nothing else, exactly when the administrator knows
        the old password and names a different one that is long enough; from then
        on the new password is the accepted one. */
    method DoChangePassword(env: Env, euid: nat, oldPwd: Option<string>, newPwd: Option<string>) returns (ret: int)
      modifies this`digest
      ensures ret == 0 <==> && euid == env.admin && PasswordOk(env, old(digest), oldPwd)
                            && newPwd.Some? && newPwd != oldPwd && |newPwd.value| > 8
      ensures ret == 0 ==> PasswordOk(env, digest, newPwd)
      ensures ret != 0 ==> digest == old(digest) && ret == if euid == env.admin then -EINVAL else -EPERM
      ensures (M(), ret) == ChangePassword(env, old(M()), euid, oldPwd, newPwd)
    {
      if euid != env.admin { return -EPERM; }
      if oldPwd.None? || newPwd.None? { return -EINVAL; }
      if |newPwd.value| <= 8 { return -EINVAL; }
      if oldPwd.value == newPwd.value { return -EINVAL; }
      ret := CheckPassword(env, oldPwd);
      if ret != 0 { return -EINVAL; }
      digest := env.hash(newPwd.value);
      return 0;
    }

    // ------------------------------------------------------------------- hooks

    method CheckBlackList(env: Env, path: string, isOpen: bool) returns (ret: int)
      ensures ret == 0 <==> Listed(env, M(), path, isOpen)
    {
      var target := env.resolve(path);
      for i := 0 to |list|
        invariant forall k :: 0 <= k < i ==> list[k].path != path
        invariant isOpen && target.Some? ==> forall k :: 0 <= k < i ==> list[k].ino != target.value.ino
      {
        if list[i].path == path { return 0; }
        if target.Some? && isOpen && list[i].ino == target.value.ino { return 0; }
      }
      return -EEXIST;
    }

    /** Clears the three write bits, sets the immutable flag, keeps every other
        bit and changes no other inode. */
    method MarkInodeReadOnly(ino: nat)
      modifies this`attrs
      ensures attrs.Keys == old(attrs.Keys)
      ensures ino in attrs ==> InodeMark.IsMarked(old(attrs)[ino], attrs[ino])
      ensures forall i :: i in attrs && i != ino ==> attrs[i] == old(attrs)[i]
      ensures M() == Mark(old(M()), ino)
    {
      if ino in attrs {
        InodeMark.MarkIsMarked(attrs[ino]);
        var mode := InodeMark.ClearWriteBits(attrs[ino].mode);
        var flags := InodeMark.SetImmutable(attrs[ino].flags);
        attrs := attrs[ino := Attr(mode, flags)];
      }
    }

    method MarkByPathname(env: Env, path: string) returns (ret: int)
      modifies this`attrs
      ensures (M(), ret == 0) == MarkPath(env, old(M()), path)
    {
      match env.resolve(path) {
        case None => ret := -ENOENT;
        case Some(t) =>
          MarkInodeReadOnly(t.ino);
          ret := 0;
      }
    }

    /** Solves the name in its buffer down to what is to be looked up. */
    method SolveName(env: Env, buf: array<char>) returns (s: Solved)
      requires buf.Length == PATH_MAX && CString.StrLen(buf[..]) < PATH_MAX && LookupFits(env)
      modifies buf
      ensures s == SolveOpen(env, old(buf[..]))
    {
      ghost var b := buf[..];
      var len := CString.StrLenOf(buf);
      if len < 6 {
        var short := CString.ReadStr(buf);
        return Look(short, false, false);
      }
      SwapString(b);
      var swap := PathBuffer.StripSwap(buf);
      FillFinds(env, SwapBuffer(b));
      AbsoluteString(env, SwapBuffer(b));
      var ret := PathBuffer.FillAbsolutePath(env, buf);
      if ret == 0 {
        var found := CString.ReadStr(buf);
        return Look(found, false, swap);
      }
      s := SolveParent(env, buf);
    }

    /** What is looked at for a file that does not exist. */
    method SolveParent(env: Env, buf: array<char>) returns (s: Solved)
      requires buf.Length == PATH_MAX && CString.StrLen(buf[..]) < PATH_MAX && LookupFits(env)
      modifies buf
      ensures var (parent, ret) := FillBuffer(env, ParentBuffer(old(buf[..])));
              s == if ret != 0 then Nothing else Look(CString.Str(parent), true, false)
    {
      ParentString(buf[..]);
      PathBuffer.GetParentPath(buf);
      var ret := PathBuffer.FillAbsolutePath(env, buf);
      if ret != 0 { return Nothing; }
      var parent := CString.ReadStr(buf);
      return Look(parent, true, false);
    }

    method PreDoFilpOpen(env: Env, args: OpenArgs, task: Audit.Task, noMemory: bool) returns (hookError: int)
      requires Valid() && OpenArgsOk(args) && LookupFits(env)
      modifies this`attrs, this`queue, this`denials, this`dropped, this`enqueued
      ensures Valid()
      ensures (M(), hookError) == OpenHook(env, old(M()), args)
      ensures A() == if hookError == -EACCES then Audit.TopHalf(old(A()), task, noMemory) else old(A())
    {
      if args.filename.None? { return 0; }
      if Forbidden(env, args.filename.value) { return 0; }
      if args.user.None? { return 0; }
      if args.noMemory { return -ENOMEM; }
      var buf := new char[PATH_MAX](i requires 0 <= i < PATH_MAX => args.user.value[i]);
      assert buf[..] == args.user.value;
      var s := SolveName(env, buf);
      var create, write := OpenFlags.WantsCreate(args.flags), OpenFlags.WantsWrite(args.flags);
      hookError := DecideOnPath(env, s, create, write, task, noMemory);
    }

    method DecideOnPath(env: Env, s: Solved, create: bool, write: bool, task: Audit.Task, noMemory: bool)
      returns (hookError: int)
      requires Valid()
      modifies this`attrs, this`queue, this`denials, this`dropped, this`enqueued
      ensures Valid()
      ensures (M(), hookError) == DecideOpen(env, old(M()), s, create, write)
      ensures A() == if hookError == -EACCES then Audit.TopHalf(old(A()), task, noMemory) else old(A())
    {
      if s.Nothing? { return 0; }
      var ret := CheckBlackList(env, s.path, true);
      if ret != 0 { return 0; }
      if s.missing && create {
        ret := MarkByPathname(env, s.path);
        if ret != 0 { return 0; }
      } else if !s.swap {
        if !write { return 0; }
        ret := MarkByPathname(env, s.path);
        if ret != 0 { return 0; }
      }
      DeferTopHalf(task, noMemory);
      return -EACCES;
    }

    method PreVfsMkRmdir(env: Env, parent: Option<string>, task: Audit.Task, noMemory: bool) returns (hookError: int)
      requires Valid()
      modifies this`attrs, this`queue, this`denials, this`dropped, this`enqueued
      ensures Valid()
      ensures (M(), hookError) == DirHook(env, old(M()), parent)
      ensures A() == if hookError == -EACCES then Audit.TopHalf(old(A()), task, noMemory) else old(A())
    {
      if parent.Some? {
        var ret := CheckBlackList(env, parent.value, false);
        if ret == 0 {
          ret := MarkByPathname(env, parent.value);
          DeferTopHalf(task, noMemory);
          return -EACCES;
        }
      }
      return 0;
    }

    method PreVfsUnlink(env: Env, file: Option<string>, parent: Option<string>, task: Audit.Task, noMemory: bool)
      returns (hookError: int)
      requires Valid()
      modifies this`attrs, this`queue, this`denials, this`dropped, this`enqueued
      ensures Valid()
      ensures (M(), hookError) == UnlinkHook(env, old(M()), file, parent)
      ensures A() == if hookError == -EACCES then Audit.TopHalf(old(A()), task, noMemory) else old(A())
    {
      if file.None? { return 0; }
      var ret := CheckBlackList(env, file.value, false);
      if ret == 0 {
        ret := MarkByPathname(env, file.value);
        DeferTopHalf(task, noMemory);
        return -EACCES;
      }
      hookError := PreVfsMkRmdir(env, parent, task, noMemory);
    }

    // ----------------------------------------------------------- deferred work

    /** One more denial is on the account, as a snapshot behind all queued ones or
        as a dropped one; the log and the works already queued stay. */
    method DeferTopHalf(task: Audit.Task, noMemory: bool)
      requires Valid()
      modifies this`queue, this`denials, this`dropped, this`enqueued
      ensures denials == old(denials) + 1 && denials - dropped - |queue| == old(denials - dropped - |queue|)
      ensures old(queue) <= queue && old(enqueued) <= enqueued
      ensures queue == old(queue) <==> noMemory || task.exe.None?
      ensures queue != old(queue) ==> queue[|queue| - 1].path == task.exe.value
      ensures forall header :: Audit.Inv(old(A()), header) ==> Audit.Inv(A(), header)
      ensures A() == Audit.TopHalf(old(A()), task, noMemory)
    {
      denials := denials + 1;
      if noMemory || task.exe.None? {
        dropped := dropped + 1;
        return;
      }
      forall header | Audit.Inv(old(A()), header) ensures Audit.Inv(Audit.TopHalf(old(A()), task, noMemory), header) {
        Audit.TopHalfKeepsInv(old(A()), header, task, noMemory);
      }
      var work := Audit.Work(task.tgid, task.tid, task.uid, task.euid, task.exe.value);
      queue := queue + [work];
      enqueued := enqueued + [work];
    }

    /** Runs the oldest work: its whole line is appended if there is a digest, enough
        room and no fault, and otherwise the whole line or nothing is. The line has
        to fit the two pages it is built in. */
    method DeferBottomHalf(hash: Option<string>, faults: nat -> BlockStore.Fault) returns (ok: bool)
      requires Valid() && queue != []
      requires hash.Some? ==> |Audit.Record(queue[0], hash.value)| < 2 * 4096
      modifies this`queue, this`finished, store, store.disk
      ensures Valid()
      ensures A() == Audit.BottomHalf(old(A()), hash, !ok, store.maxFileSize)
      ensures (&& hash.Some? && (forall i: nat :: faults(i).NoFault?)
               && old(store.size) + |Audit.Record(old(queue)[0], hash.value)| < store.maxFileSize
               && (BlockStore.DATA_START + old(store.size) + |Audit.Record(old(queue)[0], hash.value)|
                   <= store.disk.Length))
              ==> ok
      ensures ok ==> hash.Some? && store.Contents() == old(store.Contents()) + Audit.Record(old(queue)[0], hash.value)
    {
      var work := queue[0];
      queue := queue[1..];
      ok := false;
      if hash.Some? {
        var line := Audit.Record(work, hash.value);
        var ret, pos := store.Write(line, 0, faults);
        ok := ret >= 0;
      }
      finished := finished + [Audit.Finished(work, if ok then hash else None)];
    }
  }
}
