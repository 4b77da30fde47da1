/** The three administrative calls as the kernel receives them. A path arrives in
    a buffer and is looked up there, so what stands behind it can decide which
    path the call works on. */
module Syscalls {
  import opened KernelTypes
  import opened CString
  import PathList
  import opened Monitor
  import opened PathSolver

  type NameBuffer = b: seq<char> | |b| == PATH_MAX witness seq(PATH_MAX, _ => '\0')

  /** Passwords and the path's buffer are absent for null pointers. */
  datatype Call =
    | StateCall(pwd: Option<string>, st: int)
    | PathCall(pwd: Option<string>, buffer: Option<NameBuffer>, op: int)
    | PasswordCall(oldPwd: Option<string>, newPwd: Option<string>)

  /** The buffer holds a terminated string. */
  ghost predicate BufferOk(b: seq<char>) {
    |b| == PATH_MAX && StrLen(b) < PATH_MAX
  }

  ghost predicate CallOk(c: Call) {
    c.PathCall? && c.buffer.Some? ==> BufferOk(c.buffer.value)
  }

  // -------------------------------------------------------- looking a path up

  datatype Lookup = Found(target: Target) | Failed(err: int)

  /** What a path call works on: the path left in its buffer by the lookup, with
      the inode that path leads to. */
  function LookUp(env: Env, b: seq<char>): (r: Lookup)
    requires |b| == PATH_MAX && LookupFits(env)
    ensures r.Found? ==> LeadsTo(env, r.target.path, r.target.ino) && !Forbidden(env, r.target.path)
  {
    var (buffer, ret) := FillBuffer(env, b);
    if ret != 0 then Failed(ret)
    else
      var path := Str(buffer);
      if Forbidden(env, path) then Failed(-EINVAL)
      else if env.resolve(path).None? then Failed(-ENOENT)
      else Found(Target(path, env.resolve(path).value.ino))
  }

  /** What the caller means by a name: the canonical path of what it leads to. */
  function LookUpName(env: Env, name: string): (r: Lookup)
    requires Canonical(env)
    ensures r.Found? ==> LeadsTo(env, r.target.path, r.target.ino) && !Forbidden(env, r.target.path)
  {
    match env.resolve(Absolute(env, name))
    case None => Failed(-ENOENT)
    case Some(t) => if Forbidden(env, t.path) then Failed(-EINVAL) else Found(t)
  }

  /** The name's canonical path can take its place in the buffer; or it cannot,
      and the call is refused either way because both the canonical path and the
      one that stays in the buffer are exempt from protection. */
  predicate NameKept(env: Env, b: seq<char>)
    requires |b| == PATH_MAX && LookupFits(env)
  {
    var a := AbsoluteBuffer(env, b);
    match env.resolve(Str(a))
    case None => true
    case Some(t) =>
      assert LookupFitsAt(env, Str(a));
      TakesPlace(a, t.path) || (Forbidden(env, t.path) && Forbidden(env, Overlaid(a, t.path)))
  }

  lemma OverlaidLonger(b: seq<char>, s: string)
    requires |s| < |b| && !TakesPlace(b, s)
    ensures |Overlaid(b, s)| > |s|
  {
    assert b[|s|..][0] == b[|s|];
  }

  lemma SameLookupIff(env: Env, b: seq<char>)
    requires BufferOk(b) && LookupFits(env) && Canonical(env)
    ensures LookUp(env, b) == LookUpName(env, Str(b)) <==> NameKept(env, b)
    ensures !NameKept(env, b) && LookUp(env, b).Found? && LookUpName(env, Str(b)).Found? ==>
              |LookUp(env, b).target.path| > |LookUpName(env, Str(b)).target.path|
    ensures !NameKept(env, b) ==> LookUpName(env, Str(b)) != Failed(-ENOENT)
  {
    FillFinds(env, b);
    AbsoluteString(env, b);
    var a, t := AbsoluteBuffer(env, b), env.resolve(Absolute(env, Str(b)));
    if t.Some? && !TakesPlace(a, t.value.path) { OverlaidLonger(a, t.value.path); }
  }

  lemma PaddedKeepsName(env: Env, b: seq<char>, name: string)
    requires |b| == PATH_MAX && Padded(b, name) && LookupFits(env)
    ensures BufferOk(b) && Str(b) == name && NameKept(env, b)
  {
    PaddedStr(b, name);
    AbsolutePadded(env, b, name);
    var full := Absolute(env, name);
    PaddedStr(AbsoluteBuffer(env, b), full);
    assert LookupFitsAt(env, full);
  }

  // -------------------------------------------------------------- path calls

  /** A path call from this caller passes the guards. */
  predicate Admitted(env: Env, m: MState, euid: nat, pwd: Option<string>) {
    euid == env.admin && PasswordOk(env, m.digest, pwd) && (m.state == REC_ON || m.state == REC_OFF)
  }

  /** Guards in the order in which they are tested, then the addition or removal. */
  function ChangeList(env: Env, m: MState, euid: nat, pwd: Option<string>, l: Option<Lookup>, op: int): (MState, int)
    requires InodesKnown(env, m)
    requires l.Some? && l.value.Found? ==> LeadsTo(env, l.value.target.path, l.value.target.ino)
  {
    if euid != env.admin then (m, -EPERM)
    else if l.None? then (m, -EINVAL)
    else if op != ADD_PATH && op != REMOVE_PATH then (m, -EINVAL)
    else if !PasswordOk(env, m.digest, pwd) then (m, -EACCES)
    else if m.state != REC_OFF && m.state != REC_ON then (m, -ECANCELED)
    else
      match l.value
      case Failed(err) => (m, err)
      case Found(t) =>
        assert env.resolve(t.path).value.ino in m.attrs;
        if op == ADD_PATH then AddPath(m, t) else DelPath(env, m, t.path)
  }

  /** The call as it runs, on a buffer. */
  function ChangePathIn(env: Env, m: MState, euid: nat, pwd: Option<string>, b: Option<seq<char>>, op: int)
    : (MState, int)
    requires LookupFits(env) && InodesKnown(env, m) && (b.Some? ==> |b.value| == PATH_MAX)
  {
    ChangeList(env, m, euid, pwd, if b.None? then None else Some(LookUp(env, b.value)), op)
  }

  /** The call as it is meant, on a name. */
  function ChangePath(env: Env, m: MState, euid: nat, pwd: Option<string>, name: Option<string>, op: int)
    : (MState, int)
    requires Canonical(env) && InodesKnown(env, m)
  {
    ChangeList(env, m, euid, pwd, if name.None? then None else Some(LookUpName(env, name.value)), op)
  }

  function Execute(env: Env, m: MState, euid: nat, c: Call): (MState, int)
    requires LookupFits(env) && InodesKnown(env, m)
  {
    match c
    case StateCall(pwd, st) => ChangeState(env, m, euid, pwd, st)
    case PathCall(pwd, b, op) => ChangePathIn(env, m, euid, pwd, b, op)
    case PasswordCall(o, n) => ChangePassword(env, m, euid, o, n)
  }

  /** A monitor in reconfiguration mode that protects nothing yet. */
  lemma Reconfiguring(env: Env, base: map<nat, Attr>, pwd: string) returns (m: MState)
    requires Knows(env, base)
    ensures Inv(env, m, base) && m.state == REC_ON && m.list == [] && m.attrs == base
    ensures m.digest == env.hash(pwd)
  {
    var m0 := Loaded(env, pwd, base);
    LoadedInv(env, pwd, base);
    SetStateKeepsInv(env, m0, base, REC_ON);
    m := SetState(env, m0, REC_ON);
  }

  lemma RemovalsDiffer(env: Env, base: map<nat, Attr>, pwd: string, l: Lookup, meant: Lookup) returns (m: MState)
    requires Knows(env, base) && l != meant && meant != Failed(-ENOENT)
    requires l.Found? ==> LeadsTo(env, l.target.path, l.target.ino)
    requires meant.Found? ==> LeadsTo(env, meant.target.path, meant.target.ino) && !Forbidden(env, meant.target.path)
    requires l.Found? && meant.Found? ==> |l.target.path| > |meant.target.path|
    ensures Inv(env, m, base)
    ensures ChangeList(env, m, env.admin, Some(pwd), Some(l), REMOVE_PATH)
         != ChangeList(env, m, env.admin, Some(pwd), Some(meant), REMOVE_PATH)
  {
    m := Reconfiguring(env, base, pwd);
    if meant.Found? {
      AddKeepsInv(env, m, base, meant.target);
      m := AddPath(m, meant.target).0;
      assert PathList.FirstMatch(m.list, meant.target.path) == 0;
    }
  }

  lemma AdditionsDiffer(env: Env, base: map<nat, Attr>, pwd: string, l: Lookup, meant: Lookup) returns (m: MState)
    requires Knows(env, base) && l != meant
    requires l.Found? ==> LeadsTo(env, l.target.path, l.target.ino)
    requires meant.Found? ==> LeadsTo(env, meant.target.path, meant.target.ino)
    ensures Inv(env, m, base)
    ensures ChangeList(env, m, env.admin, Some(pwd), Some(l), ADD_PATH)
         != ChangeList(env, m, env.admin, Some(pwd), Some(meant), ADD_PATH)
  {
    m := Reconfiguring(env, base, pwd);
    if l.Found? { assert AddPath(m, l.target).0.list[0].path == l.target.path; }
    if meant.Found? { assert AddPath(m, meant.target).0.list[0].path == meant.target.path; }
  }

  ghost predicate AgreeOn(env: Env, m: MState, euid: nat, pwd: Option<string>, b: seq<char>, op: int)
    requires LookupFits(env) && Canonical(env) && InodesKnown(env, m) && |b| == PATH_MAX
  {
    ChangePathIn(env, m, euid, pwd, Some(b), op) == ChangePath(env, m, euid, pwd, Some(Str(b)), op)
  }

  /** For every buffer, password and operation: in all states of the invariant
      and for all callers the call on the buffer does what it is meant to do on
      the name in it, if and only if the buffer keeps the name's canonical path. */
  lemma BufferCallIsNameCallIff(env: Env, base: map<nat, Attr>, pwd: string, b: seq<char>, op: int)
    requires LookupFits(env) && Canonical(env) && Knows(env, base) && BufferOk(b)
    requires op == ADD_PATH || op == REMOVE_PATH
    ensures (forall m, euid :: Inv(env, m, base) ==> AgreeOn(env, m, euid, Some(pwd), b, op)) <==> NameKept(env, b)
  {
    SameLookupIff(env, b);
    if !NameKept(env, b) {
      var l, meant := LookUp(env, b), LookUpName(env, Str(b));
      var m;
      if op == ADD_PATH { m := AdditionsDiffer(env, base, pwd, l, meant); }
      else { m := RemovalsDiffer(env, base, pwd, l, meant); }
      assert !AgreeOn(env, m, env.admin, Some(pwd), b, op);
    }
  }

  // ------------------------------------------------------------- entry points

  const MAX_FROM_USER := 256

  /** User memory copied to a cleared buffer; the copy may end early, which the
      entry point does not notice. */
  function FromUser(bytes: seq<char>): (b: seq<char>)
    requires |bytes| <= MAX_FROM_USER
    ensures |b| == PATH_MAX && StrLen(b) <= |bytes| && bytes <= b
  {
    var b := bytes + Zeros(PATH_MAX - |bytes|);
    assert b[|bytes|] == NUL;
    b
  }

  function SysChangeState(env: Env, m: MState, euid: nat, pwd: Option<string>, st: int): (MState, int) {
    if pwd.None? then (m, -EINVAL) else ChangeState(env, m, euid, pwd, st)
  }

  /** `user` is what was copied from the caller's path pointer. */
  function SysChangePaths(env: Env, m: MState, euid: nat, pwd: Option<string>, user: Option<seq<char>>, op: int)
    : (MState, int)
    requires LookupFits(env) && InodesKnown(env, m) && (user.Some? ==> |user.value| <= MAX_FROM_USER)
  {
    if pwd.None? || user.None? then (m, -EINVAL) else ChangePathIn(env, m, euid, pwd, Some(FromUser(user.value)), op)
  }

  /** Null pointers are not tested for: nothing is copied from them, which leaves
      an empty password. */
  function SysChangePassword(env: Env, m: MState, euid: nat, o: Option<string>, n: Option<string>): (MState, int) {
    ChangePassword(env, m, euid, Some(OrEmpty(o)), Some(OrEmpty(n)))
  }

  function OrEmpty(s: Option<string>): string {
    if s.Some? then s.value else ""
  }
}
