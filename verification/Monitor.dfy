/** The reference monitor's calls as single steps on its global state: the
    transitions, their guards and error codes, and the invariant that ties the
    hooks, the saved attributes and the inodes together. */
module Monitor {
  import opened KernelTypes
  import InodeMark
  import opened PathList

  /** What the monitor takes from the rest of the kernel: the administrator's
      uid, the password digest function, path lookup, the working directory
      and the name of the audit log. */
  datatype Env = Env(
    admin: nat,
    hash: string -> string,
    resolve: string -> Option<Target>,
    cwd: string,
    logFile: string)

  /** The monitor's globals, with the mode and flags of every inode. */
  datatype MState = MState(
    state: int,
    hooks: seq<bool>,
    list: seq<Entry>,
    attrs: map<nat, Attr>,
    digest: string)

  predicate ValidState(st: int) {
    st == ON || st == OFF || st == REC_ON || st == REC_OFF
  }

  predicate HooksOn(st: int) {
    st == ON || st == REC_ON
  }

  // ------------------------------------------------------------------- paths

  /** A relative name is completed with the working directory. */
  function Absolute(env: Env, name: string): string {
    if name != [] && name[0] == '/' then name
    else
      var s := env.cwd + "/" + name;
      if |s| < PATH_MAX then s else s[..PATH_MAX - 1]
  }

  predicate Forbidden(env: Env, path: string) {
    || path == "/"
    || "/proc" <= path || "/sys" <= path || "/run" <= path || "/var" <= path
    || "/tmp" <= path || "/bin" <= path || "/etc" <= path || "/lib" <= path
    || path == env.logFile
  }

  // ------------------------------------------------------------------- inodes

  /** Writes saved attributes back, from the head of the list to its tail. */
  function RestoreAll(env: Env, l: seq<Entry>, attrs: map<nat, Attr>): map<nat, Attr> {
    if l == [] then attrs
    else RestoreAll(env, l[1..], RestoreOne(env, l[0], attrs))
  }

  function RestoreOne(env: Env, e: Entry, attrs: map<nat, Attr>): map<nat, Attr> {
    match env.resolve(e.path)
    case None => attrs
    case Some(t) => attrs[t.ino := e.saved]
  }

  function Mark(m: MState, ino: nat): MState {
    if ino in m.attrs then m.(attrs := m.attrs[ino := InodeMark.MarkAttr(m.attrs[ino])]) else m
  }

  // -------------------------------------------------------------------- calls

  /** A null pointer is not a password. */
  predicate PasswordOk(env: Env, digest: string, pwd: Option<string>) {
    pwd.Some? && env.hash(pwd.value) == digest
  }

  function SetState(env: Env, m: MState, st: int): MState {
    var m' := m.(state := st, hooks := seq(HOOKS_SIZE, _ => HooksOn(st)));
    if HooksOn(st) then m' else m'.(attrs := RestoreAll(env, m.list, m.attrs))
  }

  function ChangeState(env: Env, m: MState, euid: nat, pwd: Option<string>, st: int): (MState, int) {
    if euid != env.admin then (m, -EPERM)
    else if pwd.None? || !ValidState(st) then (m, -EINVAL)
    else if !PasswordOk(env, m.digest, pwd) then (m, -EACCES)
    else if m.state == st then (m, -ECANCELED)
    else (SetState(env, m, st), 0)
  }

  function AddPath(m: MState, t: Target): (MState, int)
    requires t.ino in m.attrs
  {
    if HasPath(m.list, t.path) then (m, -EEXIST)
    else (m.(list := [Entry(t.path, t.ino, m.attrs[t.ino])] + m.list), 0)
  }

  /** Takes out entry `k` and gives its inode the attributes saved there. */
  function RemoveAt(env: Env, m: MState, k: nat): MState
    requires k < |m.list|
  {
    m.(list := Cut(m.list, k), attrs := RestoreOne(env, m.list[k], m.attrs))
  }

  function DelPath(env: Env, m: MState, path: string): (MState, int) {
    var k := FirstMatch(m.list, path);
    if k == |m.list| then (m, -ENOENT)
    else (RemoveAt(env, m, k), if env.resolve(m.list[k].path).Some? then 0 else -ENOENT)
  }

  function ChangePassword(env: Env, m: MState, euid: nat, oldPwd: Option<string>, newPwd: Option<string>)
    : (MState, int)
  {
    if euid != env.admin then (m, -EPERM)
    else if oldPwd.None? || newPwd.None? then (m, -EINVAL)
    else if |newPwd.value| <= 8 then (m, -EINVAL)
    else if oldPwd == newPwd then (m, -EINVAL)
    else if !PasswordOk(env, m.digest, oldPwd) then (m, -EINVAL)
    else (m.(digest := env.hash(newPwd.value)), 0)
  }

  /** A change that succeeds makes the new password the accepted one, keeps the
      old one only if it has the same digest, and changes nothing else; changing
      back undoes it if and only if the old password is long enough. A change
      that fails changes nothing. */
  lemma NewPasswordReplacesOld(env: Env, m: MState, euid: nat, o: string, n: string)
    ensures var (m', ret) := ChangePassword(env, m, euid, Some(o), Some(n));
            && (ret == 0 ==> PasswordOk(env, m'.digest, Some(n)) && m' == m.(digest := m'.digest))
            && (ret == 0 ==> (PasswordOk(env, m'.digest, Some(o)) <==> env.hash(o) == env.hash(n)))
            && (ret == 0 ==> (ChangePassword(env, m', euid, Some(n), Some(o)) == (m, 0) <==> |o| > 8))
            && (ret != 0 ==> m' == m)
  {
  }

  /** Right after loading: hooks registered but disabled, nothing protected. */
  function Loaded(env: Env, password: string, attrs: map<nat, Attr>): MState {
    MState(OFF, seq(HOOKS_SIZE, _ => false), [], attrs, env.hash(password))
  }

  /** Unloading restores the inodes and then empties the list. */
  function Unload(env: Env, m: MState): MState {
    m.(hooks := [], attrs := RestoreAll(env, m.list, m.attrs), list := [])
  }

  // ---------------------------------------------------------------- invariant

  /** Path lookup is stable and canonical: what it returns looks up to itself. */
  ghost predicate Canonical(env: Env) {
    forall p :: env.resolve(p).Some? ==> env.resolve(env.resolve(p).value.path) == env.resolve(p)
  }

  ghost predicate Knows(env: Env, attrs: map<nat, Attr>) {
    forall p :: env.resolve(p).Some? ==> env.resolve(p).value.ino in attrs
  }

  ghost predicate InodesKnown(env: Env, m: MState) {
    Knows(env, m.attrs)
  }

  /** No entry further from the head, that is no older one, has the same inode. */
  ghost predicate IsOldest(l: seq<Entry>, i: nat)
    requires i < |l|
  {
    forall j :: i < j < |l| ==> l[j].ino != l[i].ino
  }

  ghost predicate EntriesOk(env: Env, m: MState, base: map<nat, Attr>) {
    && UniquePaths(m.list)
    && (forall i :: 0 <= i < |m.list| ==> EntryOk(env, m.list[i], base))
    && (forall i :: 0 <= i < |m.list| && IsOldest(m.list, i) ==> m.list[i].saved == base[m.list[i].ino])
  }

  /** The path leads to this inode, by whatever name lookup knows it. */
  predicate LeadsTo(env: Env, path: string, ino: nat) {
    env.resolve(path).Some? && env.resolve(path).value.ino == ino
  }

  ghost predicate EntryOk(env: Env, e: Entry, base: map<nat, Attr>) {
    && LeadsTo(env, e.path, e.ino) && !Forbidden(env, e.path)
    && e.ino in base
    && (e.saved == base[e.ino] || e.saved == InodeMark.MarkAttr(base[e.ino]))
  }

  /** An inode is untouched, or it is listed, the hooks are on and it is marked. */
  ghost predicate InodeOk(m: MState, base: map<nat, Attr>, ino: nat)
    requires ino in base && ino in m.attrs
  {
    || m.attrs[ino] == base[ino]
    || (m.attrs[ino] == InodeMark.MarkAttr(base[ino]) && HasIno(m.list, ino) && HooksOn(m.state))
  }

  /** `base` gives every inode's own attributes, which nobody else changes. */
  ghost predicate Inv(env: Env, m: MState, base: map<nat, Attr>) {
    && ValidState(m.state)
    && m.hooks == seq(HOOKS_SIZE, _ => HooksOn(m.state))
    && m.attrs.Keys == base.Keys
    && InodesKnown(env, m)
    && EntriesOk(env, m, base)
    && (forall ino :: ino in base ==> InodeOk(m, base, ino))
  }

  /** With the monitor off, every inode has its own attributes. */
  lemma OffMeansUntouched(env: Env, m: MState, base: map<nat, Attr>)
    requires Inv(env, m, base) && !HooksOn(m.state)
    ensures m.attrs == base
  {
    forall ino | ino in base ensures m.attrs[ino] == base[ino] {
      assert InodeOk(m, base, ino);
    }
  }

  // -------------------------------------------------------------- restoration

  ghost predicate Resolves(env: Env, l: seq<Entry>) {
    forall i :: 0 <= i < |l| ==> LeadsTo(env, l[i].path, l[i].ino)
  }

  /** Restoring from head to tail gives each inode the attributes saved by its
      oldest entry, however many paths lead to it, and leaves the rest alone. */
  lemma {:induction false} RestoreGivesOldest(env: Env, l: seq<Entry>, attrs: map<nat, Attr>)
    requires Resolves(env, l)
    requires forall i :: 0 <= i < |l| ==> l[i].ino in attrs
    ensures var r := RestoreAll(env, l, attrs);
            && r.Keys == attrs.Keys
            && (forall i :: 0 <= i < |l| && IsOldest(l, i) ==> r[l[i].ino] == l[i].saved)
            && (forall ino :: ino in attrs && !HasIno(l, ino) ==> r[ino] == attrs[ino])
    decreases |l|
  {
    if l != [] {
      var tail, attrs' := l[1..], RestoreOne(env, l[0], attrs);
      assert forall i :: 0 <= i < |tail| ==> tail[i] == l[i + 1];
      RestoreGivesOldest(env, tail, attrs');
      var r := RestoreAll(env, l, attrs);
      assert forall ino :: HasIno(tail, ino) ==> HasIno(l, ino);
      forall i | 0 <= i < |l| && IsOldest(l, i) ensures r[l[i].ino] == l[i].saved {
        if i == 0 {
          assert !HasIno(tail, l[0].ino);
        } else {
          assert IsOldest(tail, i - 1);
        }
      }
      assert HasIno(l, l[0].ino);
    }
  }

  /** The oldest entry of a listed inode. */
  lemma {:induction false} OldestExists(l: seq<Entry>, ino: nat) returns (k: nat)
    requires HasIno(l, ino)
    ensures k < |l| && l[k].ino == ino && IsOldest(l, k)
    decreases |l|
  {
    var i: nat :| i < |l| && l[i].ino == ino;
    var tail := l[i + 1..];
    assert forall j :: 0 <= j < |tail| ==> tail[j] == l[i + 1 + j];
    if HasIno(tail, ino) {
      var k' := OldestExists(tail, ino);
      k := i + 1 + k';
      forall j | k < j < |l| ensures l[j].ino != ino { assert tail[j - i - 1].ino != ino; }
    } else {
      k := i;
      forall j | k < j < |l| ensures l[j].ino != ino { assert tail[j - i - 1] == l[j]; }
    }
  }

  /** From any state that satisfies the invariant, hard-link aliases included,
      restoring brings every inode back to its own attributes. */
  lemma RestoreGivesBase(env: Env, m: MState, base: map<nat, Attr>)
    requires Inv(env, m, base)
    ensures RestoreAll(env, m.list, m.attrs) == base
  {
    RestoreGivesOldest(env, m.list, m.attrs);
    var r := RestoreAll(env, m.list, m.attrs);
    forall ino | ino in base ensures r[ino] == base[ino] {
      assert InodeOk(m, base, ino);
      if HasIno(m.list, ino) {
        var k := OldestExists(m.list, ino);
        assert r[m.list[k].ino] == m.list[k].saved;
      }
    }
  }

  // ------------------------------------------------------- what each call keeps

  lemma LoadedInv(env: Env, password: string, base: map<nat, Attr>)
    requires InodesKnown(env, Loaded(env, password, base))
    ensures Inv(env, Loaded(env, password, base), base)
  {
  }

  lemma UnloadRestores(env: Env, m: MState, base: map<nat, Attr>)
    requires Inv(env, m, base)
    ensures Unload(env, m).attrs == base && Unload(env, m).list == []
  {
    RestoreGivesBase(env, m, base);
  }

  lemma SetStateKeepsInv(env: Env, m: MState, base: map<nat, Attr>, st: int)
    requires Inv(env, m, base) && ValidState(st)
    ensures Inv(env, SetState(env, m, st), base)
  {
    var m' := SetState(env, m, st);
    RestoreGivesBase(env, m, base);
    if HooksOn(st) {
      forall ino | ino in base ensures InodeOk(m', base, ino) { assert InodeOk(m, base, ino); }
    }
  }

  lemma MarkKeepsInv(env: Env, m: MState, base: map<nat, Attr>, ino: nat)
    requires Inv(env, m, base) && HasIno(m.list, ino) && HooksOn(m.state)
    ensures Inv(env, Mark(m, ino), base)
  {
    var m' := Mark(m, ino);
    forall i | i in base ensures InodeOk(m', base, i) {
      assert InodeOk(m, base, i);
      InodeMark.MarkTwice(base[i]);
    }
  }

  /** A new head is oldest only of an unlisted inode; all others stay what they were. */
  lemma PushOldest(e: Entry, l: seq<Entry>, i: nat)
    requires i <= |l| && IsOldest([e] + l, i)
    ensures if i == 0 then !HasIno(l, e.ino) else IsOldest(l, i - 1)
  {
    var l' := [e] + l;
    assert forall j :: 0 <= j < |l| ==> l[j] == l'[j + 1];
  }

  lemma PushIno(e: Entry, l: seq<Entry>, ino: nat)
    requires HasIno(l, ino)
    ensures HasIno([e] + l, ino)
  {
    var j :| 0 <= j < |l| && l[j].ino == ino;
    assert ([e] + l)[j + 1].ino == ino;
  }

  /** Inserting an entry keeps the invariant if it saved its inode's own attributes
      or is not the inode's first. */
  lemma InsertKeepsInv(env: Env, m: MState, base: map<nat, Attr>, e: Entry)
    requires Inv(env, m, base) && EntryOk(env, e, base) && !HasPath(m.list, e.path)
    requires e.saved == base[e.ino] || HasIno(m.list, e.ino)
    ensures Inv(env, m.(list := [e] + m.list), base)
  {
    var l, l' := m.list, [e] + m.list;
    var m' := m.(list := l');
    assert forall i :: 0 < i < |l'| ==> l'[i] == l[i - 1];
    forall i | 0 <= i < |l'| ensures EntryOk(env, l'[i], base) {
      if i > 0 { assert EntryOk(env, l[i - 1], base); }
    }
    forall i: nat | i < |l'| && IsOldest(l', i) ensures l'[i].saved == base[l'[i].ino] {
      PushOldest(e, l, i);
    }
    forall ino | ino in base ensures InodeOk(m', base, ino) {
      assert InodeOk(m, base, ino);
      if HasIno(l, ino) { PushIno(e, l, ino); }
    }
  }

  lemma AddKeepsInv(env: Env, m: MState, base: map<nat, Attr>, t: Target)
    requires Inv(env, m, base) && LeadsTo(env, t.path, t.ino) && !Forbidden(env, t.path)
    ensures t.ino in m.attrs
    ensures Inv(env, AddPath(m, t).0, base)
  {
    assert env.resolve(t.path).value.ino in m.attrs;
    assert InodeOk(m, base, t.ino);
    if !HasPath(m.list, t.path) {
      InsertKeepsInv(env, m, base, Entry(t.path, t.ino, m.attrs[t.ino]));
    }
  }
}
