/** What the hooks promise on the names and memory that reach them: when an open
    for writing of a protected file fails, when the open hook decides just as it
    sets out to, and when the directory hooks protect an inode by its path. */
module HookPromises {
  import opened KernelTypes
  import opened CString
  import opened PathList
  import opened Monitor
  import opened PathSolver
  import opened OpenFlags
  import opened Hooks

  // ---------------------------------------------------- opening for writing fails

  /** The path the open hook is left with leads to this inode: a short name as it
      stands, otherwise the canonical path of what is found, laid over the
      buffer. */
  predicate LooksAt(env: Env, b: seq<char>, ino: nat)
    requires |b| == PATH_MAX && LookupFits(env)
  {
    if StrLen(b) < 6 then LeadsTo(env, Str(b), ino)
    else
      var a := FoundIn(env, b);
      assert LookupFitsAt(env, Str(a));
      env.resolve(Str(a)).Some? && LeadsTo(env, Overlaid(a, env.resolve(Str(a)).value.path), ino)
  }

  /** The buffer in which the hook finds its target holds that target's name. */
  lemma FoundIsAim(env: Env, b: seq<char>)
    requires |b| == PATH_MAX && StrLen(b) < |b| && LookupFits(env)
    ensures env.resolve(Str(FoundIn(env, b))) == Aim(env, Str(b)).0
  {
    SwapString(b);
    AbsoluteString(env, SwapBuffer(b));
    var a := AbsoluteBuffer(env, SwapBuffer(b));
    ParentString(a);
    AbsoluteString(env, ParentBuffer(a));
  }

  lemma LooksAtIff(env: Env, b: seq<char>, ino: nat)
    requires |b| == PATH_MAX && StrLen(b) < |b| && LookupFits(env)
    ensures LooksAt(env, b, ino) <==> SolveOpen(env, b).Look? && LeadsTo(env, SolveOpen(env, b).path, ino)
  {
    if StrLen(b) >= 6 {
      FoundIsAim(env, b);
      SolveOpenFinds(env, b);
      if Aim(env, Str(b)).0.Some? { SolveOpenLeaves(env, b); }
    }
  }

  ghost predicate UserOk(user: Option<seq<char>>) {
    user.Some? ==> |user.value| == PATH_MAX && StrLen(user.value) < PATH_MAX
  }

  /** The hook makes the open fail. */
  predicate Fails(env: Env, m: MState, args: OpenArgs)
    requires OpenArgsOk(args) && LookupFits(env)
  {
    OpenHook(env, m, args).1 != 0
  }

  /** The hook gets to look at the inode: the name is not exempt, its memory is
      there, and the path the hook is left with leads to it. */
  ghost predicate Watches(env: Env, name: string, user: Option<seq<char>>, ino: nat)
    requires UserOk(user) && LookupFits(env)
  {
    !Forbidden(env, name) && user.Some? && LooksAt(env, user.value, ino)
  }

  lemma WatchedFails(
      env: Env, base: map<nat, Attr>, m: MState, t: Target, name: string, user: Option<seq<char>>,
      flags: bv32, noMemory: bool)
    requires LookupFits(env) && Inv(env, m, base) && env.resolve(t.path) == Some(t) && Protected(m, t)
    requires AsksToWrite(flags) && UserOk(user) && Watches(env, name, user, t.ino)
    ensures Fails(env, m, OpenArgs(Some(name), user, flags, noMemory))
  {
    WantsWriteIff(flags);
    LooksAtIff(env, user.value, t.ino);
    ProtectedByInode(env, m, base, t.path);
  }

  /** With just one path protected, an open for writing that is not watched is let
      through and changes nothing. */
  lemma UnwatchedPasses(env: Env, m: MState, e: Entry, name: string, user: Option<seq<char>>)
    requires LookupFits(env) && UserOk(user) && m.list == [e] && LeadsTo(env, e.path, e.ino)
    requires !Watches(env, name, user, e.ino)
    ensures OpenHook(env, m, OpenArgs(Some(name), user, O_WRONLY, false)) == (m, 0)
  {
    if !Forbidden(env, name) && user.Some? {
      LooksAtIff(env, user.value, e.ino);
      var s := SolveOpen(env, user.value);
      if s.Look? { OneEntry(e, s.path, if env.resolve(s.path).Some? then env.resolve(s.path).value.ino else 0); }
    }
  }

  /** For every name that leads to a target, and whatever the user's memory holds
      when it is read again: in all states of the invariant every attempt to open
      the target for writing while it is protected fails, if and only if the hook
      watches its inode or no path to it can be protected at all. */
  lemma WriteOpenFailsIff(env: Env, base: map<nat, Attr>, name: string, user: Option<seq<char>>, t: Target)
    requires LookupFits(env) && Canonical(env) && Knows(env, base) && UserOk(user)
    requires env.resolve(Absolute(env, name)) == Some(t)
    ensures (forall m, flags, noMemory :: Inv(env, m, base) && Protected(m, t) && AsksToWrite(flags) ==>
              Fails(env, m, OpenArgs(Some(name), user, flags, noMemory)))
            <==> Watches(env, name, user, t.ino) || !Protectable(env, t.ino)
  {
    assert env.resolve(t.path) == Some(t);
    if Watches(env, name, user, t.ino) {
      forall m, flags, noMemory | Inv(env, m, base) && Protected(m, t) && AsksToWrite(flags)
        ensures Fails(env, m, OpenArgs(Some(name), user, flags, noMemory))
      {
        WatchedFails(env, base, m, t, name, user, flags, noMemory);
      }
    } else if Protectable(env, t.ino) {
      var m := UnwatchedShows(env, base, name, user, t);
    } else {
      forall m | Inv(env, m, base) ensures !Protected(m, t) { ProtectedByInode(env, m, base, t.path); }
    }
  }

  lemma UnwatchedShows(env: Env, base: map<nat, Attr>, name: string, user: Option<seq<char>>, t: Target)
    returns (m: MState)
    requires LookupFits(env) && Knows(env, base) && UserOk(user)
    requires !Watches(env, name, user, t.ino) && Protectable(env, t.ino)
    ensures Inv(env, m, base) && Protected(m, t) && AsksToWrite(O_WRONLY)
    ensures !Fails(env, m, OpenArgs(Some(name), user, O_WRONLY, false))
  {
    WriteFlag();
    var p :| LeadsTo(env, p, t.ino) && !Forbidden(env, p);
    m := ProtectOne(env, base, p, t.ino);
    OneEntry(m.list[0], t.path, t.ino);
    UnwatchedPasses(env, m, m.list[0], name, user);
  }

  // ------------------------------------------------- the decision as set out for

  /** The whole handler, on a name that stands in the user's memory. */
  predicate HookDenies(env: Env, m: MState, b: seq<char>, flags: bv32)
    requires |b| == PATH_MAX && StrLen(b) < PATH_MAX && LookupFits(env)
  {
    OpenHook(env, m, OpenArgs(Some(Str(b)), Some(b), flags, false)).1 == -EACCES
  }

  predicate HookShould(env: Env, m: MState, b: seq<char>, flags: bv32) {
    ShouldDeny(env, m, Str(b), AsksToCreate(flags), AsksToWrite(flags))
  }

  /** The handler never gets to the aim: the name is exempt, or it is short and
      leads nowhere, so that its directory is not looked at. */
  predicate Skipped(env: Env, name: string) {
    Forbidden(env, name) || (|name| < 6 && Aim(env, name).1)
  }

  /** When the handler decides as it sets out to: if it skips the aim, then that
      cannot be protected; otherwise what stands behind the name does no harm. */
  ghost predicate DecidesWell(env: Env, b: seq<char>)
    requires |b| == PATH_MAX && LookupFits(env)
  {
    var name := Str(b);
    if Skipped(env, name) then Aim(env, name).0.Some? ==> !Protectable(env, Aim(env, name).0.value.ino)
    else |name| < 6 || HarmlessBuffer(env, b)
  }

  /** A name is looked up alike as it stands and from the working directory. */
  predicate RelativeAlike(env: Env, name: string) {
    env.resolve(name) == env.resolve(Absolute(env, name))
  }

  lemma AimResolves(env: Env, name: string)
    requires Canonical(env) && Aim(env, name).0.Some?
    ensures env.resolve(Aim(env, name).0.value.path) == Aim(env, name).0
  {
  }

  lemma SkippedIsLetThrough(env: Env, base: map<nat, Attr>, m: MState, b: seq<char>, flags: bv32)
    requires LookupFits(env) && Inv(env, m, base) && |b| == PATH_MAX && StrLen(b) < PATH_MAX
    requires Skipped(env, Str(b)) && (StrLen(b) < 6 ==> RelativeAlike(env, Str(b)))
    ensures !HookDenies(env, m, b, flags)
  {
    if !Forbidden(env, Str(b)) { ProtectedByInode(env, m, base, Str(b)); }
  }

  lemma SkippedIsExactIff(env: Env, base: map<nat, Attr>, b: seq<char>)
    requires LookupFits(env) && Canonical(env) && Knows(env, base) && |b| == PATH_MAX && StrLen(b) < PATH_MAX
    requires Skipped(env, Str(b)) && (StrLen(b) < 6 ==> RelativeAlike(env, Str(b)))
    ensures (forall m, flags :: Inv(env, m, base) ==> (HookDenies(env, m, b, flags) <==> HookShould(env, m, b, flags)))
            <==> DecidesWell(env, b)
  {
    var t := Aim(env, Str(b)).0;
    forall m, flags | Inv(env, m, base) ensures !HookDenies(env, m, b, flags) {
      SkippedIsLetThrough(env, base, m, b, flags);
    }
    if t.Some? {
      AimResolves(env, Str(b));
      if Protectable(env, t.value.ino) {
        WriteFlag();
        var p :| LeadsTo(env, p, t.value.ino) && !Forbidden(env, p);
        var m := ProtectOne(env, base, p, t.value.ino);
        OneEntry(m.list[0], t.value.path, t.value.ino);
        assert HookShould(env, m, b, O_WRONLY);
      } else {
        forall m | Inv(env, m, base) ensures !Protected(m, t.value) {
          ProtectedByInode(env, m, base, t.value.path);
        }
      }
    }
  }

  lemma ShortIsExact(env: Env, base: map<nat, Attr>, m: MState, b: seq<char>, flags: bv32)
    requires LookupFits(env) && Canonical(env) && Inv(env, m, base) && |b| == PATH_MAX
    requires StrLen(b) < 6 && RelativeAlike(env, Str(b)) && !Skipped(env, Str(b))
    ensures HookDenies(env, m, b, flags) <==> HookShould(env, m, b, flags)
  {
    HookIsDecision(env, m, b, flags);
    ShortNameMisses(env, base, m, b, AsksToCreate(flags), AsksToWrite(flags));
  }

  lemma LongIsExactIff(env: Env, base: map<nat, Attr>, b: seq<char>)
    requires LookupFits(env) && Canonical(env) && Knows(env, base) && |b| == PATH_MAX && 6 <= StrLen(b) < PATH_MAX
    requires !Forbidden(env, Str(b))
    ensures (forall m, flags :: Inv(env, m, base) ==> (HookDenies(env, m, b, flags) <==> HookShould(env, m, b, flags)))
            <==> HarmlessBuffer(env, b)
  {
    if HarmlessBuffer(env, b) {
      forall m, flags | Inv(env, m, base) ensures HookDenies(env, m, b, flags) <==> HookShould(env, m, b, flags) {
        HookIsDecision(env, m, b, flags);
        HarmlessIsExact(env, base, m, b, AsksToCreate(flags), AsksToWrite(flags));
      }
    } else {
      var m := LongHarmShows(env, base, b);
    }
  }

  lemma LongHarmShows(env: Env, base: map<nat, Attr>, b: seq<char>) returns (m: MState)
    requires LookupFits(env) && Canonical(env) && Knows(env, base) && |b| == PATH_MAX && 6 <= StrLen(b) < PATH_MAX
    requires !Forbidden(env, Str(b)) && !HarmlessBuffer(env, b)
    ensures Inv(env, m, base) && HookDenies(env, m, b, O_WRONLY) != HookShould(env, m, b, O_WRONLY)
  {
    m := HarmShows(env, base, b);
    WriteFlag();
    HookIsDecision(env, m, b, O_WRONLY);
  }

  lemma HookIsDecision(env: Env, m: MState, b: seq<char>, flags: bv32)
    requires LookupFits(env) && |b| == PATH_MAX && StrLen(b) < PATH_MAX && !Forbidden(env, Str(b))
    ensures HookDenies(env, m, b, flags) <==> Denies(env, m, b, AsksToCreate(flags), AsksToWrite(flags))
  {
    WantsWriteIff(flags);
    WantsCreateIff(flags);
  }

  /** For every name, exempt and short ones included, and every memory behind it:
      in all states of the invariant and for all flags the whole handler denies
      just what it sets out to, if and only if what it skips cannot be protected
      and what stands behind the name does no harm. */
  lemma OpenHookExactIff(env: Env, base: map<nat, Attr>, b: seq<char>)
    requires LookupFits(env) && Canonical(env) && Knows(env, base) && |b| == PATH_MAX && StrLen(b) < PATH_MAX
    requires StrLen(b) < 6 ==> RelativeAlike(env, Str(b))
    ensures (forall m, flags :: Inv(env, m, base) ==> (HookDenies(env, m, b, flags) <==> HookShould(env, m, b, flags)))
            <==> DecidesWell(env, b)
  {
    if Skipped(env, Str(b)) {
      SkippedIsExactIff(env, base, b);
    } else if StrLen(b) < 6 {
      forall m, flags | Inv(env, m, base) ensures HookDenies(env, m, b, flags) <==> HookShould(env, m, b, flags) {
        ShortIsExact(env, base, m, b, flags);
      }
    } else {
      LongIsExactIff(env, base, b);
    }
  }

  // ------------------------------------------------------------ directory hooks

  /** Whoever leads to this inode and may be protected is one of these paths. */
  ghost predicate OnlyPaths(env: Env, ino: nat, paths: set<string>) {
    forall p :: LeadsTo(env, p, ino) && !Forbidden(env, p) ==> p in paths
  }

  /** In a state of the invariant an inode is listed under one of its only paths. */
  lemma ListedByPath(env: Env, m: MState, base: map<nat, Attr>, ino: nat, paths: set<string>)
    requires Inv(env, m, base) && HasIno(m.list, ino) && OnlyPaths(env, ino, paths)
    ensures exists p :: p in paths && HasPath(m.list, p)
  {
    var i :| 0 <= i < |m.list| && m.list[i].ino == ino;
    assert EntryOk(env, m.list[i], base);
    assert m.list[i].path in paths && HasPath(m.list, m.list[i].path);
  }

  /** The directory hooks compare paths and not inodes. Creating and removing in a
      directory is denied just while its inode is on the list, in all states of
      the invariant, if and only if no other path to it can be protected. */
  lemma DirHookByInodeIff(env: Env, base: map<nat, Attr>, t: Target)
    requires Knows(env, base) && env.resolve(t.path) == Some(t)
    ensures (forall m :: Inv(env, m, base) ==> (DirHook(env, m, Some(t.path)).1 == -EACCES <==> HasIno(m.list, t.ino)))
            <==> OnlyPaths(env, t.ino, {t.path})
  {
    forall m | Inv(env, m, base) ensures HasPath(m.list, t.path) ==> HasIno(m.list, t.ino) {
      ProtectedByInode(env, m, base, t.path);
    }
    if OnlyPaths(env, t.ino, {t.path}) {
      forall m | Inv(env, m, base) && HasIno(m.list, t.ino) ensures HasPath(m.list, t.path) {
        ListedByPath(env, m, base, t.ino, {t.path});
      }
    } else {
      var p :| LeadsTo(env, p, t.ino) && !Forbidden(env, p) && p != t.path;
      var m := ProtectOne(env, base, p, t.ino);
      OneEntry(m.list[0], t.path, t.ino);
    }
  }

  ghost predicate UnlinkByInode(env: Env, m: MState, f: Target, d: Target) {
    UnlinkHook(env, m, Some(f.path), Some(d.path)).1 == -EACCES <==> HasIno(m.list, f.ino) || HasIno(m.list, d.ino)
  }

  /** The same for unlinking a file from its directory. */
  lemma UnlinkHookByInodeIff(env: Env, base: map<nat, Attr>, f: Target, d: Target)
    requires Knows(env, base) && env.resolve(f.path) == Some(f) && env.resolve(d.path) == Some(d)
    ensures (forall m :: Inv(env, m, base) ==> UnlinkByInode(env, m, f, d)) <==>
            OnlyPaths(env, f.ino, {f.path, d.path}) && OnlyPaths(env, d.ino, {f.path, d.path})
  {
    var paths := {f.path, d.path};
    if OnlyPaths(env, f.ino, paths) && OnlyPaths(env, d.ino, paths) {
      forall m | Inv(env, m, base) ensures UnlinkByInode(env, m, f, d) {
        ProtectedByInode(env, m, base, f.path);
        ProtectedByInode(env, m, base, d.path);
        if HasIno(m.list, f.ino) { ListedByPath(env, m, base, f.ino, paths); }
        if HasIno(m.list, d.ino) { ListedByPath(env, m, base, d.ino, paths); }
      }
    } else {
      var ino := if OnlyPaths(env, f.ino, paths) then d.ino else f.ino;
      var p :| LeadsTo(env, p, ino) && !Forbidden(env, p) && p !in paths;
      var m := ProtectOne(env, base, p, ino);
      OneEntry(m.list[0], f.path, f.ino);
      OneEntry(m.list[0], d.path, d.ino);
      assert !UnlinkByInode(env, m, f, d);
    }
  }
}
