/** What the hooks do, name by name: which opens pass untouched, which are refused,
    and what a refusal does to inodes. */
module OpenScenarios {
  import opened KernelTypes
  import opened CString
  import opened Monitor
  import opened PathSolver
  import opened OpenFlags
  import opened Hooks
  import InodeMark

  // -------------------------------------------------------- what a refusal marks

  /** Inode `ino` is marked read-only and immutable; nothing else changes. */
  ghost predicate MarksOnly(m: MState, m': MState, ino: nat) {
    && m' == m.(attrs := m'.attrs) && m'.attrs.Keys == m.attrs.Keys
    && (ino in m.attrs ==> InodeMark.IsMarked(m.attrs[ino], m'.attrs[ino]))
    && (forall i :: i in m.attrs && i != ino ==> m'.attrs[i] == m.attrs[i])
  }

  lemma MarkPathMarks(env: Env, m: MState, path: string)
    requires env.resolve(path).Some?
    ensures MarkPath(env, m, path).1 && MarksOnly(m, MarkPath(env, m, path).0, env.resolve(path).value.ino)
  {
    var ino := env.resolve(path).value.ino;
    if ino in m.attrs { InodeMark.MarkIsMarked(m.attrs[ino]); }
  }

  /** An open that is refused marks the inode that the hook looked at, unless it was
      refused for a swap name; one that is not refused changes nothing. */
  lemma OpenMarks(env: Env, m: MState, args: OpenArgs)
    requires OpenArgsOk(args) && LookupFits(env)
    ensures var (m', ret) := OpenHook(env, m, args);
            && (ret != -EACCES ==> m' == m)
            && (ret == -EACCES ==>
                  && args.user.Some?
                  && var s := SolveOpen(env, args.user.value);
                     && s.Look?
                     && if s.swap then m' == m
                        else env.resolve(s.path).Some? && MarksOnly(m, m', env.resolve(s.path).value.ino))
  {
    if args.user.Some? {
      SwapIsFound(env, args.user.value);
      DecisionMarks(env, m, SolveOpen(env, args.user.value), WantsCreate(args.flags), WantsWrite(args.flags));
    }
  }

  lemma DecisionMarks(env: Env, m: MState, s: Solved, create: bool, write: bool)
    requires s.Look? ==> !(s.swap && s.missing)
    ensures var (m', ret) := DecideOpen(env, m, s, create, write);
            && (ret != -EACCES ==> m' == m)
            && (ret == -EACCES ==>
                  && s.Look?
                  && if s.swap then m' == m
                     else env.resolve(s.path).Some? && MarksOnly(m, m', env.resolve(s.path).value.ino))
  {
    if s.Look? && env.resolve(s.path).Some? { MarkPathMarks(env, m, s.path); }
  }

  /** A name is not both a swap name and that of a missing file. */
  lemma SwapIsFound(env: Env, b: seq<char>)
    requires |b| == PATH_MAX && LookupFits(env)
    ensures SolveOpen(env, b).Look? ==> !(SolveOpen(env, b).swap && SolveOpen(env, b).missing)
  {
  }

  /** The same for the directory, and for the file or its directory. */
  lemma DirHookMarks(env: Env, m: MState, parent: Option<string>)
    ensures var (m', ret) := DirHook(env, m, parent);
            && (ret == 0 ==> m' == m)
            && (ret != 0 ==>
                  && ret == -13 && parent.Some? && PathListed(m, parent.value)
                  && if env.resolve(parent.value).Some? then MarksOnly(m, m', env.resolve(parent.value).value.ino)
                     else m' == m)
  {
    if parent.Some? && env.resolve(parent.value).Some? { MarkPathMarks(env, m, parent.value); }
  }

  predicate PathListed(m: MState, path: string) {
    exists i :: 0 <= i < |m.list| && m.list[i].path == path
  }

  lemma UnlinkHookMarks(env: Env, m: MState, file: string, parent: Option<string>)
    ensures var r := UnlinkHook(env, m, Some(file), parent);
            if PathListed(m, file) then
              && r.1 == -13
              && if env.resolve(file).Some? then MarksOnly(m, r.0, env.resolve(file).value.ino) else r.0 == m
            else r == DirHook(env, m, parent)
  {
    if env.resolve(file).Some? { MarkPathMarks(env, m, file); }
  }

  // ------------------------------------------------------------------- scenarios

  /** A name in a buffer of its own. */
  ghost predicate Names(env: Env, b: seq<char>, name: string) {
    && |b| == PATH_MAX && Padded(b, name) && |name| >= 6 && name[0] == '/' && !Forbidden(env, name)
    && LookupFits(env) && Canonical(env) && RootedCwd(env)
  }

  function Opening(name: string, b: seq<char>, flags: bv32): OpenArgs {
    OpenArgs(Some(name), Some(b), flags, false)
  }

  /** Without a bit that asks for writing, and without creating a missing file, a
      name that is not a swap name is let through, whatever is protected. */
  lemma ReadingPasses(env: Env, m: MState, name: string, b: seq<char>, flags: bv32)
    requires |b| == PATH_MAX && StrLen(b) < PATH_MAX && LookupFits(env) && !AsksToWrite(flags)
    requires StrLen(b) >= 6 ==> if Aim(env, Str(b)).1 then !AsksToCreate(flags) else !IsSwapName(Str(b))
    ensures OpenHook(env, m, Opening(name, b, flags)) == (m, 0)
  {
    WantsWriteIff(flags);
    WantsCreateIff(flags);
    if StrLen(b) >= 6 { SolveOpenFinds(env, b); }
  }

  lemma FoundFile(env: Env, b: seq<char>, name: string, t: Target)
    requires Names(env, b, name) && env.resolve(Unswapped(name)) == Some(t)
    requires Unswapped(name) != [] && Unswapped(name)[0] == '/'
    ensures StrLen(b) < PATH_MAX && SolveOpen(env, b) == Look(t.path, false, IsSwapName(name))
  {
    PaddedStr(b, name);
    PaddedUnspoiltIff(env, b, name);
    SolveOpenFinds(env, b);
  }

  /** With any of the bits 0x1, 0x2, 0x200 and 0x400 a protected file is not opened,
      and is marked. */
  lemma WritingFails(env: Env, m: MState, name: string, b: seq<char>, flags: bv32, t: Target)
    requires Names(env, b, name) && !IsSwapName(name) && env.resolve(name) == Some(t) && Protected(m, t)
    requires flags & 0x1 != 0 || flags & 0x2 != 0 || flags & 0x200 != 0 || flags & 0x400 != 0
    ensures StrLen(b) < PATH_MAX
    ensures var r := OpenHook(env, m, Opening(name, b, flags)); r.1 == -13 && MarksOnly(m, r.0, t.ino)
  {
    WantsWriteIff(flags);
    FoundFile(env, b, name, t);
    MarkPathMarks(env, m, t.path);
  }

  predicate IsSwapForm(d: string, f: string, name: string) {
    name == d + "/." + f + ".swp" || name == d + "/." + f + ".swpx" || name == d + "/" + f + "~"
  }

  /** A protected file is not opened under any of its swap names, not even for
      reading, and is not marked. */
  lemma SwapNameFails(env: Env, m: MState, d: string, f: string, name: string, b: seq<char>, flags: bv32, t: Target)
    requires IsSwapForm(d, f, name) && f != [] && '/' !in f && f[0] != '.' && (d != [] ==> d[0] == '/')
    requires Names(env, b, name) && env.resolve(d + "/" + f) == Some(t) && Protected(m, t)
    ensures StrLen(b) < PATH_MAX && OpenHook(env, m, Opening(name, b, flags)) == (m, -13)
  {
    SwapNameOf(d, f, name);
    FoundFile(env, b, name, t);
  }

  lemma SwapNameOf(d: string, f: string, name: string)
    requires IsSwapForm(d, f, name)
    requires f != [] && '/' !in f && f[0] != '.' && (d != [] ==> d[0] == '/') && |name| >= 6
    ensures IsSwapName(name) && Unswapped(name) == d + "/" + f && (d + "/" + f)[0] == '/'
  {
    SwapFormsReduce(d, f);
    SuffixesDrop(d + "/." + f);
    SuffixesDrop(d + "/" + f);
  }

  /** In a protected directory no missing file is created, or opened for writing,
      and the directory is marked. */
  lemma CreatingFails(env: Env, m: MState, d: string, f: string, b: seq<char>, flags: bv32, ino: nat)
    requires f != [] && '/' !in f && d != [] && Names(env, b, d + "/" + f) && !IsSwapName(d + "/" + f)
    requires env.resolve(d + "/" + f).None? && env.resolve(d) == Some(Target(d, ino)) && Protected(m, Target(d, ino))
    requires AsksToCreate(flags) || AsksToWrite(flags)
    ensures StrLen(b) < PATH_MAX
    ensures var r := OpenHook(env, m, Opening(d + "/" + f, b, flags)); r.1 == -13 && MarksOnly(m, r.0, ino)
  {
    WantsWriteIff(flags);
    WantsCreateIff(flags);
    var name := d + "/" + f;
    PaddedStr(b, name);
    ParentOfChild(d, f);
    PaddedUnspoiltIff(env, b, name);
    SolveOpenFinds(env, b);
    assert d[0] == name[0];
    MarkPathMarks(env, m, d);
  }

  /** Without a name, or without memory at its pointer, the hook does nothing. */
  lemma NothingToLookAt(env: Env, m: MState, args: OpenArgs)
    requires OpenArgsOk(args) && LookupFits(env) && (args.filename.None? || args.user.None?)
    ensures OpenHook(env, m, args) == (m, 0)
  {
  }

  /** Without memory for its buffer the hook makes every open fail that it would
      look at. */
  lemma NoMemoryFails(env: Env, m: MState, name: string, b: seq<char>, flags: bv32)
    requires |b| == PATH_MAX && StrLen(b) < PATH_MAX && LookupFits(env) && !Forbidden(env, name)
    ensures OpenHook(env, m, OpenArgs(Some(name), Some(b), flags, true)) == (m, -12)
  {
  }
}
