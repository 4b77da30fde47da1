/** The access point's write handler and its three argument scanners, down to
    the call on the monitor. */
module TextModule {
  import opened KernelTypes
  import opened CString
  import Tokens
  import Monitor
  import PathSolver
  import Syscalls
  import MonitorModule
  import opened TextProtocol
  import opened TextCrash
  import opened TextBuffer

  /** The option array has nine places; only values of option flags go there. */
  ghost predicate OptionFits(words: seq<string>, i: nat) {
    i + 1 < |words| && Live(words, i) ==> |OptionTokens(words[i + 1])| < 9
  }

  /** A path is copied to a path buffer; only values of path flags are. */
  ghost predicate PathFits(words: seq<string>, i: nat) {
    i + 1 < |words| && IsPathFlag(words, i) && !Refuses(words, i) ==> |words[i + 1]| < PATH_MAX
  }

  ghost predicate StateFits(words: seq<string>) {
    |words| == 5 ==> forall i: nat :: OptionFits(words, i)
  }

  ghost predicate PathLineFits(words: seq<string>) {
    |words| == 7 ==> forall i: nat :: i < |words| && Reached(words, i) ==> OptionFits(words, i) && PathFits(words, i)
  }

  /** What has to fit the parser's fixed arrays, of each kind of line. */
  ghost predicate LineFits(words: seq<string>) {
    && 0 < |words| < 16
    && (CommandIndex(words[0]) == 0 ==> StateFits(words))
    && (CommandIndex(words[0]) == 1 ==> PathLineFits(words))
  }

  /** A pointer to word `k`, or a null pointer for no word at all. */
  ghost predicate PointerTo(argv: seq<int>, words: seq<string>, p: int, k: nat, s: Option<string>) {
    if s.None? then p == -1 else k < |words| && k < |argv| && p == argv[k] && s == Some(words[k])
  }

  lemma FlagsExclude(t: string)
    ensures !(IsFlag(t, "-pwd") && IsFlag(t, "-opt")) && !(IsFlag(t, "-pth") && IsFlag(t, "-opt"))
  {
    assert "-pwd"[1] == 'p' && "-opt"[1] == 'o' && "-pth"[1] == 'p';
  }

  /** A pointer is null exactly behind the last word. */
  lemma NullBehind(b: seq<char>, argv: seq<int>, ends: seq<nat>, words: seq<string>, i: nat)
    requires Spells(b, argv, ends, words) && i <= |words|
    ensures argv[i] == -1 <==> i == |words|
    ensures i < |words| ==> Reads(b, argv[i], words[i])
  {
    if i < |words| { assert SpellsAt(b, argv[i], ends[i], words[i]); }
  }

  lemma PointerReads(b: seq<char>, argv: seq<int>, ends: seq<nat>, words: seq<string>, p: int, k: nat, s: Option<string>)
    requires Spells(b, argv, ends, words) && PointerTo(argv, words, p, k, s)
    ensures p == -1 <==> s.None?
    ensures s.Some? ==> Reads(b, p, s.value)
  {
    if s.Some? { NullBehind(b, argv, ends, words, k); }
  }

  method ReadWord(buf: array<char>, argv: array<int>, i: nat, ghost ends: seq<nat>, ghost words: seq<string>)
    returns (s: string)
    requires Spells(buf[..], argv[..], ends, words) && i < |words|
    ensures s == words[i]
  {
    assert SpellsAt(buf[..], argv[i], ends[i], words[i]);
    s := ReadAt(buf, argv[i]);
  }

  /** Where a scan stands: the words ahead are as they came, and the password
      pointer leads to a word that no later step of the scan rewrites. */
  ghost predicate Scanning(b: seq<char>, argv: seq<int>, ends: seq<nat>, words: seq<string>, cur: seq<string>,
                           i: nat, pwd: int, at: nat, seen: Option<string>) {
    && Spells(b, argv, ends, cur) && StandsAt(words, cur, i)
    && at <= i && PointerTo(argv, cur, pwd, at, seen)
  }

  /** If word `i` is a password flag, the pointer moves to the word behind it. */
  method TakePointer(buf: array<char>, argv: array<int>, i: nat, t: string, flag: string, pwd: int,
                     ghost ends: seq<nat>, ghost cur: seq<string>, ghost at: nat, ghost seen: Option<string>)
    returns (pwd': int, ghost at': nat, ghost seen': Option<string>)
    requires Spells(buf[..], argv[..], ends, cur) && i < |cur| && t == cur[i]
    requires at <= i && PointerTo(argv[..], cur, pwd, at, seen)
    ensures seen' == if IsFlag(t, flag) then NextArg(cur, i) else seen
    ensures at' == (if IsFlag(t, flag) then i + 1 else at) && PointerTo(argv[..], cur, pwd', at', seen')
  {
    pwd', at', seen' := pwd, at, seen;
    if flag <= t {
      NullBehind(buf[..], argv[..], ends, cur, i + 1);
      pwd' := argv[i + 1];
      seen', at' := NextArg(cur, i), i + 1;
    }
  }

  /** If word `i` is an option flag, the word behind it is read as an option. */
  method TakeOption(buf: array<char>, argv: array<int>, i: nat, t: string, op: int,
                    ghost ends: seq<nat>, ghost words: seq<string>, ghost cur: seq<string>)
    returns (ok: bool, op': int)
    requires Spells(buf[..], argv[..], ends, cur) && |cur| == |words| && i < |cur| && t == cur[i]
    requires IsFlag(t, "-opt") && i + 1 < |cur| ==> |OptionTokens(cur[i + 1])| < 9
    modifies buf
    ensures ok <==> !(IsFlag(t, "-opt") && i + 1 == |cur|)
    ensures ok ==> op' == OpAfter(cur, i, op) && Spells(buf[..], argv[..], ends, WordsAfter(cur, i))
  {
    ok, op' := true, op;
    if "-opt" <= t {
      ok, op' := ReadOption(buf, argv, i, op, ends, cur);
    }
  }

  /** Reads the word behind an option flag, if there is one. */
  method ReadOption(buf: array<char>, argv: array<int>, i: nat, op: int, ghost ends: seq<nat>, ghost cur: seq<string>)
    returns (ok: bool, op': int)
    requires Spells(buf[..], argv[..], ends, cur) && i < |cur|
    requires i + 1 < |cur| ==> |OptionTokens(cur[i + 1])| < 9
    modifies buf
    ensures ok <==> i + 1 < |cur|
    ensures ok ==> op' == ParseOpt(cur[i + 1]) && Spells(buf[..], argv[..], ends, AfterOption(cur, i))
  {
    NullBehind(buf[..], argv[..], ends, cur, i + 1);
    if argv[i + 1] == -1 { return false, op; }
    op' := ParseOptWord(buf, argv, i + 1, ends, cur);
    ok := true;
  }

  lemma OptionStepKeepsScan(b: seq<char>, argv: seq<int>, ends: seq<nat>, words: seq<string>, cur: seq<string>,
                            i: nat, pwd: int, at: nat, seen: Option<string>)
    requires StandsAt(words, cur, i) && i < |cur| && Spells(b, argv, ends, WordsAfter(cur, i))
    requires !(Live(words, i) && i + 1 == |cur|)
    requires at <= i + 1 && PointerTo(argv, cur, pwd, at, seen) && (IsFlag(cur[i], "-opt") ==> at <= i)
    ensures Scanning(b, argv, ends, words, WordsAfter(cur, i), i + 1, pwd, at, seen)
  {
    StandsAtNext(words, cur, i);
  }

  /** The scanning loop of the state command; it fails on a trailing option flag. */
  method ScanStateArgs(buf: array<char>, argv: array<int>, ghost ends: seq<nat>, ghost words: seq<string>)
    returns (ok: bool, pwd: int, op: int, ghost cur: seq<string>, ghost at: nat, ghost seen: Option<string>)
    requires Spells(buf[..], argv[..], ends, words) && |words| == 5 && StateFits(words)
    modifies buf
    ensures ok ==> ScanState(words, 1, None, -1) == Scanned(seen, None, op)
    ensures !ok ==> ScanState(words, 1, None, -1).Crashed?
    ensures ok ==> Scanning(buf[..], argv[..], ends, words, cur, 5, pwd, at, seen)
  {
    var i := 1;
    ok, pwd, op := true, -1, -1;
    cur, seen, at := words, None, 0;
    StandsAtStart(words);
    NullBehind(buf[..], argv[..], ends, cur, i);
    while argv[i] != -1
      invariant 1 <= i <= 5 && Scanning(buf[..], argv[..], ends, words, cur, i, pwd, at, seen)
      invariant ScanState(words, 1, None, -1) == ScanState(cur, i, seen, op)
      invariant argv[i] == -1 <==> i == 5
      decreases 5 - i
    {
      var t := ReadWord(buf, argv, i, ends, cur);
      FlagsExclude(t);
      ghost var seen0, op0 := seen, op;
      MetFlags(words, i);
      assert OptionFits(words, i);
      pwd, at, seen := TakePointer(buf, argv, i, t, "-pwd", pwd, ends, cur, at, seen);
      ok, op := TakeOption(buf, argv, i, t, op, ends, words, cur);
      if !ok { return; }
      ScanStateStep(cur, i, seen0, op0);
      OptionStepKeepsScan(buf[..], argv[..], ends, words, cur, i, pwd, at, seen);
      cur := WordsAfter(cur, i);
      i := i + 1;
      NullBehind(buf[..], argv[..], ends, cur, i);
    }
  }

  method StateWrapper(buf: array<char>, argv: array<int>, format: int, ghost ends: seq<nat>, ghost words: seq<string>)
    returns (r: Parsed)
    requires Spells(buf[..], argv[..], ends, words) && format == |words| - 1 && StateFits(words)
    modifies buf
    ensures r == StateArgs(words)
  {
    if format != 4 { return Reject(-EINVAL); }
    ghost var cur, at, seen;
    var ok, pwd, op;
    ok, pwd, op, cur, at, seen := ScanStateArgs(buf, argv, ends, words);
    if !ok { return Oops; }
    PointerReads(buf[..], argv[..], ends, cur, pwd, at, seen);
    if pwd == -1 { return Reject(-EINVAL); }
    var s := ReadAt(buf, pwd);
    if s == "(null)" { return Reject(-EINVAL); }
    return Invoke(StateRequest(s, op));
  }

  /** Copying a word over the path in a NUL-padded buffer. */
  lemma CopyPadded(b: seq<char>, old_: string, s: string)
    requires Padded(b, old_) && |s| < |b| && NUL !in s
    ensures Padded(s + b[|s|..], CopyOver(old_, s))
  {
  }

  method CopyWord(pathname: array<char>, word: string, ghost path: string)
    requires Padded(pathname[..], path) && |word| < pathname.Length && NUL !in word
    modifies pathname
    ensures Padded(pathname[..], CopyOver(path, word))
  {
    CopyPadded(pathname[..], path, word);
    ghost var b := pathname[..];
    CopyIn(pathname, word);
    assert pathname[..] == word + b[|word|..];
  }

  lemma WordClean(b: seq<char>, p: int, word: string)
    requires Reads(b, p, word)
    ensures NUL !in word
  {
  }

  /** If word `i` is a path flag, the word behind it is copied to the path buffer. */
  method TakePath(buf: array<char>, argv: array<int>, i: nat, t: string, pathname: array<char>,
                  ghost ends: seq<nat>, ghost words: seq<string>, ghost cur: seq<string>, ghost path: string)
    returns (refused: bool, ghost path': string)
    requires Spells(buf[..], argv[..], ends, cur) && |cur| == |words| && i < |cur| && t == cur[i]
    requires IsFlag(t, "-pth") && !PathRefused(cur, i) ==> |cur[i + 1]| < PATH_MAX
    requires pathname.Length == PATH_MAX && Padded(pathname[..], path) && buf != pathname
    modifies pathname
    ensures refused <==> PathRefused(cur, i)
    ensures !refused ==> path' == PathAfter(cur, i, path) && Padded(pathname[..], path')
  {
    refused, path' := false, path;
    if "-pth" <= t {
      NullBehind(buf[..], argv[..], ends, cur, i + 1);
      if argv[i + 1] == -1 { return true, path; }
      var word := ReadAt(buf, argv[i + 1]);
      if word == "(null)" { return true, path; }
      WordClean(buf[..], argv[i + 1], word);
      CopyWord(pathname, word, path);
      path' := CopyOver(path, word);
    }
  }

  datatype ScanEnd = AllRead | BadPath | NullOption

  /** What is read behind word `i` fits the array it goes to. */
  lemma ValuesFit(words: seq<string>, cur: seq<string>, i: nat)
    requires StandsAt(words, cur, i) && i < |cur| && |words| == 7 && PathLineFits(words) && Reached(words, i)
    ensures IsFlag(cur[i], "-opt") <==> Live(words, i)
    ensures IsFlag(cur[i], "-opt") && i + 1 < |cur| ==> |OptionTokens(cur[i + 1])| < 9
    ensures IsFlag(cur[i], "-pth") && !PathRefused(cur, i) ==> |cur[i + 1]| < PATH_MAX
    ensures !PathRefused(cur, i) ==> Reached(words, i + 1)
  {
    MetFlags(words, i);
    RefusedIff(words, cur, i);
    assert OptionFits(words, i) && PathFits(words, i);
  }

  /** One word of the path command's arguments. */
  method PathStep(buf: array<char>, argv: array<int>, i: nat, pathname: array<char>, pwd: int, op: int,
                  ghost ends: seq<nat>, ghost words: seq<string>, ghost cur: seq<string>,
                  ghost at: nat, ghost seen: Option<string>, ghost path: string)
    returns (how: ScanEnd, pwd': int, op': int, ghost at': nat, ghost seen': Option<string>, ghost path': string)
    requires Scanning(buf[..], argv[..], ends, words, cur, i, pwd, at, seen) && i < |cur|
    requires |words| == 7 && PathLineFits(words) && Reached(words, i)
    requires pathname.Length == PATH_MAX && Padded(pathname[..], path) && buf != pathname
    modifies buf, pathname
    ensures how.BadPath? ==> ScanPath(cur, i, seen, path, op).Refused?
    ensures how.NullOption? ==> ScanPath(cur, i, seen, path, op).Crashed?
    ensures how.AllRead? ==> ScanPath(cur, i, seen, path, op) == ScanPath(WordsAfter(cur, i), i + 1, seen', path', op')
    ensures how.AllRead? ==> Scanning(buf[..], argv[..], ends, words, WordsAfter(cur, i), i + 1, pwd', at', seen')
    ensures how.AllRead? ==> Padded(pathname[..], path') && Reached(words, i + 1)
  {
    ValuesFit(words, cur, i);
    var t := ReadWord(buf, argv, i, ends, cur);
    FlagsExclude(t);
    var refused;
    how, op' := BadPath, op;
    pwd', at', seen' := TakePointer(buf, argv, i, t, "-pwd", pwd, ends, cur, at, seen);
    refused, path' := TakePath(buf, argv, i, t, pathname, ends, words, cur, path);
    if refused { return; }
    how, op' := TakePathOption(buf, argv, i, t, op, pwd', ends, words, cur, at', seen', seen, path);
  }

  /** The option of one word of the path command, and where the scan stands then. */
  method TakePathOption(buf: array<char>, argv: array<int>, i: nat, t: string, op: int, pwd: int,
                        ghost ends: seq<nat>, ghost words: seq<string>, ghost cur: seq<string>,
                        ghost at: nat, ghost seen: Option<string>, ghost was: Option<string>, ghost path: string)
    returns (how: ScanEnd, op': int)
    requires Spells(buf[..], argv[..], ends, cur) && StandsAt(words, cur, i) && i < |cur| && t == cur[i]
    requires IsFlag(t, "-opt") && i + 1 < |cur| ==> |OptionTokens(cur[i + 1])| < 9
    requires (IsFlag(t, "-opt") <==> Live(words, i)) && !PathRefused(cur, i)
    requires at <= i + 1 && PointerTo(argv[..], cur, pwd, at, seen) && (IsFlag(t, "-opt") ==> at <= i)
    requires seen == if IsFlag(t, "-pwd") then NextArg(cur, i) else was
    modifies buf
    ensures !how.BadPath? && (how.NullOption? ==> ScanPath(cur, i, was, path, op).Crashed?)
    ensures how.AllRead? ==>
              ScanPath(cur, i, was, path, op) ==
              ScanPath(WordsAfter(cur, i), i + 1, seen, PathAfter(cur, i, path), op')
    ensures how.AllRead? ==> Scanning(buf[..], argv[..], ends, words, WordsAfter(cur, i), i + 1, pwd, at, seen)
  {
    var ok;
    ok, op' := TakeOption(buf, argv, i, t, op, ends, words, cur);
    if !ok { return NullOption, op; }
    how := AllRead;
    ScanPathStep(cur, i, was, path, op);
    OptionStepKeepsScan(buf[..], argv[..], ends, words, cur, i, pwd, at, seen);
  }

  /** The scanning loop of the path command. */
  method ScanPathArgs(buf: array<char>, argv: array<int>, pathname: array<char>,
                      ghost ends: seq<nat>, ghost words: seq<string>)
    returns (how: ScanEnd, pwd: int, op: int, ghost cur: seq<string>, ghost at: nat, ghost seen: Option<string>,
             ghost path: string)
    requires Spells(buf[..], argv[..], ends, words) && |words| == 7 && PathLineFits(words)
    requires pathname.Length == PATH_MAX && Padded(pathname[..], "") && buf != pathname
    modifies buf, pathname
    ensures how.BadPath? ==> ScanPath(words, 1, None, "", -1).Refused?
    ensures how.NullOption? ==> ScanPath(words, 1, None, "", -1).Crashed?
    ensures how.AllRead? ==> ScanPath(words, 1, None, "", -1) == Scanned(seen, Some(path), op)
    ensures how.AllRead? ==> Scanning(buf[..], argv[..], ends, words, cur, 7, pwd, at, seen)
    ensures how.AllRead? ==> Padded(pathname[..], path)
  {
    var i := 1;
    how, pwd, op := AllRead, -1, -1;
    cur, seen, at, path := words, None, 0, "";
    StandsAtStart(words);
    NullBehind(buf[..], argv[..], ends, cur, i);
    while argv[i] != -1
      invariant 1 <= i <= 7 && Scanning(buf[..], argv[..], ends, words, cur, i, pwd, at, seen)
      invariant ScanPath(words, 1, None, "", -1) == ScanPath(cur, i, seen, path, op)
      invariant argv[i] == -1 <==> i == 7
      invariant how.AllRead? && Padded(pathname[..], path) && Reached(words, i)
      decreases 7 - i
    {
      how, pwd, op, at, seen, path := PathStep(buf, argv, i, pathname, pwd, op, ends, words, cur, at, seen, path);
      if !how.AllRead? { return; }
      cur := WordsAfter(cur, i);
      i := i + 1;
      NullBehind(buf[..], argv[..], ends, cur, i);
    }
  }

  method PathWrapper(buf: array<char>, argv: array<int>, format: int, pathname: array<char>,
                     ghost ends: seq<nat>, ghost words: seq<string>)
    returns (r: Parsed)
    requires Spells(buf[..], argv[..], ends, words) && format == |words| - 1 && PathLineFits(words)
    requires pathname.Length == PATH_MAX && Padded(pathname[..], "") && buf != pathname
    modifies buf, pathname
    ensures r == PathArgs(words)
    ensures r.Invoke? ==> r.request.PathRequest? && Padded(pathname[..], r.request.path)
  {
    if format != 6 { return Reject(-EINVAL); }
    ghost var cur, at, seen, path;
    var how, pwd, op;
    how, pwd, op, cur, at, seen, path := ScanPathArgs(buf, argv, pathname, ends, words);
    if how == BadPath { return Reject(-EINVAL); }
    if how == NullOption { return Oops; }
    PointerReads(buf[..], argv[..], ends, cur, pwd, at, seen);
    if pwd == -1 { return Reject(-EINVAL); }
    var s := ReadAt(buf, pwd);
    if s == "(null)" { return Reject(-EINVAL); }
    var p := ReadStr(pathname);
    PaddedStr(pathname[..], path);
    return Invoke(PathRequest(s, p, op));
  }

  method PasswordWrapper(buf: array<char>, argv: array<int>, format: int, ghost ends: seq<nat>, ghost words: seq<string>)
    returns (r: Parsed)
    requires Spells(buf[..], argv[..], ends, words) && format == |words| - 1
    ensures r == PasswordArgs(words)
  {
    if format != 4 { return Reject(-EINVAL); }
    var oldPwd, newPwd, i := -1, -1, 1;
    ghost var o, n, atOld, atNew := None, None, 0, 0;
    NullBehind(buf[..], argv[..], ends, words, i);
    while argv[i] != -1
      invariant 1 <= i <= 5 == |words| && atOld <= i && atNew <= i
      invariant PointerTo(argv[..], words, oldPwd, atOld, o) && PointerTo(argv[..], words, newPwd, atNew, n)
      invariant ScanPassword(words, 1, None, None) == ScanPassword(words, i, o, n)
      invariant argv[i] == -1 <==> i == 5
      decreases 5 - i
    {
      var t := ReadWord(buf, argv, i, ends, words);
      oldPwd, atOld, o := TakePointer(buf, argv, i, t, "-old", oldPwd, ends, words, atOld, o);
      newPwd, atNew, n := TakePointer(buf, argv, i, t, "-new", newPwd, ends, words, atNew, n);
      i := i + 1;
      NullBehind(buf[..], argv[..], ends, words, i);
    }
    PointerReads(buf[..], argv[..], ends, words, oldPwd, atOld, o);
    PointerReads(buf[..], argv[..], ends, words, newPwd, atNew, n);
    if oldPwd == -1 { return Reject(-EINVAL); }
    var so := ReadAt(buf, oldPwd);
    if so == "(null)" { return Reject(-EINVAL); }
    if newPwd == -1 { return Reject(-EINVAL); }
    var sn := ReadAt(buf, newPwd);
    if sn == "(null)" { return Reject(-EINVAL); }
    return Invoke(PasswordRequest(so, sn));
  }

  // --------------------------------------------------------------- write handler

  function Strs(pieces: seq<string>): seq<string> {
    seq(|pieces|, i requires 0 <= i < |pieces| => Str(pieces[i]))
  }

  function Ends(pieces: seq<string>): seq<nat> {
    seq(|pieces|, i requires 0 <= i < |pieces| => Offset(pieces, i) + |pieces[i]|)
  }

  /** Every slot of the cut buffer spells its word. */
  lemma CutSpells(u: seq<char>, c: seq<char>, argv: seq<int>, len: nat)
    requires IsCut(u, c, 0, len, ' ') && u[len] == NUL && |u| == len + 1
    requires PointsTo(argv, 0, Tokens.Split(u[0..len], ' '))
    ensures var pieces := Tokens.Split(u[0..len], ' '); Spells(c, argv, Ends(pieces), Strs(pieces))
  {
    var pieces := Tokens.Split(u[0..len], ' ');
    var ends, words := Ends(pieces), Strs(pieces);
    forall k | 0 <= k < |words| ensures SpellsAt(c, argv[k], ends[k], words[k]) {
      PointsAt(argv, 0, pieces, k);
      CutString(u, c, 0, len, ' ', k);
    }
    forall k, l | 0 <= k < l < |words| ensures ends[k] < argv[l] {
      PointsAt(argv, 0, pieces, l);
      OffsetGrows(pieces, k, l);
    }
  }

  /** Copies the text, ends tokens at newlines and cuts it at spaces. */
  method Tokenize(text: string, argv: array<int>) returns (buf: array<char>, n: nat, ghost ends: seq<nat>)
    requires argv.Length == 16 && |Words(text)| < 16
    modifies argv
    ensures fresh(buf) && n == |Words(text)| && Spells(buf[..], argv[..], ends, Words(text))
  {
    var len := |text|;
    buf := new char[len + 1](i => if 0 <= i < len then text[i] else NUL);
    for i := 0 to len
      invariant forall k :: 0 <= k <= len ==>
        buf[k] == if k == len then NUL else if k < i && text[k] == '\n' then NUL else text[k]
    {
      if buf[i] == '\n' { buf[i] := NUL; }
    }
    ghost var u := buf[..];
    assert u[0..len] == Line(text);
    assert buf[0..len] == Line(text);
    n := CutAt(buf, 0, len, ' ', argv);
    CutSpells(u, buf[..], argv[..], len);
    ends := Ends(Tokens.Split(Line(text), ' '));
    assert Strs(Tokens.Split(Line(text), ' ')) == Words(text);
  }

  method FindCommand(name: string) returns (ret: int)
    ensures ret == CommandIndex(name)
  {
    for i := 0 to 3
      invariant forall k :: 0 <= k < i ==> !(name <= COMMANDS[k])
    {
      if name <= COMMANDS[i] { return i; }
    }
    return -1;
  }

  /** Carries out a parsed call on the monitor. */
  method Dispatch(mon: MonitorModule.ReferenceMonitor, env: Monitor.Env, euid: nat, c: Request, pathname: array<char>)
    returns (ret: int)
    requires mon.Valid() && PathSolver.LookupFits(env) && Monitor.Canonical(env) && Monitor.InodesKnown(env, mon.M())
    requires pathname.Length == PATH_MAX && (c.PathRequest? ==> Padded(pathname[..], c.path))
    modifies mon, mon.hooks, pathname
    ensures mon.Valid() && (mon.M(), ret) == Serve(env, old(mon.M()), euid, c)
  {
    match c {
      case StateRequest(pwd, op) =>
        ret := mon.DoChangeState(env, euid, Some(pwd), op);
      case PathRequest(pwd, path, op) =>
        PaddedStr(pathname[..], path);
        Syscalls.PaddedKeepsName(env, pathname[..], path);
        Syscalls.SameLookupIff(env, pathname[..]);
        ret := mon.DoChangePath(env, euid, Some(pwd), pathname, op);
      case PasswordRequest(o, n) =>
        ret := mon.DoChangePassword(env, euid, Some(o), Some(n));
    }
  }

  method ParseLine(text: string, pathname: array<char>) returns (p: Parsed)
    requires |text| < PATH_MAX + NAME_MAX + 1 && LineFits(Words(text))
    requires pathname.Length == PATH_MAX && Padded(pathname[..], "")
    modifies pathname
    ensures p == Parse(text)
    ensures p.Invoke? && p.request.PathRequest? ==> Padded(pathname[..], p.request.path)
  {
    ghost var ends;
    var argv := new int[16];
    var buf, n;
    buf, n, ends := Tokenize(text, argv);
    ghost var words := Words(text);
    var name := ReadWord(buf, argv, 0, ends, words);
    var cmd := FindCommand(name);
    if cmd == 0 {
      p := StateWrapper(buf, argv, n - 1, ends, words);
    } else if cmd == 1 {
      p := PathWrapper(buf, argv, n - 1, pathname, ends, words);
    } else if cmd == 2 {
      p := PasswordWrapper(buf, argv, n - 1, ends, words);
    } else {
      p := Reject(-EBADMSG);
    }
  }

  /** A write to the access point has the effect and the error that the line
      means, and reports the whole line as written when there was no error. There
      is no result, and no effect, exactly when the line crashes the kernel. */
  method SyscallProcWrite(mon: MonitorModule.ReferenceMonitor, env: Monitor.Env, euid: nat, text: string)
    returns (ret: Option<int>)
    requires mon.Valid() && PathSolver.LookupFits(env) && Monitor.Canonical(env) && Monitor.InodesKnown(env, mon.M())
    requires |text| < PATH_MAX + NAME_MAX + 1 ==> LineFits(Words(text))
    modifies mon, mon.hooks
    ensures mon.Valid()
    ensures ret.None? <==> LineCrashes(text)
    ensures LineCrashes(text) ==> mon.M() == old(mon.M())
    ensures !LineCrashes(text) ==>
              var w := WriteLine(env, old(mon.M()), euid, text);
              w.Some? && mon.M() == w.value.0 && ret == Some(if w.value.1 < 0 then w.value.1 else |text|)
  {
    CrashIff(text);
    if |text| >= PATH_MAX + NAME_MAX + 1 { return Some(-1); }
    var pathname := new char[PATH_MAX](_ => NUL);
    assert pathname[..] == Zeros(PATH_MAX);
    var p := ParseLine(text, pathname);
    if p.Oops? { return None; }
    if p.Reject? {
      RejectsAreNegative(text);
      return Some(p.err);
    }
    var r := Dispatch(mon, env, euid, p.request, pathname);
    ret := Some(if r < 0 then r else |text|);
  }

  lemma RejectsAreNegative(text: string)
    ensures Parse(text).Reject? ==> Parse(text).err < 0
  {
  }
}
