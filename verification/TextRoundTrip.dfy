/** Printing a command in the user library and writing it to the access point
    does what the direct system call does. */
module TextRoundTrip {
  import opened KernelTypes
  import opened CString
  import opened Tokens
  import opened Monitor
  import opened PathSolver
  import opened Syscalls
  import opened TextProtocol
  import opened TextOrder

  const PATH_BUFFER := 256

  // ------------------------------------------------------------------ printers

  /** A null string pointer prints as "(null)". */
  function Shown(s: Option<string>): string {
    if s.Some? then s.value else "(null)"
  }

  function StateName(st: int): string {
    if st == ON then "ON" else if st == OFF then "OFF" else if st == REC_ON then "RON"
    else if st == REC_OFF then "ROF" else "-1"
  }

  function OpName(op: int): string {
    if op == ADD_PATH then "ADPTH" else if op == REMOVE_PATH then "RMPTH" else "-1"
  }

  function PrintState(pwd: Option<string>, st: int): string {
    "cngst" + " " + "-pwd" + " " + Shown(pwd) + " " + "-opt" + " " + StateName(st)
  }

  function PrintPath(pwd: Option<string>, path: Option<string>, op: int): string {
    "cngpth" + " " + "-pwd" + " " + Shown(pwd) + " " + "-pth" + " " + Shown(path) + " " + "-opt" + " " + OpName(op)
  }

  function PrintPassword(o: Option<string>, n: Option<string>): string {
    "cngpwd" + " " + "-old" + " " + Shown(o) + " " + "-new" + " " + Shown(n)
  }

  // ------------------------------------------------------------ words of a line

  /** Text that survives being one word of a line. */
  predicate Plain(s: string) {
    ' ' !in s && '\n' !in s && NUL !in s
  }

  ghost predicate AllPlain(parts: seq<string>) {
    forall i :: 0 <= i < |parts| ==> Plain(parts[i])
  }

  lemma {:induction false} JoinLacks(parts: seq<string>, sep: char, c: char)
    requires |parts| >= 1 && c != sep && forall i :: 0 <= i < |parts| ==> c !in parts[i]
    ensures c !in Join(parts, sep)
    decreases |parts|
  {
    if |parts| > 1 { JoinLacks(parts[..|parts| - 1], sep, c); }
  }

  lemma WordsOfJoin(parts: seq<string>)
    requires |parts| >= 1 && AllPlain(parts)
    ensures Words(Join(parts, ' ')) == parts
  {
    var s := Join(parts, ' ');
    JoinLacks(parts, ' ', '\n');
    assert Line(s) == s;
    SplitJoin(parts, ' ');
    forall i | 0 <= i < |parts| ensures Str(parts[i]) == parts[i] { StrLenIs(parts[i], |parts[i]|); }
  }

  lemma JoinMore(parts: seq<string>, last: string)
    requires |parts| >= 1
    ensures Join(parts + [last], ' ') == Join(parts, ' ') + " " + last
  {
    assert (parts + [last])[..|parts|] == parts;
  }

  lemma JoinFive(a: string, b: string, c: string, d: string, e: string)
    ensures Join([a, b, c, d, e], ' ') == a + " " + b + " " + c + " " + d + " " + e
  {
    JoinMore([a], b);
    assert [a] + [b] == [a, b];
    JoinMore([a, b], c);
    assert [a, b] + [c] == [a, b, c];
    JoinMore([a, b, c], d);
    assert [a, b, c] + [d] == [a, b, c, d];
    JoinMore([a, b, c, d], e);
    assert [a, b, c, d] + [e] == [a, b, c, d, e];
  }

  lemma JoinSeven(a: string, b: string, c: string, d: string, e: string, f: string, g: string)
    ensures Join([a, b, c, d, e, f, g], ' ') == a + " " + b + " " + c + " " + d + " " + e + " " + f + " " + g
  {
    JoinFive(a, b, c, d, e);
    JoinMore([a, b, c, d, e], f);
    assert [a, b, c, d, e] + [f] == [a, b, c, d, e, f];
    JoinMore([a, b, c, d, e, f], g);
    assert [a, b, c, d, e, f] + [g] == [a, b, c, d, e, f, g];
  }

  // ---------------------------------------------------------------- option names

  predicate NameChar(c: char) { 'A' <= c <= 'Z' || c == '-' || c == '1' }

  lemma NameWord(s: string)
    requires forall i :: 0 <= i < |s| ==> NameChar(s[i])
    ensures Plain(s) && OptionTokens(s) == [s]
  {
    assert Upper(s) == s;
    SplitWhole(s, '|');
  }

  lemma NamePlain(st: int)
    ensures Plain(StateName(st)) && OptionTokens(StateName(st)) == [StateName(st)]
    ensures Plain(OpName(st)) && OptionTokens(OpName(st)) == [OpName(st)]
  {
    NameWord(StateName(st));
    NameWord(OpName(st));
  }

  lemma OneOption(t: string)
    ensures OrAll([t]) == TokenBit(t)
  {
    assert [t][..0] == [];
    assert OrAll([]) == 0;
  }

  lemma TokenBits()
    ensures TokenBit("ON") == 0x01 && TokenBit("OFF") == 0x02 && TokenBit("RON") == 0x04
    ensures TokenBit("ROF") == 0x08 && TokenBit("ADPTH") == 0x10 && TokenBit("RMPTH") == 0x20
    ensures TokenBit("-1") == 0
  {
    assert "OFF"[1] == 'F' && "ON"[1] == 'N' && "RON"[0] == 'R' && "RON"[2] == 'N' && "ROF"[2] == 'F';
    assert "ROF"[0] == 'R' && "ADPTH"[0] == 'A' && "RMPTH"[0] == 'R' && "RMPTH"[1] == 'M' && "-1"[0] == '-';
  }

  /** A printed option reads back as its number, an invalid one as zero. */
  lemma OptionRoundTrip(st: int)
    ensures ParseOpt(StateName(st)) == if ValidState(st) then st else 0
    ensures ParseOpt(OpName(st)) == if st == ADD_PATH || st == REMOVE_PATH then st else 0
  {
    NamePlain(st);
    OneOption(StateName(st));
    OneOption(OpName(st));
    NameBits(st);
  }

  lemma NameBits(st: int)
    ensures TokenBit(StateName(st)) as int == if ValidState(st) then st else 0
    ensures TokenBit(OpName(st)) as int == if st == ADD_PATH || st == REMOVE_PATH then st else 0
  {
    TokenBits();
  }

  lemma CommandWords()
    ensures CommandIndex("cngst") == 0 && CommandIndex("cngpth") == 1 && CommandIndex("cngpwd") == 2
    ensures Plain("cngst") && Plain("cngpth") && Plain("cngpwd") && Plain("(null)")
    ensures Plain("-pwd") && Plain("-opt") && Plain("-pth") && Plain("-old") && Plain("-new")
  {
    assert "cngst"[3] == 's' && "cngpth"[3] == 'p' && "cngpth"[4] == 't' && "cngpwd"[3] == 'p' && "cngpwd"[4] == 'w';
  }

  // ----------------------------------------------------------------- round trips

  /** The hypotheses under which a string argument survives the text. */
  predicate StateArgument(s: Option<string>) {
    s.Some? ==> Plain(s.value) && StateValue(s.value) && s.value != "(null)"
  }

  predicate PathArgument(s: Option<string>) {
    s.Some? ==> Plain(s.value) && PathValue(s.value) && s.value != "(null)"
  }

  lemma StateWords(pwd: Option<string>, st: int)
    requires StateArgument(pwd)
    ensures Words(PrintState(pwd, st)) == ["cngst", "-pwd", Shown(pwd), "-opt", StateName(st)]
  {
    CommandWords();
    NamePlain(st);
    JoinFive("cngst", "-pwd", Shown(pwd), "-opt", StateName(st));
    assert PrintState(pwd, st) == Join(["cngst", "-pwd", Shown(pwd), "-opt", StateName(st)], ' ');
    WordsOfJoin(["cngst", "-pwd", Shown(pwd), "-opt", StateName(st)]);
  }

  lemma NullIsNoFlag()
    ensures StateValue("(null)") && PathValue("(null)") && PasswordValue("(null)")
  {
    assert "-old"[0] == '-' && "-new"[0] == '-';
    assert "(null)"[0] == '(' && "-pwd"[0] == '-' && "-opt"[0] == '-' && "-pth"[0] == '-';
  }

  /** A null password is refused before anything else is looked at. */
  lemma NullStateArgs(cmd: string, opt: string)
    ensures StateArgs([cmd, "-pwd", "(null)", "-opt", opt]) == Reject(-EINVAL)
  {
    NullIsNoFlag();
    var p, o := Pair(Pwd, "(null)"), Pair(Opt, opt);
    FlatTwo(p, o);
    FoldTwo(p, o);
    var argv := [cmd, "-pwd", "(null)", "-opt", opt];
    assert argv[1..] == Flat([p, o]);
    ScanStatePairs(argv, 1, [p, o], None, -1);
  }

  /** Changing the state through the access point reaches the same state and
      the same error as the direct call, for valid and invalid states alike. */
  lemma StateRoundTrip(env: Env, m: MState, euid: nat, pwd: Option<string>, st: int)
    requires Canonical(env) && InodesKnown(env, m) && StateArgument(pwd) && |PrintState(pwd, st)| < PATH_BUFFER
    ensures WriteLine(env, m, euid, PrintState(pwd, st)) == Some(SysChangeState(env, m, euid, pwd, st))
  {
    var s, name := PrintState(pwd, st), StateName(st);
    StateWords(pwd, st);
    CommandWords();
    OptionRoundTrip(st);
    if pwd.Some? {
      StateFlagsAnyOrder("cngst", pwd.value, name);
      assert Parse(s) == Invoke(StateRequest(pwd.value, ParseOpt(name)));
    } else {
      NullStateArgs("cngst", name);
      assert Parse(s) == Reject(-EINVAL);
    }
  }

  predicate PasswordArgument(s: Option<string>) {
    s.Some? ==> Plain(s.value) && PasswordValue(s.value) && s.value != "(null)"
  }

  /** A printed password change is the call on the passwords; a null pointer is
      refused. */
  lemma PrintedPasswordCall(env: Env, m: MState, euid: nat, o: Option<string>, n: Option<string>)
    requires Canonical(env) && InodesKnown(env, m) && PasswordArgument(o) && PasswordArgument(n)
    requires |PrintPassword(o, n)| < PATH_BUFFER
    ensures WriteLine(env, m, euid, PrintPassword(o, n)) ==
            Some(if o.None? || n.None? then (m, -EINVAL) else ChangePassword(env, m, euid, o, n))
  {
    CommandWords();
    NullIsNoFlag();
    var words := ["cngpwd", "-old", Shown(o), "-new", Shown(n)];
    JoinFive(words[0], words[1], words[2], words[3], words[4]);
    assert PrintPassword(o, n) == Join(words, ' ');
    WordsOfJoin(words);
    PasswordFlagsAnyOrder("cngpwd", Shown(o), Shown(n));
    assert Parse(PrintPassword(o, n)) == PasswordArgs(words);
  }

  /** Changing the password through the access point reaches the same state and
      error as the direct call, in all states of the invariant and for all
      callers, if and only if neither password is a null pointer. */
  lemma PasswordRoundTripIff(env: Env, base: map<nat, Attr>, o: Option<string>, n: Option<string>)
    requires Canonical(env) && Knows(env, base) && PasswordArgument(o) && PasswordArgument(n)
    requires |PrintPassword(o, n)| < PATH_BUFFER
    ensures (forall m, euid :: Inv(env, m, base) ==>
              WriteLine(env, m, euid, PrintPassword(o, n)) == Some(SysChangePassword(env, m, euid, o, n)))
            <==> o.Some? && n.Some?
  {
    forall m, euid | Inv(env, m, base)
      ensures WriteLine(env, m, euid, PrintPassword(o, n)) ==
              Some(if o.None? || n.None? then (m, -EINVAL) else ChangePassword(env, m, euid, o, n))
    {
      PrintedPasswordCall(env, m, euid, o, n);
    }
    var m := Reconfiguring(env, base, "");
    assert SysChangePassword(env, m, env.admin + 1, o, n) == (m, -EPERM);
  }

  lemma PathWords(pwd: Option<string>, path: Option<string>, op: int)
    requires PathArgument(pwd) && PathArgument(path)
    ensures Words(PrintPath(pwd, path, op)) ==
            ["cngpth", "-pwd", Shown(pwd), "-pth", Shown(path), "-opt", OpName(op)]
  {
    CommandWords();
    NamePlain(op);
    JoinSeven("cngpth", "-pwd", Shown(pwd), "-pth", Shown(path), "-opt", OpName(op));
    assert PrintPath(pwd, path, op) ==
           Join(["cngpth", "-pwd", Shown(pwd), "-pth", Shown(path), "-opt", OpName(op)], ' ');
    WordsOfJoin(["cngpth", "-pwd", Shown(pwd), "-pth", Shown(path), "-opt", OpName(op)]);
  }

  lemma FlatThree(a: Pair, b: Pair, c: Pair)
    ensures Flat([a, b, c]) ==
            [FlagText(a.flag), a.value, FlagText(b.flag), b.value, FlagText(c.flag), c.value]
  {
    assert [a, b, c][1..] == [b, c];
    FlatTwo(b, c);
  }

  /** What the path command's arguments, in printed order, are taken for. */
  lemma PrintedPathArgs(cmd: string, pwd: Option<string>, path: Option<string>, opt: string)
    requires PathArgument(pwd) && PathArgument(path)
    ensures PathArgs([cmd, "-pwd", Shown(pwd), "-pth", Shown(path), "-opt", opt]) ==
            if pwd.None? || path.None? then Reject(-EINVAL)
            else Invoke(PathRequest(pwd.value, path.value, ParseOpt(opt)))
  {
    NullIsNoFlag();
    var p, q, o := Pair(Pwd, Shown(pwd)), Pair(Pth, Shown(path)), Pair(Opt, opt);
    var ps := [p, q, o];
    FlatThree(p, q, o);
    var argv := [cmd, "-pwd", Shown(pwd), "-pth", Shown(path), "-opt", opt];
    assert argv[1..] == Flat(ps);
    ScanPathPairs(argv, 1, ps, None, "", -1);
    if path.Some? {
      FoldThree(ps, 0, 1, 2);
    } else {
      FoldPathStep(ps, None, "", -1);
      assert ps[1..][0] == q;
    }
  }

  /** A printed list change is the call on the name. */
  lemma PrintedPathCall(env: Env, m: MState, euid: nat, pwd: Option<string>, path: Option<string>, op: int)
    requires Canonical(env) && InodesKnown(env, m) && PathArgument(pwd) && PathArgument(path)
    requires |PrintPath(pwd, path, op)| < PATH_BUFFER
    ensures WriteLine(env, m, euid, PrintPath(pwd, path, op)) ==
            Some(if pwd.None? || path.None? then (m, -EINVAL) else ChangePath(env, m, euid, pwd, path, op))
  {
    var s, name := PrintPath(pwd, path, op), OpName(op);
    PathWords(pwd, path, op);
    CommandWords();
    OptionRoundTrip(op);
    PrintedPathArgs("cngpth", pwd, path, name);
    assert Parse(s) == PathArgs(["cngpth", "-pwd", Shown(pwd), "-pth", Shown(path), "-opt", name]);
  }

  /** The C string at a path pointer; the direct call copies the bytes behind it
      as well. */
  function NameAt(user: Option<seq<char>>): Option<string>
    requires user.Some? ==> |user.value| <= MAX_FROM_USER
  {
    if user.None? then None else Some(Str(FromUser(user.value)))
  }

  /** Printing the name that a pointer leads to does what passing the pointer does. */
  ghost predicate SameAsDirect(
      env: Env, m: MState, euid: nat, pwd: Option<string>, user: Option<seq<char>>, op: int)
    requires LookupFits(env) && Canonical(env) && InodesKnown(env, m)
    requires user.Some? ==> |user.value| <= MAX_FROM_USER
  {
    WriteLine(env, m, euid, PrintPath(pwd, NameAt(user), op)) == Some(SysChangePaths(env, m, euid, pwd, user, op))
  }

  predicate Printable(pwd: Option<string>, user: Option<seq<char>>, op: int)
    requires user.Some? ==> |user.value| <= MAX_FROM_USER
  {
    && PathArgument(pwd) && PathArgument(NameAt(user))
    && |PrintPath(pwd, NameAt(user), op)| < PATH_BUFFER
  }

  /** Changing the list through the access point reaches the same state and error
      as the direct call, for null arguments and invalid operations too, in all
      states of the invariant and for all callers, if and only if the memory
      behind the name lets its canonical path take its place, or the call does
      not get as far as looking it up. */
  lemma PathRoundTripIff(env: Env, base: map<nat, Attr>, pwd: Option<string>, user: Option<seq<char>>, op: int)
    requires LookupFits(env) && Canonical(env) && Knows(env, base)
    requires (user.Some? ==> |user.value| <= MAX_FROM_USER) && Printable(pwd, user, op)
    ensures (forall m, euid :: Inv(env, m, base) ==> SameAsDirect(env, m, euid, pwd, user, op)) <==>
            pwd.None? || user.None? || (op != ADD_PATH && op != REMOVE_PATH) || NameKept(env, FromUser(user.value))
  {
    forall m, euid | Inv(env, m, base)
      ensures WriteLine(env, m, euid, PrintPath(pwd, NameAt(user), op)) ==
              Some(if pwd.None? || user.None? then (m, -EINVAL) else ChangePath(env, m, euid, pwd, NameAt(user), op))
    {
      PrintedPathCall(env, m, euid, pwd, NameAt(user), op);
    }
    if pwd.Some? && user.Some? && (op == ADD_PATH || op == REMOVE_PATH) {
      var b := FromUser(user.value);
      BufferCallIsNameCallIff(env, base, pwd.value, b, op);
      assert forall m, euid :: Inv(env, m, base) ==>
        (SameAsDirect(env, m, euid, pwd, user, op) <==> AgreeOn(env, m, euid, pwd, b, op));
    }
  }

  /** With NULs behind the name the two always agree, whatever the state. */
  lemma PathRoundTrip(env: Env, m: MState, euid: nat, pwd: Option<string>, path: string, op: int)
    requires LookupFits(env) && Canonical(env) && InodesKnown(env, m) && PathArgument(pwd) && PathArgument(Some(path))
    requires |PrintPath(pwd, Some(path), op)| < PATH_BUFFER
    ensures WriteLine(env, m, euid, PrintPath(pwd, Some(path), op)) ==
            Some(SysChangePaths(env, m, euid, pwd, Some(path), op))
  {
    PrintedPathCall(env, m, euid, pwd, Some(path), op);
    var b := FromUser(path);
    assert Padded(b, path);
    PaddedKeepsName(env, b, path);
    SameLookupIff(env, b);
  }

  /** "/l" leads to "/long/dir" and is followed in memory by a NUL and more text:
      printed, it adds the directory; passed directly, it is not found. */
  lemma SpoiltCallExample() returns (user: seq<char>, m: MState)
    ensures LookupFits(LinkEnv()) && Canonical(LinkEnv()) && Inv(LinkEnv(), m, LINK_BASE)
    ensures |user| <= MAX_FROM_USER && NameAt(Some(user)) == Some("/l") && m.list == []
    ensures SysChangePaths(LinkEnv(), m, 0, Some("secret"), Some(user), ADD_PATH) == (m, -ENOENT)
    ensures WriteLine(LinkEnv(), m, 0, PrintPath(Some("secret"), Some("/l"), ADD_PATH)) ==
            Some((m.(list := [Entry("/long/dir", 2, LINK_BASE[2])]), 0))
  {
    var env := LinkEnv();
    LinkEnvOk();
    m := Reconfiguring(env, LINK_BASE, "secret");
    user := ['/', 'l', NUL] + "xxxxxxxxx";
    ExampleCallFails(user);
    ExampleNameFound();
    ExamplePrints();
    PrintedPathCall(env, m, 0, Some("secret"), Some("/l"), ADD_PATH);
    assert AddPath(m, Target("/long/dir", 2)).0.list == [Entry("/long/dir", 2, LINK_BASE[2])];
  }

  lemma ExamplePrints()
    ensures PathArgument(Some("secret")) && PathArgument(Some("/l"))
    ensures |PrintPath(Some("secret"), Some("/l"), ADD_PATH)| < PATH_BUFFER
  {
    assert "secret"[0] == 's' && "/l"[0] == '/' && "-pwd"[0] == '-' && "-opt"[0] == '-' && "-pth"[0] == '-';
  }

  lemma ExampleNameFound()
    ensures Canonical(LinkEnv()) && LookUpName(LinkEnv(), "/l") == Found(Target("/long/dir", 2))
  {
    LinkEnvOk();
  }

  lemma ExampleCallFails(user: seq<char>)
    requires user == ['/', 'l', NUL] + "xxxxxxxxx"
    ensures Str(FromUser(user)) == "/l" && LookupFits(LinkEnv())
    ensures LookUp(LinkEnv(), FromUser(user)) == Failed(-ENOENT)
  {
    var env, b := LinkEnv(), FromUser(user);
    LinkEnvOk();
    StrLenIs(b, 2);
    assert b[..2] == "/l";
    assert AbsoluteBuffer(env, b) == b;
    var rest := b[9..];
    assert rest[..3] == "xxx" && rest[3] == NUL;
    StrLenIs(rest, 3);
    FillFinds(env, b);
    var left := Overlaid(b, "/long/dir");
    assert left == "/long/dir" + "xxx";
    assert left[1] == 'l' && left[2] == 'o' && |left| == 12;
    assert |"/long/dir"| == 9 && |"/l"| == 2;
  }
}
