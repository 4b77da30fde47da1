/** The text front end: the printer in the user library and the meaning of a
    line written to the access point, against the direct system calls. */
module TextProtocol {
  import opened KernelTypes
  import CString
  import opened Tokens
  import opened Monitor
  import Syscalls

  const NAME_MAX := 255
  const COMMANDS: seq<string> := ["cngst", "cngpth", "cngpwd"]

  // ------------------------------------------------------------------ options

  function UpperChar(c: char): char {
    if 'a' <= c <= 'z' then c - 32 as char else c
  }

  function Upper(s: string): string {
    seq(|s|, i requires 0 <= i < |s| => UpperChar(s[i]))
  }

  /** A token stands for the first option name it is a prefix of. */
  function TokenBit(t: string): bv8 {
    if t <= "ON" then 0x01
    else if t <= "OFF" then 0x02
    else if t <= "RON" then 0x04
    else if t <= "ROF" then 0x08
    else if t <= "ADPTH" then 0x10
    else if t <= "RMPTH" then 0x20
    else 0
  }

  const NAMES: seq<string> := ["ON", "OFF", "RON", "ROF", "ADPTH", "RMPTH"]
  const BITS: seq<bv8> := [1, 2, 4, 8, 16, 32]

  /** Any beginning of an option name stands for the first name it begins, and
      other words for nothing. */
  lemma TokenMeansFirstName(t: string, k: nat)
    requires k <= |NAMES| && (forall j :: 0 <= j < k ==> !(t <= NAMES[j])) && (k < |NAMES| ==> t <= NAMES[k])
    ensures TokenBit(t) == if k < |NAMES| then BITS[k] else 0
  {
    assert NAMES[0] == "ON" && NAMES[1] == "OFF" && NAMES[2] == "RON" && NAMES[3] == "ROF";
    assert NAMES[4] == "ADPTH" && NAMES[5] == "RMPTH";
  }

  function OrAll(ts: seq<string>): bv8 {
    if ts == [] then 0 else OrAll(ts[..|ts| - 1]) | TokenBit(ts[|ts| - 1])
  }

  function OptionTokens(s: string): seq<string> {
    Split(Upper(s), '|')
  }

  function ParseOpt(s: string): int {
    OrAll(OptionTokens(s)) as int
  }

  /** A token adds nothing to the options it is part of. */
  lemma {:induction false} OrAllAbsorbs(ts: seq<string>, t: string)
    requires t in ts
    ensures OrAll(ts) | TokenBit(t) == OrAll(ts)
    decreases |ts|
  {
    var front, last := ts[..|ts| - 1], ts[|ts| - 1];
    if t != last {
      assert t in front;
      OrAllAbsorbs(front, t);
    }
    OrLaws(OrAll(front), TokenBit(last), TokenBit(t));
  }

  lemma OrLaws(a: bv8, b: bv8, c: bv8)
    ensures (a | b) | b == a | b
    ensures a | c == a ==> (a | b) | c == a | b
    ensures a | c == c && b | c == c ==> (a | b) | c == c
  {
  }

  lemma {:induction false} OrAllBelow(ts: seq<string>, x: bv8)
    requires forall t :: t in ts ==> x | TokenBit(t) == x
    ensures OrAll(ts) | x == x
    decreases |ts|
  {
    if ts != [] {
      var front, last := ts[..|ts| - 1], ts[|ts| - 1];
      OrAllBelow(front, x);
      assert last in ts;
      OrBelow(OrAll(front), TokenBit(last), x);
    }
  }

  lemma OrBelow(a: bv8, b: bv8, x: bv8)
    requires a | x == x && x | b == x
    ensures (a | b) | x == x
  {
  }

  ghost predicate SameTokens(a: seq<string>, b: seq<string>) {
    forall t :: t in a <==> t in b
  }

  lemma OrAllWithin(a: seq<string>, b: seq<string>)
    requires forall t :: t in a ==> t in b
    ensures OrAll(a) | OrAll(b) == OrAll(b)
  {
    forall t | t in a ensures OrAll(b) | TokenBit(t) == OrAll(b) { OrAllAbsorbs(b, t); }
    OrAllBelow(a, OrAll(b));
  }

  /** Options mean the same whatever their order, repetition and letter case:
      only the set of upper-cased tokens counts. */
  lemma OptionsAreASet(s: string, t: string)
    requires SameTokens(OptionTokens(s), OptionTokens(t))
    ensures ParseOpt(s) == ParseOpt(t)
  {
    OrAllWithin(OptionTokens(s), OptionTokens(t));
    OrAllWithin(OptionTokens(t), OptionTokens(s));
    OrBothWays(OrAll(OptionTokens(s)), OrAll(OptionTokens(t)));
  }

  lemma OrBothWays(a: bv8, b: bv8)
    requires a | b == b && b | a == a
    ensures a == b
  {
  }

  /** The same character up to letter case. */
  predicate SameLetter(c: char, d: char) {
    c == d || ('a' <= c <= 'z' && d == c - 32 as char) || ('a' <= d <= 'z' && c == d - 32 as char)
  }

  predicate SameName(s: string, t: string) {
    |s| == |t| && forall i :: 0 <= i < |s| ==> SameLetter(s[i], t[i])
  }

  function UpperAll(names: seq<string>): seq<string> {
    seq(|names|, i requires 0 <= i < |names| => Upper(names[i]))
  }

  lemma {:induction false} UpperJoin(names: seq<string>)
    requires |names| >= 1
    ensures Upper(Join(names, '|')) == Join(UpperAll(names), '|')
    decreases |names|
  {
    var n := |names|;
    if n > 1 {
      UpperJoin(names[..n - 1]);
      assert UpperAll(names)[..n - 1] == UpperAll(names[..n - 1]);
      var front, last := Join(names[..n - 1], '|'), names[n - 1];
      assert Upper(front + ['|'] + last) == Upper(front) + ['|'] + Upper(last);
    }
  }

  ghost predicate BarFree(names: seq<string>) {
    |names| >= 1 && forall i :: 0 <= i < |names| ==> '|' !in names[i]
  }

  lemma JoinedTokens(names: seq<string>)
    requires BarFree(names)
    ensures OptionTokens(Join(names, '|')) == UpperAll(names)
  {
    UpperJoin(names);
    forall i | 0 <= i < |names| ensures '|' !in UpperAll(names)[i] {
      assert forall k :: 0 <= k < |names[i]| ==> names[i][k] != '|' && UpperChar(names[i][k]) != '|';
    }
    SplitJoin(UpperAll(names), '|');
  }

  /** Every name of the one list is in the other, in some letter case. */
  ghost predicate NamesAmong(a: seq<string>, b: seq<string>) {
    forall i :: 0 <= i < |a| ==> exists j :: 0 <= j < |b| && SameName(a[i], b[j])
  }

  lemma AmongUpper(a: seq<string>, b: seq<string>)
    requires NamesAmong(a, b)
    ensures forall t :: t in UpperAll(a) ==> t in UpperAll(b)
  {
    forall t | t in UpperAll(a) ensures t in UpperAll(b) {
      var i :| 0 <= i < |a| && UpperAll(a)[i] == t;
      var j :| 0 <= j < |b| && SameName(a[i], b[j]);
      assert Upper(a[i]) == Upper(b[j]);
      assert UpperAll(b)[j] == t;
    }
  }

  /** Names joined with bars, in whatever letter case, order and number, mean the
      same as long as they are the same names. */
  lemma JoinedOptionsAreASet(a: seq<string>, b: seq<string>)
    requires BarFree(a) && BarFree(b) && NamesAmong(a, b) && NamesAmong(b, a)
    ensures ParseOpt(Join(a, '|')) == ParseOpt(Join(b, '|'))
  {
    JoinedTokens(a);
    JoinedTokens(b);
    AmongUpper(a, b);
    AmongUpper(b, a);
    OptionsAreASet(Join(a, '|'), Join(b, '|'));
  }

  /** An option argument that has been read is upper case, so never a flag. */
  lemma ReadOptionIsNoFlag(v: string)
    ensures var t := OptionTokens(v)[0]; !("-pwd" <= t) && !("-opt" <= t) && !("-pth" <= t)
  {
    var t := OptionTokens(v)[0];
    PiecesFromWhole(Upper(v), '|', 0);
    forall c | c in t ensures !('a' <= c <= 'z') {
      assert c in Upper(v);
      var i :| 0 <= i < |v| && c == UpperChar(v[i]);
    }
    assert "-pwd"[1] == 'p' && "-opt"[1] == 'o' && "-pth"[1] == 'p';
    if |t| > 1 { assert t[1] in t; }
  }

  // ------------------------------------------------------- flags and their values

  /** Only the first four characters of a token make it a flag. */
  predicate IsFlag(t: string, flag: string) {
    flag <= t
  }

  /** What the next argument is; there may be none. */
  function NextArg(argv: seq<string>, i: nat): Option<string> {
    if i + 1 < |argv| then Some(argv[i + 1]) else None
  }

  /** Reading an option upper-cases its argument in place and cuts it at the
      first bar, and the scan then meets the argument in that shape. */
  function AfterOption(argv: seq<string>, i: nat): (r: seq<string>)
    requires i + 1 < |argv|
    ensures |r| == |argv|
  {
    argv[i + 1 := OptionTokens(argv[i + 1])[0]]
  }

  /** Result of scanning arguments: the strings seen last after each flag and
      the option value. A trailing option flag makes the kernel read through a
      null pointer, unless the flag is itself the value of the option flag before
      it; a bad path argument ends the call. */
  datatype Scan = Scanned(first: Option<string>, second: Option<string>, op: int) | Refused | Crashed

  function ScanState(argv: seq<string>, i: nat, pwd: Option<string>, op: int): Scan
    requires i <= |argv|
    decreases |argv| - i
  {
    if i == |argv| then Scanned(pwd, None, op)
    else
      var pwd' := if IsFlag(argv[i], "-pwd") then NextArg(argv, i) else pwd;
      if IsFlag(argv[i], "-opt") then
        if i + 1 == |argv| then Crashed
        else ScanState(AfterOption(argv, i), i + 1, pwd', ParseOpt(argv[i + 1]))
      else ScanState(argv, i + 1, pwd', op)
  }

  /** A path argument is copied over the one before it, without a terminator. */
  function CopyOver(old_: string, s: string): string {
    if |s| < |old_| then s + old_[|s|..] else s
  }

  function ScanPath(argv: seq<string>, i: nat, pwd: Option<string>, path: string, op: int): Scan
    requires i <= |argv|
    decreases |argv| - i
  {
    if i == |argv| then Scanned(pwd, Some(path), op)
    else
      var pwd' := if IsFlag(argv[i], "-pwd") then NextArg(argv, i) else pwd;
      if IsFlag(argv[i], "-pth") && (NextArg(argv, i).None? || NextArg(argv, i).value == "(null)") then Refused
      else
        var path' := if IsFlag(argv[i], "-pth") then CopyOver(path, NextArg(argv, i).value) else path;
        if IsFlag(argv[i], "-opt") then
          if i + 1 == |argv| then Crashed
          else ScanPath(AfterOption(argv, i), i + 1, pwd', path', ParseOpt(argv[i + 1]))
        else ScanPath(argv, i + 1, pwd', path', op)
  }

  function ScanPassword(argv: seq<string>, i: nat, oldPwd: Option<string>, newPwd: Option<string>): Scan
    requires i <= |argv|
    decreases |argv| - i
  {
    if i == |argv| then Scanned(oldPwd, newPwd, 0)
    else
      ScanPassword(argv, i + 1,
                   if IsFlag(argv[i], "-old") then NextArg(argv, i) else oldPwd,
                   if IsFlag(argv[i], "-new") then NextArg(argv, i) else newPwd)
  }

  // ----------------------------------------------------------- meaning of a line

  /** What a line asks for. */
  datatype Request =
    | StateRequest(pwd: string, op: int)
    | PathRequest(pwd: string, path: string, op: int)
    | PasswordRequest(oldPwd: string, newPwd: string)

  datatype Parsed = Reject(err: int) | Invoke(request: Request) | Oops

  predicate Missing(s: Option<string>) {
    s.None? || s.value == "(null)"
  }

  /** The arguments start behind the command word. */
  function StateArgs(argv: seq<string>): Parsed {
    if |argv| != 5 then Reject(-EINVAL)
    else
      match ScanState(argv, 1, None, -1)
      case Scanned(pwd, _, op) => if Missing(pwd) then Reject(-EINVAL) else Invoke(StateRequest(pwd.value, op))
      case _ => Oops
  }

  function PathArgs(argv: seq<string>): Parsed {
    if |argv| != 7 then Reject(-EINVAL)
    else
      match ScanPath(argv, 1, None, "", -1)
      case Scanned(pwd, path, op) =>
        if Missing(pwd) || path.None? then Reject(-EINVAL) else Invoke(PathRequest(pwd.value, path.value, op))
      case Refused => Reject(-EINVAL)
      case Crashed => Oops
  }

  function PasswordArgs(argv: seq<string>): Parsed {
    if |argv| != 5 then Reject(-EINVAL)
    else
      match ScanPassword(argv, 1, None, None)
      case Scanned(o, n, _) =>
        if Missing(o) || Missing(n) then Reject(-EINVAL) else Invoke(PasswordRequest(o.value, n.value))
      case _ => Oops
  }

  /** The command is the first whose name begins with the given word. */
  function CommandIndex(word: string): int {
    if word <= COMMANDS[0] then 0 else if word <= COMMANDS[1] then 1 else if word <= COMMANDS[2] then 2 else -1
  }

  /** Newlines end the token they stand in. */
  function Line(s: string): string {
    seq(|s|, i requires 0 <= i < |s| => if s[i] == '\n' then CString.NUL else s[i])
  }

  function Words(s: string): (r: seq<string>)
    ensures |r| >= 1
  {
    var pieces := Split(Line(s), ' ');
    seq(|pieces|, i requires 0 <= i < |pieces| => CString.Str(pieces[i]))
  }

  function Parse(s: string): Parsed {
    if |s| >= PATH_MAX + NAME_MAX + 1 then Reject(-1)
    else
      var words := Words(s);
      var cmd := CommandIndex(words[0]);
      if cmd == 0 then StateArgs(words)
      else if cmd == 1 then PathArgs(words)
      else if cmd == 2 then PasswordArgs(words)
      else Reject(-EBADMSG)
  }

  /** What a request does to the monitor. Its path is copied to a cleared buffer,
      so it is looked up as the name it is. */
  function Serve(env: Env, m: MState, euid: nat, r: Request): (MState, int)
    requires Canonical(env) && InodesKnown(env, m)
  {
    match r
    case StateRequest(pwd, op) => ChangeState(env, m, euid, Some(pwd), op)
    case PathRequest(pwd, path, op) => Syscalls.ChangePath(env, m, euid, Some(pwd), Some(path), op)
    case PasswordRequest(o, n) => ChangePassword(env, m, euid, Some(o), Some(n))
  }

  /** Writing a line to the access point: the new state and 0 or the error; a
      crash has no result. */
  function WriteLine(env: Env, m: MState, euid: nat, s: string): Option<(MState, int)>
    requires Canonical(env) && InodesKnown(env, m)
  {
    match Parse(s)
    case Reject(err) => Some((m, err))
    case Invoke(r) => Some(Serve(env, m, euid, r))
    case Oops => None
  }
}
