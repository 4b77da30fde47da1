/** What the access point makes of a line as a whole: its length, its first word,
    the number of its words, a newline at its end, and what may follow a flag. */
module TextLines {
  import opened KernelTypes
  import Monitor
  import opened TextProtocol
  import TextOrder
  import TextRoundTrip
  import CString
  import Tokens

  /** Too long a line, and a first word that begins no command name, are answered
      with an error and change nothing; any beginning of a command name, in this
      order, stands for the command. */
  lemma FirstWordDecides(env: Monitor.Env, m: Monitor.MState, euid: nat, text: string)
    requires Monitor.Canonical(env) && Monitor.InodesKnown(env, m)
    ensures var w := Words(text)[0];
            if |text| >= 4352 then WriteLine(env, m, euid, text) == Some((m, -1))
            else if w <= "cngst" then Parse(text) == StateArgs(Words(text))
            else if w <= "cngpth" then Parse(text) == PathArgs(Words(text))
            else if w <= "cngpwd" then Parse(text) == PasswordArgs(Words(text))
            else WriteLine(env, m, euid, text) == Some((m, -74))
  {
  }

  /** A line with too few or too many words for its command is refused. */
  lemma WrongNumberOfWords(env: Monitor.Env, m: Monitor.MState, euid: nat, text: string)
    requires Monitor.Canonical(env) && Monitor.InodesKnown(env, m) && |text| < 4352
    requires var w := Words(text)[0];
             && (w <= "cngst" || w <= "cngpth" || w <= "cngpwd")
             && |Words(text)| != if w <= "cngst" then 5 else if w <= "cngpth" then 7 else 5
    ensures WriteLine(env, m, euid, text) == Some((m, -22))
  {
  }

  /** A newline at the end of a line does not count. */
  lemma TrailingNewline(parts: seq<string>)
    requires |parts| >= 1 && TextRoundTrip.AllPlain(parts)
    ensures Words(Tokens.Join(parts, ' ') + "\n") == parts
  {
    var s, nul := Tokens.Join(parts, ' '), [CString.NUL];
    TextRoundTrip.JoinLacks(parts, ' ', '\n');
    NewlineIsNul(s);
    Tokens.SplitJoin(parts, ' ');
    Tokens.SplitExtend(s, nul, ' ');
    LastWordEnds(parts);
  }

  lemma LastWordEnds(parts: seq<string>)
    requires |parts| >= 1 && TextRoundTrip.AllPlain(parts)
    ensures var pieces := Tokens.Extend(parts, [CString.NUL]);
            |pieces| == |parts| && forall i :: 0 <= i < |parts| ==> CString.Str(pieces[i]) == parts[i]
  {
    forall i | 0 <= i < |parts| ensures CString.Str(Tokens.Extend(parts, [CString.NUL])[i]) == parts[i] {
      PlainEnds(parts[i]);
    }
  }

  lemma NewlineIsNul(s: string)
    requires '\n' !in s
    ensures Line(s + "\n") == s + [CString.NUL]
  {
  }

  lemma PlainEnds(s: string)
    requires TextRoundTrip.Plain(s)
    ensures CString.Str(s) == s && CString.Str(s + [CString.NUL]) == s
  {
    CString.StrLenIs(s, |s|);
    CString.StrLenIs([CString.NUL], 0);
    CString.StrBehind(s, [CString.NUL]);
  }

  lemma NewlineParsesAlike(parts: seq<string>)
    requires |parts| >= 1 && TextRoundTrip.AllPlain(parts) && |Tokens.Join(parts, ' ')| < 4351
    ensures Parse(Tokens.Join(parts, ' ') + "\n") == Parse(Tokens.Join(parts, ' '))
  {
    TrailingNewline(parts);
    TextRoundTrip.WordsOfJoin(parts);
  }

  // ----------------------------------------------------- what follows a flag

  /** A word that begins with a flag is that flag and no other. */
  lemma LongFlags(x: string)
    ensures IsFlag("-pwd" + x, "-pwd") && !IsFlag("-pwd" + x, "-opt") && !IsFlag("-pwd" + x, "-pth")
    ensures IsFlag("-opt" + x, "-opt") && !IsFlag("-opt" + x, "-pwd") && !IsFlag("-opt" + x, "-pth")
    ensures IsFlag("-pth" + x, "-pth") && !IsFlag("-pth" + x, "-opt") && !IsFlag("-pth" + x, "-pwd")
    ensures IsFlag("-old" + x, "-old") && !IsFlag("-old" + x, "-new")
    ensures IsFlag("-new" + x, "-new") && !IsFlag("-new" + x, "-old")
  {
    assert ("-pwd" + x)[1] == 'p' && ("-pwd" + x)[2] == 'w' && ("-pth" + x)[2] == 't' && ("-pth" + x)[1] == 'p';
    assert ("-opt" + x)[1] == 'o' && ("-old" + x)[1] == 'o' && ("-new" + x)[1] == 'n';
  }

  /** Only the first four characters of a flag count, in each command. */
  lemma StateFlagTails(cmd: string, x: string, y: string, pwd: string, opt: string)
    requires TextOrder.StateValue(pwd) && pwd != "(null)"
    ensures StateArgs([cmd, "-pwd" + x, pwd, "-opt" + y, opt]) == Invoke(StateRequest(pwd, ParseOpt(opt)))
  {
    var a := [cmd, "-pwd" + x, pwd, "-opt" + y, opt];
    LongFlags(x);
    LongFlags(y);
    ReadOptionIsNoFlag(opt);
    var a' := AfterOption(a, 3);
    assert ScanState(a', 4, Some(pwd), ParseOpt(opt)) == ScanState(a', 5, Some(pwd), ParseOpt(opt));
    assert ScanState(a, 3, Some(pwd), -1) == ScanState(a', 4, Some(pwd), ParseOpt(opt));
    assert ScanState(a, 1, None, -1) == ScanState(a, 2, Some(pwd), -1) == ScanState(a, 3, Some(pwd), -1);
  }

  lemma PasswordFlagTails(cmd: string, x: string, y: string, o: string, n: string)
    requires TextOrder.PasswordValue(o) && TextOrder.PasswordValue(n) && o != "(null)" && n != "(null)"
    ensures PasswordArgs([cmd, "-old" + x, o, "-new" + y, n]) == Invoke(PasswordRequest(o, n))
  {
    var a := [cmd, "-old" + x, o, "-new" + y, n];
    LongFlags(x);
    LongFlags(y);
    assert ScanPassword(a, 3, Some(o), None) == ScanPassword(a, 4, Some(o), Some(n))
        == ScanPassword(a, 5, Some(o), Some(n));
    assert ScanPassword(a, 1, None, None) == ScanPassword(a, 2, Some(o), None) == ScanPassword(a, 3, Some(o), None);
  }

  lemma PathFlagTails(cmd: string, x: string, y: string, z: string, pwd: string, path: string, opt: string)
    requires TextOrder.PathValue(pwd) && TextOrder.PathValue(path) && pwd != "(null)" && path != "(null)"
    ensures PathArgs([cmd, "-pwd" + x, pwd, "-pth" + y, path, "-opt" + z, opt]) ==
            Invoke(PathRequest(pwd, path, ParseOpt(opt)))
  {
    var a := [cmd, "-pwd" + x, pwd, "-pth" + y, path, "-opt" + z, opt];
    LongFlags(x);
    LongFlags(y);
    LongFlags(z);
    ReadOptionIsNoFlag(opt);
    assert CopyOver("", path) == path;
    var a', op := AfterOption(a, 5), ParseOpt(opt);
    assert ScanPath(a', 6, Some(pwd), path, op) == ScanPath(a', 7, Some(pwd), path, op);
    assert ScanPath(a, 5, Some(pwd), path, -1) == ScanPath(a', 6, Some(pwd), path, op);
    assert ScanPath(a, 3, Some(pwd), "", -1) == ScanPath(a, 4, Some(pwd), path, -1)
        == ScanPath(a, 5, Some(pwd), path, -1);
    assert ScanPath(a, 1, None, "", -1) == ScanPath(a, 2, Some(pwd), "", -1) == ScanPath(a, 3, Some(pwd), "", -1);
  }
}
