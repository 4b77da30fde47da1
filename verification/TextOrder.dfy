/** The order in which flag and value pairs are written does not matter. */
module TextOrder {
  import opened KernelTypes
  import opened TextProtocol

  datatype Flag = Pwd | Pth | Opt
  datatype Pair = Pair(flag: Flag, value: string)

  function FlagText(f: Flag): string {
    match f
    case Pwd => "-pwd"
    case Pth => "-pth"
    case Opt => "-opt"
  }

  function Flat(ps: seq<Pair>): seq<string> {
    if ps == [] then [] else [FlagText(ps[0].flag), ps[0].value] + Flat(ps[1..])
  }

  lemma FlatParts(argv: seq<string>, i: nat, ps: seq<Pair>)
    requires i <= |argv| && argv[i..] == Flat(ps) && ps != []
    ensures i + 2 <= |argv| && argv[i] == FlagText(ps[0].flag) && argv[i + 1] == ps[0].value
    ensures argv[i + 2..] == Flat(ps[1..])
  {
    var rest := argv[i..];
    assert rest[0] == argv[i] && rest[1] == argv[i + 1];
    assert rest[2..] == Flat(ps[1..]);
    assert argv[i + 2..] == rest[2..];
  }

  lemma FlagsDiffer()
    ensures !("-pwd" <= "-opt") && !("-pwd" <= "-pth") && !("-opt" <= "-pwd")
    ensures !("-opt" <= "-pth") && !("-pth" <= "-pwd") && !("-pth" <= "-opt")
    ensures !("-old" <= "-new") && !("-new" <= "-old")
  {
    assert "-pwd"[1] == 'p' && "-pwd"[2] == 'w' && "-opt"[1] == 'o' && "-pth"[2] == 't' && "-pth"[1] == 'p';
    assert "-old"[1] == 'o' && "-new"[1] == 'n';
  }

  // -------------------------------------------------------------- change state

  predicate StateValue(v: string) { !("-pwd" <= v) && !("-opt" <= v) }

  predicate StatePairs(ps: seq<Pair>) {
    forall i :: 0 <= i < |ps| ==>
      (ps[i].flag == Opt || (ps[i].flag == Pwd && StateValue(ps[i].value)))
  }

  function FoldState(ps: seq<Pair>, pwd: Option<string>, op: int): Scan {
    if ps == [] then Scanned(pwd, None, op)
    else if ps[0].flag == Pwd then FoldState(ps[1..], Some(ps[0].value), op)
    else FoldState(ps[1..], pwd, ParseOpt(ps[0].value))
  }

  lemma {:induction false} ScanStatePairs(argv: seq<string>, i: nat, ps: seq<Pair>, pwd: Option<string>, op: int)
    requires i <= |argv| && argv[i..] == Flat(ps) && StatePairs(ps)
    ensures ScanState(argv, i, pwd, op) == FoldState(ps, pwd, op)
    decreases |ps|
  {
    FlagsDiffer();
    if ps != [] {
      FlatParts(argv, i, ps);
      assert StatePairs(ps[1..]);
      if ps[0].flag == Pwd {
        assert ScanState(argv, i, pwd, op) == ScanState(argv, i + 1, Some(argv[i + 1]), op);
        assert ScanState(argv, i + 1, Some(argv[i + 1]), op) == ScanState(argv, i + 2, Some(argv[i + 1]), op);
        ScanStatePairs(argv, i + 2, ps[1..], Some(argv[i + 1]), op);
      } else {
        var argv', op' := AfterOption(argv, i), ParseOpt(argv[i + 1]);
        ReadOptionIsNoFlag(argv[i + 1]);
        assert argv'[i + 2..] == argv[i + 2..];
        assert ScanState(argv, i, pwd, op) == ScanState(argv', i + 1, pwd, op');
        assert ScanState(argv', i + 1, pwd, op') == ScanState(argv', i + 2, pwd, op');
        ScanStatePairs(argv', i + 2, ps[1..], pwd, op');
      }
    }
  }

  /** The two pairs of a state change in either order. */
  lemma StateFlagsAnyOrder(cmd: string, pwd: string, opt: string)
    requires StateValue(pwd) && pwd != "(null)"
    ensures StateArgs([cmd, "-pwd", pwd, "-opt", opt]) == Invoke(StateRequest(pwd, ParseOpt(opt)))
    ensures StateArgs([cmd, "-opt", opt, "-pwd", pwd]) == Invoke(StateRequest(pwd, ParseOpt(opt)))
  {
    var p, o := Pair(Pwd, pwd), Pair(Opt, opt);
    FlatTwo(p, o);
    FlatTwo(o, p);
    FoldTwo(p, o);
    var po, op := [cmd, "-pwd", pwd, "-opt", opt], [cmd, "-opt", opt, "-pwd", pwd];
    assert po[1..] == Flat([p, o]) && op[1..] == Flat([o, p]);
    ScanStatePairs(po, 1, [p, o], None, -1);
    ScanStatePairs(op, 1, [o, p], None, -1);
  }

  lemma FlatTwo(a: Pair, b: Pair)
    ensures Flat([a, b]) == [FlagText(a.flag), a.value, FlagText(b.flag), b.value]
  {
    assert [a, b][1..] == [b] && [b][1..] == [];
    assert Flat([b]) == [FlagText(b.flag), b.value] + Flat([]);
  }

  lemma FoldStateStep(a: Pair, rest: seq<Pair>, pwd: Option<string>, op: int)
    ensures FoldState([a] + rest, pwd, op) ==
            if a.flag == Pwd then FoldState(rest, Some(a.value), op)
            else FoldState(rest, pwd, ParseOpt(a.value))
  {
    assert ([a] + rest)[1..] == rest;
  }

  lemma FoldTwo(p: Pair, o: Pair)
    requires p.flag == Pwd && o.flag == Opt
    ensures FoldState([p, o], None, -1) == Scanned(Some(p.value), None, ParseOpt(o.value))
    ensures FoldState([o, p], None, -1) == Scanned(Some(p.value), None, ParseOpt(o.value))
  {
    assert [p, o] == [p] + ([o] + []) && [o, p] == [o] + ([p] + []);
    FoldStateStep(p, [o] + [], None, -1);
    FoldStateStep(o, [], Some(p.value), -1);
    FoldStateStep(o, [p] + [], None, -1);
    FoldStateStep(p, [], None, ParseOpt(o.value));
  }

  // ------------------------------------------------------------ change password

  predicate PasswordValue(v: string) { !("-old" <= v) && !("-new" <= v) }

  lemma PasswordFlagsAnyOrder(cmd: string, o: string, n: string)
    requires PasswordValue(o) && PasswordValue(n)
    ensures var r := if o == "(null)" || n == "(null)" then Reject(-EINVAL) else Invoke(PasswordRequest(o, n));
            PasswordArgs([cmd, "-old", o, "-new", n]) == PasswordArgs([cmd, "-new", n, "-old", o]) == r
  {
    FlagsDiffer();
    var a, b := [cmd, "-old", o, "-new", n], [cmd, "-new", n, "-old", o];
    assert ScanPassword(a, 3, Some(o), None) == ScanPassword(a, 4, Some(o), Some(n))
        == ScanPassword(a, 5, Some(o), Some(n));
    assert ScanPassword(a, 1, None, None) == ScanPassword(a, 2, Some(o), None) == ScanPassword(a, 3, Some(o), None);
    assert ScanPassword(b, 3, None, Some(n)) == ScanPassword(b, 4, Some(o), Some(n))
        == ScanPassword(b, 5, Some(o), Some(n));
    assert ScanPassword(b, 1, None, None) == ScanPassword(b, 2, None, Some(n)) == ScanPassword(b, 3, None, Some(n));
  }

  // ---------------------------------------------------------------- change path

  predicate PathValue(v: string) { !("-pwd" <= v) && !("-opt" <= v) && !("-pth" <= v) }

  predicate PathPairs(ps: seq<Pair>) {
    forall i :: 0 <= i < |ps| ==>
      (ps[i].flag == Opt || ((ps[i].flag == Pwd || ps[i].flag == Pth) && PathValue(ps[i].value)))
  }

  function FoldPath(ps: seq<Pair>, pwd: Option<string>, path: string, op: int): Scan {
    if ps == [] then Scanned(pwd, Some(path), op)
    else if ps[0].flag == Pwd then FoldPath(ps[1..], Some(ps[0].value), path, op)
    else if ps[0].flag == Opt then FoldPath(ps[1..], pwd, path, ParseOpt(ps[0].value))
    else if ps[0].value == "(null)" then Refused
    else FoldPath(ps[1..], pwd, CopyOver(path, ps[0].value), op)
  }

  lemma {:induction false} ScanPathPairs(
      argv: seq<string>, i: nat, ps: seq<Pair>, pwd: Option<string>, path: string, op: int)
    requires i <= |argv| && argv[i..] == Flat(ps) && PathPairs(ps)
    ensures ScanPath(argv, i, pwd, path, op) == FoldPath(ps, pwd, path, op)
    decreases |ps|
  {
    FlagsDiffer();
    if ps != [] {
      FlatParts(argv, i, ps);
      assert PathPairs(ps[1..]);
      if ps[0].flag == Opt {
        var argv', op' := AfterOption(argv, i), ParseOpt(argv[i + 1]);
        ReadOptionIsNoFlag(argv[i + 1]);
        assert argv'[i + 2..] == argv[i + 2..];
        assert ScanPath(argv, i, pwd, path, op) == ScanPath(argv', i + 1, pwd, path, op');
        assert ScanPath(argv', i + 1, pwd, path, op') == ScanPath(argv', i + 2, pwd, path, op');
        ScanPathPairs(argv', i + 2, ps[1..], pwd, path, op');
      } else if ps[0].flag == Pwd {
        var pwd' := Some(argv[i + 1]);
        assert ScanPath(argv, i, pwd, path, op) == ScanPath(argv, i + 1, pwd', path, op);
        assert ScanPath(argv, i + 1, pwd', path, op) == ScanPath(argv, i + 2, pwd', path, op);
        ScanPathPairs(argv, i + 2, ps[1..], pwd', path, op);
      } else if ps[0].value != "(null)" {
        var path' := CopyOver(path, argv[i + 1]);
        assert ScanPath(argv, i, pwd, path, op) == ScanPath(argv, i + 1, pwd, path', op);
        assert ScanPath(argv, i + 1, pwd, path', op) == ScanPath(argv, i + 2, pwd, path', op);
        ScanPathPairs(argv, i + 2, ps[1..], pwd, path', op);
      }
    }
  }

  lemma FoldPathStep(ps: seq<Pair>, pwd: Option<string>, path: string, op: int)
    requires ps != [] && (ps[0].flag == Pth ==> ps[0].value != "(null)")
    ensures FoldPath(ps, pwd, path, op) ==
            FoldPath(ps[1..],
                     if ps[0].flag == Pwd then Some(ps[0].value) else pwd,
                     if ps[0].flag == Pth then CopyOver(path, ps[0].value) else path,
                     if ps[0].flag == Opt then ParseOpt(ps[0].value) else op)
  {
  }

  lemma FoldThree(ps: seq<Pair>, a: nat, b: nat, c: nat)
    requires |ps| == 3 && a < 3 && b < 3 && c < 3
    requires ps[a].flag == Pwd && ps[b].flag == Pth && ps[c].flag == Opt && ps[b].value != "(null)"
    ensures FoldPath(ps, None, "", -1) == Scanned(Some(ps[a].value), Some(ps[b].value), ParseOpt(ps[c].value))
  {
    var pwd, path, op := Some(ps[a].value), ps[b].value, ParseOpt(ps[c].value);
    assert CopyOver("", path) == path;
    FoldPathStep(ps, None, "", -1);
    FoldPathStep(ps[1..], if a == 0 then pwd else None, if b == 0 then path else "", if c == 0 then op else -1);
    assert ps[1..][1..] == ps[2..];
    FoldPathStep(ps[2..], if a == 2 then None else pwd, if b == 2 then "" else path, if c == 2 then -1 else op);
    assert ps[2..][1..] == [];
  }

  /** The three pairs of a list change in any of their six orders. */
  lemma PathFlagsAnyOrder(cmd: string, ps: seq<Pair>, a: nat, b: nat, c: nat)
    requires |ps| == 3 && a < 3 && b < 3 && c < 3 && PathPairs(ps)
    requires ps[a].flag == Pwd && ps[b].flag == Pth && ps[c].flag == Opt
    requires ps[a].value != "(null)" && ps[b].value != "(null)"
    ensures PathArgs([cmd] + Flat(ps)) == Invoke(PathRequest(ps[a].value, ps[b].value, ParseOpt(ps[c].value)))
  {
    FoldThree(ps, a, b, c);
    FlatLength(ps);
    var argv := [cmd] + Flat(ps);
    assert argv[1..] == Flat(ps);
    ScanPathPairs(argv, 1, ps, None, "", -1);
  }

  lemma {:induction false} FlatLength(ps: seq<Pair>)
    ensures |Flat(ps)| == 2 * |ps|
    decreases |ps|
  {
    if ps != [] { FlatLength(ps[1..]); }
  }
}
