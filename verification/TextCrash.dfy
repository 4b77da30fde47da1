/** Which lines make the kernel read through a null pointer: an option flag takes
    the next word as its value without asking whether there is one. */
module TextCrash {
  import opened KernelTypes
  import opened TextProtocol
  import TextOrder
  import TextRoundTrip
  import Tokens

  /** Word `i` acts as an option flag: it begins like one and is not itself the
      value of the flag before it. Word 0 is the command. */
  predicate Live(words: seq<string>, i: nat)
    requires i < |words|
  {
    i >= 1 && "-opt" <= words[i] && !Live(words, i - 1)
  }

  /** Word `i` is the value of an option flag. */
  predicate IsOption(words: seq<string>, i: nat)
    requires i < |words|
  {
    i >= 1 && Live(words, i - 1)
  }

  /** Word `i` acts as a path flag. */
  predicate IsPathFlag(words: seq<string>, i: nat)
    requires i < |words|
  {
    i >= 1 && "-pth" <= words[i] && !IsOption(words, i)
  }

  /** A path flag without a value, or with the text of a null pointer. */
  predicate Refuses(words: seq<string>, i: nat)
    requires i < |words|
  {
    IsPathFlag(words, i) && (i + 1 == |words| || words[i + 1] == "(null)")
  }

  /** No path flag before word `i` ends the call. */
  predicate Reached(words: seq<string>, i: nat)
    requires i <= |words|
  {
    forall j :: 0 <= j < i ==> !Refuses(words, j)
  }

  predicate StateCrashes(words: seq<string>) {
    |words| == 5 && Live(words, 4)
  }

  predicate PathCrashes(words: seq<string>) {
    |words| == 7 && Live(words, 6) && Reached(words, 6)
  }

  predicate LineCrashes(text: string) {
    var words := Words(text);
    && |text| < PATH_MAX + NAME_MAX + 1
    && ((CommandIndex(words[0]) == 0 && StateCrashes(words)) || (CommandIndex(words[0]) == 1 && PathCrashes(words)))
  }

  // ------------------------------------------------------ one step of the scans

  function OpAfter(cur: seq<string>, i: nat, op: int): int
    requires i < |cur|
  {
    if IsFlag(cur[i], "-opt") && i + 1 < |cur| then ParseOpt(cur[i + 1]) else op
  }

  function WordsAfter(cur: seq<string>, i: nat): seq<string>
    requires i < |cur|
  {
    if IsFlag(cur[i], "-opt") && i + 1 < |cur| then AfterOption(cur, i) else cur
  }

  lemma ScanStateStep(cur: seq<string>, i: nat, seen: Option<string>, op: int)
    requires i < |cur| && !(IsFlag(cur[i], "-opt") && i + 1 == |cur|)
    ensures ScanState(cur, i, seen, op) ==
            ScanState(WordsAfter(cur, i), i + 1, if IsFlag(cur[i], "-pwd") then NextArg(cur, i) else seen,
                      OpAfter(cur, i, op))
  {
  }

  predicate PathRefused(cur: seq<string>, i: nat)
    requires i < |cur|
  {
    IsFlag(cur[i], "-pth") && (NextArg(cur, i).None? || NextArg(cur, i).value == "(null)")
  }

  function PathAfter(cur: seq<string>, i: nat, path: string): string
    requires i < |cur| && !PathRefused(cur, i)
  {
    if IsFlag(cur[i], "-pth") then CopyOver(path, NextArg(cur, i).value) else path
  }

  lemma ScanPathStep(cur: seq<string>, i: nat, seen: Option<string>, path: string, op: int)
    requires i < |cur| && !PathRefused(cur, i) && !(IsFlag(cur[i], "-opt") && i + 1 == |cur|)
    ensures ScanPath(cur, i, seen, path, op) ==
            ScanPath(WordsAfter(cur, i), i + 1, if IsFlag(cur[i], "-pwd") then NextArg(cur, i) else seen,
                     PathAfter(cur, i, path), OpAfter(cur, i, op))
  {
  }

  // ---------------------------------------------------------- words as scanned

  /** The word as the scan meets it: an option's value has been rewritten. */
  function Met(words: seq<string>, i: nat): string
    requires i < |words|
  {
    if IsOption(words, i) then OptionTokens(words[i])[0] else words[i]
  }

  lemma MetFlags(words: seq<string>, i: nat)
    requires 1 <= i < |words|
    ensures IsFlag(Met(words, i), "-opt") <==> Live(words, i)
    ensures IsFlag(Met(words, i), "-pth") <==> IsPathFlag(words, i)
  {
    ReadOptionIsNoFlag(words[i]);
  }

  /** The scan stands at word `i`; everything behind it is still as it came. */
  ghost predicate StandsAt(words: seq<string>, cur: seq<string>, i: nat) {
    && 1 <= i <= |cur| == |words|
    && (i < |cur| ==> cur[i] == Met(words, i))
    && (forall k :: i < k < |cur| ==> cur[k] == words[k])
  }

  lemma StandsAtStart(words: seq<string>)
    requires |words| >= 1
    ensures StandsAt(words, words, 1)
  {
  }

  lemma StandsAtNext(words: seq<string>, cur: seq<string>, i: nat)
    requires StandsAt(words, cur, i) && i < |cur| && !(Live(words, i) && i + 1 == |cur|)
    ensures StandsAt(words, WordsAfter(cur, i), i + 1)
  {
    MetFlags(words, i);
  }

  // --------------------------------------------------------------- exactly when

  lemma {:induction false} StateScanCrashes(words: seq<string>, cur: seq<string>, i: nat, pwd: Option<string>, op: int)
    requires StandsAt(words, cur, i) && i < |words|
    ensures ScanState(cur, i, pwd, op).Crashed? <==> Live(words, |words| - 1)
    ensures !ScanState(cur, i, pwd, op).Refused?
    decreases |words| - i
  {
    MetFlags(words, i);
    if !(Live(words, i) && i + 1 == |words|) {
      var pwd' := if IsFlag(cur[i], "-pwd") then NextArg(cur, i) else pwd;
      ScanStateStep(cur, i, pwd, op);
      StandsAtNext(words, cur, i);
      if i + 1 < |words| { StateScanCrashes(words, WordsAfter(cur, i), i + 1, pwd', OpAfter(cur, i, op)); }
    }
  }

  ghost predicate ReachedFrom(words: seq<string>, i: nat) {
    forall j :: i <= j < |words| ==> !Refuses(words, j)
  }

  /** The step that refuses is the one at a path flag that refuses. */
  lemma RefusedIff(words: seq<string>, cur: seq<string>, i: nat)
    requires StandsAt(words, cur, i) && i < |words|
    ensures PathRefused(cur, i) <==> Refuses(words, i)
  {
    MetFlags(words, i);
  }

  lemma {:induction false} PathScanCrashes(
      words: seq<string>, cur: seq<string>, i: nat, pwd: Option<string>, path: string, op: int)
    requires StandsAt(words, cur, i) && i < |words|
    ensures ScanPath(cur, i, pwd, path, op).Crashed? <==> Live(words, |words| - 1) && ReachedFrom(words, i)
    decreases |words| - i
  {
    MetFlags(words, i);
    RefusedIff(words, cur, i);
    NoTwoFlags(cur[i]);
    if !PathRefused(cur, i) && !(Live(words, i) && i + 1 == |words|) {
      var pwd' := if IsFlag(cur[i], "-pwd") then NextArg(cur, i) else pwd;
      ScanPathStep(cur, i, pwd, path, op);
      StandsAtNext(words, cur, i);
      if i + 1 < |words| {
        PathScanCrashes(words, WordsAfter(cur, i), i + 1, pwd', PathAfter(cur, i, path), OpAfter(cur, i, op));
        assert ReachedFrom(words, i) <==> ReachedFrom(words, i + 1);
      }
    }
  }

  lemma StateCrashIff(words: seq<string>)
    ensures StateArgs(words).Oops? <==> StateCrashes(words)
  {
    if |words| == 5 {
      StandsAtStart(words);
      StateScanCrashes(words, words, 1, None, -1);
    }
  }

  lemma PathCrashIff(words: seq<string>)
    ensures PathArgs(words).Oops? <==> PathCrashes(words)
  {
    if |words| == 7 {
      StandsAtStart(words);
      PathScanCrashes(words, words, 1, None, "", -1);
      NoTwoFlags(words[6]);
      assert Live(words, 6) ==> (ReachedFrom(words, 1) <==> Reached(words, 6));
    }
  }

  lemma NoTwoFlags(t: string)
    ensures !("-opt" <= t && "-pth" <= t)
  {
    assert "-opt"[1] == 'o' && "-pth"[1] == 'p';
  }

  lemma {:induction false} PasswordScans(argv: seq<string>, i: nat, o: Option<string>, n: Option<string>)
    requires i <= |argv|
    ensures ScanPassword(argv, i, o, n).Scanned?
    decreases |argv| - i
  {
    if i < |argv| {
      PasswordScans(argv, i + 1, if IsFlag(argv[i], "-old") then NextArg(argv, i) else o,
                    if IsFlag(argv[i], "-new") then NextArg(argv, i) else n);
    }
  }

  /** A line crashes the kernel if and only if it is a state or path command with
      the right number of words whose last word acts as an option flag, and no
      path flag before it ends the call. */
  lemma CrashIff(text: string)
    ensures Parse(text).Oops? <==> LineCrashes(text)
  {
    var words := Words(text);
    StateCrashIff(words);
    PathCrashIff(words);
    if |words| == 5 { PasswordScans(words, 1, None, None); }
  }

  /** A line that crashes. */
  lemma CrashingLine()
    ensures Parse("cngst -pwd x y -opt").Oops?
  {
    var words := ["cngst", "-pwd", "x", "y", "-opt"];
    TextRoundTrip.JoinFive(words[0], words[1], words[2], words[3], words[4]);
    TextRoundTrip.CommandWords();
    TextRoundTrip.WordsOfJoin(words);
    assert "cngst -pwd x y -opt" == "cngst" + " " + "-pwd" + " " + "x" + " " + "y" + " " + "-opt";
    assert "y"[0] == 'y';
    CrashIff("cngst -pwd x y -opt");
  }

  /** A line that ends in an option flag and does not crash: the flag before it
      takes it as its value, which names no state. */
  lemma FlagAsValueLine()
    ensures Parse("cngst -pwd x -opt -opt") == Invoke(StateRequest("x", 0))
  {
    var words := ["cngst", "-pwd", "x", "-opt", "-opt"];
    TextRoundTrip.JoinFive(words[0], words[1], words[2], words[3], words[4]);
    TextRoundTrip.CommandWords();
    TextRoundTrip.WordsOfJoin(words);
    assert "cngst -pwd x -opt -opt" == "cngst" + " " + "-pwd" + " " + "x" + " " + "-opt" + " " + "-opt";
    assert "x"[0] == 'x' && "-pwd"[0] == '-' && "-opt"[0] == '-';
    TextOrder.StateFlagsAnyOrder("cngst", "x", "-opt");
    FlagIsNoOption();
  }

  lemma FlagTokens()
    ensures OptionTokens("-opt") == ["-OPT"]
  {
    assert Upper("-opt") == "-OPT";
    Tokens.SplitWhole("-OPT", '|');
  }

  lemma FlagBit()
    ensures TokenBit("-OPT") == 0
  {
    assert "-OPT"[0] == '-';
    assert "ON"[0] == 'O' && "OFF"[0] == 'O' && "RON"[0] == 'R' && "ROF"[0] == 'R';
    assert "ADPTH"[0] == 'A' && "RMPTH"[0] == 'R';
  }

  lemma FlagIsNoOption()
    ensures ParseOpt("-opt") == 0
  {
    FlagTokens();
    FlagBit();
    TextRoundTrip.OneOption("-OPT");
  }
}
