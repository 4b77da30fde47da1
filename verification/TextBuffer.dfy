/** The kernel side of the text protocol as it runs: one character buffer that
    is cut at spaces and bars and upper-cased in place, and an array of pointers
    into it, proved to read what TextProtocol says. */
module TextBuffer {
  import opened CString
  import opened Tokens
  import opened TextProtocol

  // ------------------------------------------------------- where pieces lie

  /** Start of piece `k` in the text the pieces were cut from. */
  function Offset(pieces: seq<string>, k: nat): nat
    requires k <= |pieces|
  {
    if k == 0 then 0 else Offset(pieces, k - 1) + |pieces[k - 1]| + 1
  }

  lemma {:induction false} OffsetPrefix(a: seq<string>, b: seq<string>, k: nat)
    requires k <= |a| && k <= |b| && forall i :: 0 <= i < k ==> a[i] == b[i]
    ensures Offset(a, k) == Offset(b, k)
  {
    if k > 0 { OffsetPrefix(a, b, k - 1); }
  }

  lemma {:induction false} OffsetGrows(p: seq<string>, k: nat, l: nat)
    requires k < l <= |p|
    ensures Offset(p, k) + |p[k]| < Offset(p, l)
    decreases l
  {
    if k < l - 1 { OffsetGrows(p, k, l - 1); }
  }

  lemma {:induction false} JoinLength(parts: seq<string>, c: char)
    requires |parts| >= 1
    ensures |Join(parts, c)| + 1 == Offset(parts, |parts|)
    decreases |parts|
  {
    var n := |parts|;
    if n > 1 {
      JoinLength(parts[..n - 1], c);
      OffsetPrefix(parts[..n - 1], parts, n - 1);
    }
  }

  lemma OffsetTotal(s: string, c: char)
    ensures Offset(Split(s, c), |Split(s, c)|) == |s| + 1
  {
    JoinSplit(s, c);
    JoinLength(Split(s, c), c);
  }

  /** A string between two others. */
  lemma Middle(a: string, b: string, c: string)
    ensures (a + b + c)[|a|..|a| + |b|] == b
  {
  }

  /** `p` lies at `o` in `s` and is followed by the separator or by nothing. */
  ghost predicate LiesAt(s: string, c: char, o: nat, p: string) {
    o + |p| <= |s| && s[o..o + |p|] == p && (o + |p| < |s| ==> s[o + |p|] == c)
  }

  lemma {:induction false} JoinPieceAt(parts: seq<string>, c: char, k: nat)
    requires k < |parts|
    ensures LiesAt(Join(parts, c), c, Offset(parts, k), parts[k])
    decreases |parts|
  {
    var n := |parts|;
    if n > 1 {
      var front, last := parts[..n - 1], parts[n - 1];
      var j := Join(front, c);
      assert Join(parts, c) == j + [c] + last;
      JoinLength(front, c);
      OffsetPrefix(front, parts, n - 1);
      if k == n - 1 {
        Middle(j + [c], last, "");
        assert j + [c] + last + "" == j + [c] + last;
      } else {
        JoinPieceAt(front, c, k);
        OffsetPrefix(front, parts, k);
        var o := Offset(front, k);
        assert (j + [c] + last)[o..o + |front[k]|] == j[o..o + |front[k]|];
      }
    }
  }

  lemma PieceAt(s: string, c: char, k: nat)
    requires k < |Split(s, c)|
    ensures LiesAt(s, c, Offset(Split(s, c), k), Split(s, c)[k])
  {
    JoinSplit(s, c);
    JoinPieceAt(Split(s, c), c, k);
  }

  // ---------------------------------------------------------- cutting in place

  /** `b'` is `b` with every separator in one stretch replaced by NUL. */
  ghost predicate IsCut(b: seq<char>, b': seq<char>, from: nat, len: nat, sep: char) {
    && from + len < |b| == |b'|
    && forall i :: 0 <= i < |b| ==> b'[i] == if from <= i < from + len && b[i] == sep then NUL else b[i]
  }

  ghost function Starts(pieces: seq<string>, from: nat): seq<int> {
    seq(|pieces|, k requires 0 <= k < |pieces| => from + Offset(pieces, k))
  }

  /** The pointers lead to the starts of the pieces and end with a null one. */
  ghost predicate PointsTo(argv: seq<int>, from: nat, pieces: seq<string>) {
    |pieces| < |argv| && argv[|pieces|] == -1 && argv[..|pieces|] == Starts(pieces, from)
  }

  lemma PointsAt(argv: seq<int>, from: nat, pieces: seq<string>, k: nat)
    requires PointsTo(argv, from, pieces) && k < |pieces|
    ensures argv[k] == from + Offset(pieces, k)
  {
    assert argv[k] == argv[..|pieces|][k];
  }

  /** Overwrites every separator in a stretch of the buffer with NUL and notes
      where each piece starts; a null pointer ends the list. */
  method CutAt(buf: array<char>, from: nat, len: nat, sep: char, argv: array<int>) returns (n: nat)
    requires from + len < buf.Length
    requires |Split(buf[from..from + len], sep)| < argv.Length
    modifies buf, argv
    ensures PointsTo(argv[..], from, Split(old(buf[from..from + len]), sep))
    ensures n == |Split(old(buf[from..from + len]), sep)|
    ensures IsCut(old(buf[..]), buf[..], from, len, sep)
  {
    ghost var b, s := buf[..], buf[from..from + len];
    MarksAreStarts(s, sep, from);
    argv[0] := from;
    n := 1;
    assert s[..0] == [];
    MarksGrow(s, sep, 0, from);
    for i := 0 to len
      invariant n == |Marks(s[..i], sep, from)| <= |Marks(s, sep, from)| < argv.Length
      invariant argv[..n] == Marks(s[..i], sep, from)
      invariant IsCut(b, buf[..], from, i, sep)
    {
      n := CutNext(buf, argv, from, i, n, sep, b, s);
    }
    assert s[..len] == s;
    argv[n] := -1;
  }

  /** Cuts one character further. */
  method CutNext(buf: array<char>, argv: array<int>, from: nat, i: nat, n: nat, sep: char,
                 ghost b: seq<char>, ghost s: string)
    returns (n': nat)
    requires i < |s| && from + |s| < |b| && s == b[from..from + |s|] && IsCut(b, buf[..], from, i, sep)
    requires n == |Marks(s[..i], sep, from)| && |Marks(s, sep, from)| < argv.Length
    requires n <= argv.Length && argv[..n] == Marks(s[..i], sep, from)
    modifies buf, argv
    ensures n' == |Marks(s[..i + 1], sep, from)| <= |Marks(s, sep, from)|
    ensures argv[..n'] == Marks(s[..i + 1], sep, from)
    ensures IsCut(b, buf[..], from, i + 1, sep)
  {
    MarksStep(s, sep, i, from);
    CutMore(b, buf[..], from, i, sep);
    assert buf[from + i] == b[from + i] == s[i];
    n' := CutOne(buf, argv, from + i, n, sep);
  }

  /** Looks at one character; a separator is overwritten and its successor noted. */
  method CutOne(buf: array<char>, argv: array<int>, x: nat, n: nat, sep: char) returns (n': nat)
    requires x < buf.Length && n <= argv.Length && (buf[x] == sep ==> n < argv.Length)
    modifies buf, argv
    ensures n' == if old(buf[x]) == sep then n + 1 else n
    ensures n' <= argv.Length && argv[..n'] == old(argv[..n]) + if old(buf[x]) == sep then [x + 1] else []
    ensures buf[..] == if old(buf[x]) == sep then old(buf[..])[x := NUL] else old(buf[..])
  {
    n' := n;
    if buf[x] == sep {
      buf[x] := NUL;
      argv[n] := x + 1;
      n' := n + 1;
    }
  }

  /** The first character's place and those right behind a separator. */
  ghost function Marks(s: string, sep: char, from: nat): seq<int> {
    if s == [] then [from]
    else
      var m := Marks(s[..|s| - 1], sep, from);
      if s[|s| - 1] == sep then m + [from + |s|] else m
  }

  lemma MarksStep(s: string, sep: char, i: nat, from: nat)
    requires i < |s|
    ensures Marks(s[..i + 1], sep, from) == Marks(s[..i], sep, from) + if s[i] == sep then [from + i + 1] else []
    ensures |Marks(s[..i + 1], sep, from)| <= |Marks(s, sep, from)|
  {
    assert s[..i + 1][..i] == s[..i];
    MarksGrow(s, sep, i + 1, from);
  }

  lemma {:induction false} MarksGrow(s: string, sep: char, i: nat, from: nat)
    requires i <= |s|
    ensures |Marks(s[..i], sep, from)| <= |Marks(s, sep, from)|
    decreases |s|
  {
    if i < |s| {
      assert s[..|s| - 1][..i] == s[..i];
      MarksGrow(s[..|s| - 1], sep, i, from);
    } else {
      assert s[..i] == s;
    }
  }

  /** The marks are where the pieces start. */
  lemma {:induction false} MarksAreStarts(s: string, sep: char, from: nat)
    ensures Marks(s, sep, from) == Starts(Split(s, sep), from)
    decreases |s|
  {
    if s != [] {
      var s', x := s[..|s| - 1], s[|s| - 1];
      MarksAreStarts(s', sep, from);
      if x == sep {
        OffsetTotal(s', sep);
        MoreStarts(Split(s', sep), [], from);
      } else {
        ExtendStarts(Split(s', sep), [x], from);
      }
    }
  }

  lemma {:induction false} ExtendStarts(a: seq<string>, t: string, from: nat)
    requires |a| >= 1
    ensures Starts(Extend(a, t), from) == Starts(a, from)
  {
    var b := Extend(a, t);
    var x, y := Starts(b, from), Starts(a, from);
    forall k: nat | k < |b| ensures x[k] == y[k] { OffsetPrefix(a, b, k); }
  }

  lemma {:induction false} MoreStarts(a: seq<string>, last: string, from: nat)
    ensures Starts(a + [last], from) == Starts(a, from) + [from + Offset(a, |a|)]
  {
    var b := a + [last];
    var x, y := Starts(b, from), Starts(a, from) + [from + Offset(a, |a|)];
    forall k: nat | k < |b| ensures x[k] == y[k] { OffsetPrefix(a, b, k); }
  }

  /** Cutting one character further. */
  lemma CutMore(b: seq<char>, c: seq<char>, from: nat, i: nat, sep: char)
    requires IsCut(b, c, from, i, sep) && from + i + 1 < |b|
    ensures c[from + i] == b[from + i]
    ensures IsCut(b, if c[from + i] == sep then c[from + i := NUL] else c, from, i + 1, sep)
  {
  }

  /** After the cut, the C string at a noted start is the piece up to its own
      first NUL. */
  lemma CutString(b: seq<char>, b': seq<char>, from: nat, len: nat, sep: char, k: nat)
    requires IsCut(b, b', from, len, sep) && b[from + len] == NUL && sep != NUL
    requires k < |Split(b[from..from + len], sep)|
    ensures var pieces := Split(b[from..from + len], sep);
            var start := from + Offset(pieces, k);
            && start + |pieces[k]| <= from + len && b'[start + |pieces[k]|] == NUL
            && StrAt(b', start) == Str(pieces[k])
  {
    var s := b[from..from + len];
    var pieces := Split(s, sep);
    PieceAt(s, sep, k);
    SplitPieces(s, sep);
    CutPiece(b, b', from, len, sep, Offset(pieces, k), pieces[k]);
  }

  lemma CutPiece(b: seq<char>, b': seq<char>, from: nat, len: nat, sep: char, o: nat, p: string)
    requires IsCut(b, b', from, len, sep) && b[from + len] == NUL && sep != NUL
    requires LiesAt(b[from..from + len], sep, o, p) && sep !in p
    ensures from + o + |p| <= from + len && b'[from + o + |p|] == NUL
    ensures StrAt(b', from + o) == Str(p)
  {
    PieceChars(b, from, len, sep, o, p);
    var start := from + o;
    var t := b'[start..];
    forall i | 0 <= i < |p| ensures t[i] == p[i] {
      assert p[i] in p;
      assert t[i] == b'[start + i] == b[start + i];
    }
    assert t[|p|] == b'[start + |p|];
    StrPrefix(t, p);
  }

  lemma PieceChars(b: seq<char>, from: nat, len: nat, sep: char, o: nat, p: string)
    requires from + len < |b| && LiesAt(b[from..from + len], sep, o, p)
    ensures o + |p| <= len && (o + |p| < len ==> b[from + o + |p|] == sep)
    ensures forall i :: 0 <= i < |p| ==> b[from + o + i] == p[i]
  {
    var s := b[from..from + len];
    var q := s[o..o + |p|];
    forall i | 0 <= i < |p| ensures b[from + o + i] == p[i] {
      assert q[i] == s[o + i];
    }
  }

  /** The C string in a buffer that starts with `p` and a NUL is that in `p`. */
  lemma StrPrefix(t: seq<char>, p: string)
    requires |p| < |t| && t[|p|] == NUL && forall i :: 0 <= i < |p| ==> t[i] == p[i]
    ensures Str(t) == Str(p)
  {
    var n := StrLen(p);
    StrLenIs(t, n);
    assert t[..n] == p[..n];
  }

  // ------------------------------------------------------------------ options

  /** Upper-cases and cuts an option argument in place and ORs its options. */
  method ParseOptAt(buf: array<char>, p: nat) returns (op: int)
    requires p <= buf.Length && p + StrLen(buf[p..]) < buf.Length
    requires |OptionTokens(StrAt(buf[..], p))| < 9
    modifies buf
    ensures op == ParseOpt(StrAt(old(buf[..]), p))
    ensures StrAt(buf[..], p) == OptionTokens(StrAt(old(buf[..]), p))[0]
    ensures forall i :: 0 <= i < buf.Length && !(p <= i < p + StrLen(old(buf[p..]))) ==> buf[i] == old(buf[i])
  {
    ghost var s := StrAt(buf[..], p);
    assert buf[..][p..] == buf[p..];
    var len := StrLenFrom(buf, p);
    assert buf[p..p + len] == s && buf[p + len] == NUL;
    UpperAt(buf, p, len);
    TokensClean(s);
    var ret := OrOptions(buf, p, len);
    op := ret as int;
  }

  /** Cuts upper-case text at its bars and ORs the options in it. */
  method OrOptions(buf: array<char>, p: nat, len: nat) returns (ret: bv8)
    requires p + len < buf.Length && buf[p + len] == NUL
    requires |Split(buf[p..p + len], '|')| < 9
    requires Clean(Split(buf[p..p + len], '|'))
    modifies buf
    ensures ret == OrAll(Split(old(buf[p..p + len]), '|'))
    ensures StrAt(buf[..], p) == Split(old(buf[p..p + len]), '|')[0]
    ensures IsCut(old(buf[..]), buf[..], p, len, '|')
  {
    ghost var tokens := Split(buf[p..p + len], '|');
    var argv := new int[9];
    var n := CutWords(buf, p, len, '|', argv);
    assert Reads(buf[..], argv[0], tokens[0]);
    ret := OrWords(buf, argv, n, tokens);
  }

  /** Cuts text without NULs in place; the pointers then lead to its pieces. */
  method CutWords(buf: array<char>, p: nat, len: nat, sep: char, argv: array<int>) returns (n: nat)
    requires p + len < buf.Length && buf[p + len] == NUL && sep != NUL
    requires |Split(buf[p..p + len], sep)| < argv.Length && Clean(Split(buf[p..p + len], sep))
    modifies buf, argv
    ensures n == |Split(old(buf[p..p + len]), sep)| && argv[0] == p
    ensures var ws := Split(old(buf[p..p + len]), sep); forall k :: 0 <= k < n ==> Reads(buf[..], argv[k], ws[k])
    ensures IsCut(old(buf[..]), buf[..], p, len, sep)
  {
    ghost var u := buf[..];
    assert u[p..p + len] == buf[p..p + len];
    n := CutAt(buf, p, len, sep, argv);
    CutReads(u, buf[..], argv[..], p, len, sep);
    PointsAt(argv[..], p, Split(u[p..p + len], sep), 0);
  }

  ghost predicate Reads(b: seq<char>, p: int, word: string) {
    0 <= p <= |b| && StrAt(b, p) == word
  }

  /** After a cut the pointers lead to the pieces. */
  lemma CutReads(u: seq<char>, c: seq<char>, argv: seq<int>, p: nat, len: nat, sep: char)
    requires IsCut(u, c, p, len, sep) && u[p + len] == NUL && sep != NUL
    requires PointsTo(argv, p, Split(u[p..p + len], sep)) && Clean(Split(u[p..p + len], sep))
    ensures var ws := Split(u[p..p + len], sep); forall k :: 0 <= k < |ws| ==> Reads(c, argv[k], ws[k])
  {
    var ws := Split(u[p..p + len], sep);
    forall k | 0 <= k < |ws| ensures Reads(c, argv[k], ws[k]) {
      PointsAt(argv, p, ws, k);
      CutString(u, c, p, len, sep, k);
      StrWhole(ws[k]);
    }
  }

  /** ORs the option bits of the words that `argv` points to. */
  method OrWords(buf: array<char>, argv: array<int>, n: nat, ghost words: seq<string>) returns (ret: bv8)
    requires n == |words| < argv.Length && forall k :: 0 <= k < n ==> Reads(buf[..], argv[k], words[k])
    ensures ret == OrAll(words)
  {
    ret := 0;
    for i := 0 to n
      invariant ret == OrAll(words[..i])
    {
      assert Reads(buf[..], argv[i], words[i]);
      var t := ReadAt(buf, argv[i]);
      OrOneMore(words, i);
      ret := ret | TokenBit(t);
    }
    assert words[..n] == words;
  }

  lemma OrOneMore(ts: seq<string>, i: nat)
    requires i < |ts|
    ensures OrAll(ts[..i + 1]) == OrAll(ts[..i]) | TokenBit(ts[i])
  {
    assert ts[..i + 1][..i] == ts[..i];
  }

  method UpperAt(buf: array<char>, p: nat, len: nat)
    requires p + len <= buf.Length
    modifies buf
    ensures buf[p..p + len] == Upper(old(buf[p..p + len]))
    ensures forall i :: 0 <= i < buf.Length && !(p <= i < p + len) ==> buf[i] == old(buf[i])
  {
    for i := 0 to len
      invariant forall j :: 0 <= j < buf.Length ==>
        buf[j] == if p <= j < p + i then UpperChar(old(buf[j])) else old(buf[j])
    {
      buf[p + i] := UpperChar(buf[p + i]);
    }
  }

  lemma StrWhole(s: string)
    requires NUL !in s
    ensures Str(s) == s
  {
    StrLenIs(s, |s|);
  }

  ghost predicate Clean(ts: seq<string>) {
    forall k :: 0 <= k < |ts| ==> NUL !in ts[k]
  }

  lemma TokensClean(s: string)
    requires NUL !in s
    ensures Clean(OptionTokens(s))
  {
    forall k | 0 <= k < |OptionTokens(s)| ensures NUL !in OptionTokens(s)[k] {
      PiecesFromWhole(Upper(s), '|', k);
      assert forall i :: 0 <= i < |s| ==> UpperChar(s[i]) != NUL;
    }
  }

  // ----------------------------------------------------------------- arguments

  /** The pointer array and the buffer spell `words`: each pointer leads to its
      word, the words' slots do not overlap, and a null pointer ends the list. */
  ghost predicate Spells(b: seq<char>, argv: seq<int>, ends: seq<nat>, words: seq<string>) {
    && |ends| == |words| < |argv| && argv[|words|] == -1
    && (forall k :: 0 <= k < |words| ==> SpellsAt(b, argv[k], ends[k], words[k]))
    && (forall k, l :: 0 <= k < l < |words| ==> ends[k] < argv[l])
  }

  /** A word within its slot, which a NUL closes at `end`. */
  ghost predicate SpellsAt(b: seq<char>, p: int, end: nat, word: string) {
    0 <= p <= end < |b| && b[end] == NUL && StrAt(b, p) == word
  }

  /** Changes outside a slot do not change its word. */
  lemma SlotFrame(b: seq<char>, b': seq<char>, p: nat, end: nat, word: string)
    requires SpellsAt(b, p, end, word) && |b'| == |b|
    requires forall i :: p <= i <= end ==> b'[i] == b[i]
    ensures SpellsAt(b', p, end, word)
  {
    var t, t' := b[p..], b'[p..];
    var n := StrLen(t);
    assert t[end - p] == NUL;
    assert n <= end - p;
    assert forall i :: 0 <= i <= n ==> t'[i] == t[i];
    StrLenIs(t', n);
    assert t'[..n] == t[..n];
  }

  lemma SlotLength(b: seq<char>, p: nat, end: nat, word: string)
    requires SpellsAt(b, p, end, word)
    ensures p + StrLen(b[p..]) <= end
  {
    assert b[p..][end - p] == NUL;
  }

  /** Reading the option in slot `k` changes that word alone. */
  method ParseOptWord(buf: array<char>, argv: array<int>, k: nat, ghost ends: seq<nat>, ghost words: seq<string>)
    returns (op: int)
    requires Spells(buf[..], argv[..], ends, words) && k < |words| && |OptionTokens(words[k])| < 9
    modifies buf
    ensures op == ParseOpt(words[k])
    ensures Spells(buf[..], argv[..], ends, words[k := OptionTokens(words[k])[0]])
  {
    ghost var b := buf[..];
    assert SpellsAt(b, argv[k], ends[k], words[k]);
    SlotLength(b, argv[k], ends[k], words[k]);
    assert b[argv[k]..] == buf[argv[k]..];
    op := ParseOptAt(buf, argv[k]);
    ghost var words' := words[k := OptionTokens(words[k])[0]];
    forall l | 0 <= l < |words| ensures SpellsAt(buf[..], argv[l], ends[l], words'[l]) {
      assert SpellsAt(b, argv[l], ends[l], words[l]);
      if l < k {
        assert ends[l] < argv[k];
        SlotFrame(b, buf[..], argv[l], ends[l], words[l]);
      } else if l > k {
        assert ends[k] < argv[l];
        SlotFrame(b, buf[..], argv[l], ends[l], words[l]);
      }
    }
  }
}
