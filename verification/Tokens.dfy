/** Cutting text at a separator and putting it together again. */
module Tokens {

  /** The pieces between separators; one more than there are separators. */
  function Split(s: string, c: char): (r: seq<string>)
    ensures |r| >= 1
  {
    if s == [] then [[]]
    else
      var r, x := Split(s[..|s| - 1], c), s[|s| - 1];
      if x == c then r + [[]] else Extend(r, [x])
  }

  /** Text added to the last piece. */
  function Extend(r: seq<string>, t: string): seq<string>
    requires |r| >= 1
  {
    r[..|r| - 1] + [r[|r| - 1] + t]
  }

  function Join(parts: seq<string>, c: char): string
    requires |parts| >= 1
  {
    if |parts| == 1 then parts[0]
    else Join(parts[..|parts| - 1], c) + [c] + parts[|parts| - 1]
  }

  function Count(s: string, c: char): nat {
    if s == [] then 0 else Count(s[..|s| - 1], c) + if s[|s| - 1] == c then 1 else 0
  }

  /** The pieces that are not empty, as strtok returns them. */
  function StrTok(s: string, c: char): seq<string> {
    NonEmpty(Split(s, c))
  }

  function NonEmpty(r: seq<string>): seq<string> {
    if r == [] then [] else (if r[0] == [] then [] else [r[0]]) + NonEmpty(r[1..])
  }

  lemma {:induction false} NonEmptyAll(r: seq<string>)
    requires forall i :: 0 <= i < |r| ==> r[i] != []
    ensures NonEmpty(r) == r
  {
    if r != [] { NonEmptyAll(r[1..]); }
  }

  lemma SplitStep(s: string, x: char, c: char)
    ensures Split(s + [x], c) == if x == c then Split(s, c) + [[]] else Extend(Split(s, c), [x])
  {
    assert (s + [x])[..|s|] == s;
  }

  /** Text without the separator only lengthens the last piece. */
  lemma {:induction false} SplitExtend(s: string, t: string, c: char)
    requires c !in t
    ensures Split(s + t, c) == Extend(Split(s, c), t)
    decreases |t|
  {
    if t == [] {
      assert s + t == s;
      var r := Split(s, c);
      assert r[|r| - 1] + t == r[|r| - 1];
    } else {
      var t', x := t[..|t| - 1], t[|t| - 1];
      assert t == t' + [x];
      assert s + t == (s + t') + [x];
      SplitExtend(s, t', c);
      SplitStep(s + t', x, c);
      var r := Split(s, c);
      assert r[|r| - 1] + t' + [x] == r[|r| - 1] + t;
      assert Extend(Extend(r, t'), [x]) == Extend(r, t);
    }
  }

  lemma ExtendConcat(a: seq<string>, b: seq<string>, t: string)
    requires |b| >= 1
    ensures Extend(a + b, t) == a + Extend(b, t)
  {
  }

  /** Everything after a separator starts a new list of pieces. */
  lemma {:induction false} SplitConcat(s: string, t: string, c: char)
    ensures Split(s + [c] + t, c) == Split(s, c) + Split(t, c)
    decreases |t|
  {
    if t == [] {
      assert s + [c] + t == s + [c];
      SplitStep(s, c, c);
    } else {
      var t', x := t[..|t| - 1], t[|t| - 1];
      assert t == t' + [x];
      assert s + [c] + t == (s + [c] + t') + [x];
      SplitConcat(s, t', c);
      SplitStep(s + [c] + t', x, c);
      SplitStep(t', x, c);
      ExtendConcat(Split(s, c), Split(t', c), [x]);
    }
  }

  lemma SplitWhole(t: string, c: char)
    requires c !in t
    ensures Split(t, c) == [t]
  {
    assert [] + t == t;
    SplitExtend([], t, c);
  }

  /** Splitting undoes joining. */
  lemma {:induction false} SplitJoin(parts: seq<string>, c: char)
    requires |parts| >= 1 && forall i :: 0 <= i < |parts| ==> c !in parts[i]
    ensures Split(Join(parts, c), c) == parts
    decreases |parts|
  {
    var n := |parts|;
    SplitWhole(parts[n - 1], c);
    if n > 1 {
      SplitJoin(parts[..n - 1], c);
      SplitConcat(Join(parts[..n - 1], c), parts[n - 1], c);
    }
  }

  /** Joining undoes splitting. */
  lemma {:induction false} JoinSplit(s: string, c: char)
    ensures Join(Split(s, c), c) == s
    decreases |s|
  {
    if s != [] {
      var s', x := s[..|s| - 1], s[|s| - 1];
      JoinSplit(s', c);
      var r := Split(s', c);
      assert s == s' + [x];
      if x == c {
        assert (r + [[]])[..|r|] == r;
      } else if |r| > 1 {
        assert Extend(r, [x])[..|r| - 1] == r[..|r| - 1];
      }
    }
  }

  lemma {:induction false} SplitPieces(s: string, c: char)
    ensures |Split(s, c)| == Count(s, c) + 1
    ensures forall i :: 0 <= i < |Split(s, c)| ==> c !in Split(s, c)[i]
    decreases |s|
  {
    if s != [] {
      var s', x := s[..|s| - 1], s[|s| - 1];
      SplitPieces(s', c);
      var r, r' := Split(s, c), Split(s', c);
      forall i | 0 <= i < |r| ensures c !in r[i] {
        if i < |r'| - 1 || (x == c && i < |r'|) {
          assert r[i] == r'[i];
        } else if x != c {
          assert r[i] == r'[i] + [x];
        }
      }
    }
  }

  lemma {:induction false} PiecesFromWhole(s: string, c: char, k: nat)
    requires k < |Split(s, c)|
    ensures forall x :: x in Split(s, c)[k] ==> x in s
    decreases |s|
  {
    if s != [] {
      var s', x := s[..|s| - 1], s[|s| - 1];
      var r, r' := Split(s, c), Split(s', c);
      assert s == s' + [x];
      if k < |r'| { PiecesFromWhole(s', c, k); }
      if x != c && k == |r'| - 1 { assert r[k] == r'[k] + [x]; }
      else if k < |r'| { assert r[k] == r'[k]; }
    }
  }

  lemma {:induction false} CountConcat(s: string, t: string, c: char)
    ensures Count(s + t, c) == Count(s, c) + Count(t, c)
    decreases |t|
  {
    if t == [] {
      assert s + t == s;
    } else {
      assert (s + t)[..|s + t| - 1] == s + t[..|t| - 1];
      CountConcat(s, t[..|t| - 1], c);
    }
  }

  lemma {:induction false} CountZero(s: string, c: char)
    ensures Count(s, c) == 0 <==> c !in s
    decreases |s|
  {
    if s != [] {
      CountZero(s[..|s| - 1], c);
      assert s == s[..|s| - 1] + [s[|s| - 1]];
    }
  }
}
