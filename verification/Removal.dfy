/** Removing a protected path: exactly when the invariant survives it, and
    exactly when it removes the path that was asked for. */
module Removal {
  import opened KernelTypes
  import InodeMark
  import opened PathList
  import opened Monitor

  /** The next newer entry with the same inode as entry `k`. */
  ghost predicate IsNextAlias(l: seq<Entry>, k: nat, j: nat)
    requires k < |l|
  {
    j < k && l[j].ino == l[k].ino && forall i :: j < i < k ==> l[i].ino != l[k].ino
  }

  /** If entry `k` is its inode's oldest, the next alias saved the same attributes. */
  ghost predicate OriginalKept(l: seq<Entry>, k: nat)
    requires k < |l|
  {
    IsOldest(l, k) ==> forall j: nat :: IsNextAlias(l, k, j) ==> l[j].saved == l[k].saved
  }

  /** What a caller can read off the list beforehand. Removing the oldest entry
      of an inode needs the next alias, if there is one, to have saved the same
      attributes; removing a newer alias needs that of the oldest, unless the
      hooks are on. */
  ghost predicate RemovalSafe(m: MState, k: nat)
    requires k < |m.list|
  {
    var l := m.list;
    && OriginalKept(l, k)
    && (!HooksOn(m.state) ==>
          forall j: nat :: k < j < |l| && l[j].ino == l[k].ino && IsOldest(l, j) ==> l[j].saved == l[k].saved)
  }

  ghost predicate DistinctInodes(l: seq<Entry>) {
    forall i, j :: 0 <= i < j < |l| ==> l[i].ino != l[j].ino
  }

  /** Without aliases every removal is safe. */
  lemma DistinctIsSafe(m: MState, k: nat)
    requires k < |m.list| && DistinctInodes(m.list)
    ensures RemovalSafe(m, k)
  {
  }

  /** Without aliases every entry holds its inode's own attributes. */
  lemma DistinctSavesBase(env: Env, m: MState, base: map<nat, Attr>, i: nat)
    requires Inv(env, m, base) && DistinctInodes(m.list) && i < |m.list|
    ensures m.list[i].ino in base && m.list[i].saved == base[m.list[i].ino]
  {
    assert EntryOk(env, m.list[i], base);
    assert IsOldest(m.list, i);
  }

  lemma CutIndex<T>(l: seq<T>, k: nat, i: nat)
    requires k < |l| && i < |l| - 1
    ensures Cut(l, k)[i] == if i < k then l[i] else l[i + 1]
  {
  }

  lemma CutHasIno(l: seq<Entry>, k: nat, i: nat)
    requires k < |l| && i < |l| && i != k
    ensures HasIno(Cut(l, k), l[i].ino)
  {
    var c, o := Cut(l, k), if i < k then i else i - 1;
    CutIndex(l, k, o);
    assert c[o].ino == l[i].ino;
  }

  lemma CutKeepsPaths(l: seq<Entry>, k: nat)
    requires k < |l| && UniquePaths(l)
    ensures UniquePaths(Cut(l, k))
  {
    var c := Cut(l, k);
    forall i, j | 0 <= i < j < |c| ensures c[i].path != c[j].path {
      CutIndex(l, k, i);
      CutIndex(l, k, j);
    }
  }

  /** An oldest entry of the shortened list was oldest before, or it is the next
      alias of a removed oldest one. */
  lemma OldestAfterCut(l: seq<Entry>, k: nat, i: nat)
    requires k < |l| && i < |l| - 1 && IsOldest(Cut(l, k), i)
    ensures var o := if i < k then i else i + 1;
            IsOldest(l, o) || (IsOldest(l, k) && IsNextAlias(l, k, o))
  {
    var c, o := Cut(l, k), if i < k then i else i + 1;
    CutIndex(l, k, i);
    forall j | o < j < |l| && j != k ensures l[j].ino != l[o].ino {
      var j' := if j < k then j else j - 1;
      CutIndex(l, k, j');
      assert c[j'].ino != c[i].ino;
    }
    if o < k && l[k].ino == l[o].ino {
      assert IsNextAlias(l, k, o);
    }
  }

  /** A safe removal keeps the invariant. */
  lemma SafeRemovalKeepsInv(env: Env, m: MState, base: map<nat, Attr>, k: nat)
    requires Inv(env, m, base) && k < |m.list| && RemovalSafe(m, k)
    ensures Inv(env, RemoveAt(env, m, k), base)
  {
    var m' := RemoveAt(env, m, k);
    var l, l' := m.list, m'.list;
    assert EntryOk(env, l[k], base);
    CutKeepsPaths(l, k);
    forall i: nat | i < |l'| ensures EntryOk(env, l'[i], base) {
      CutIndex(l, k, i);
      assert EntryOk(env, l[if i < k then i else i + 1], base);
    }
    forall i: nat | i < |l'| && IsOldest(l', i) ensures l'[i].saved == base[l'[i].ino] {
      CutIndex(l, k, i);
      OldestAfterCut(l, k, i);
    }
    forall ino | ino in base ensures InodeOk(m', base, ino) {
      RemovalKeepsInode(env, m, base, k, ino);
    }
  }

  lemma RemovalKeepsInode(env: Env, m: MState, base: map<nat, Attr>, k: nat, ino: nat)
    requires Inv(env, m, base) && k < |m.list| && RemovalSafe(m, k) && ino in base
    requires RemoveAt(env, m, k).attrs.Keys == base.Keys
    ensures InodeOk(RemoveAt(env, m, k), base, ino)
  {
    var l := m.list;
    assert EntryOk(env, l[k], base);
    assert InodeOk(m, base, ino);
    if ino == l[k].ino {
      var o := OldestExists(l, ino);
      if o != k { CutHasIno(l, k, o); }
    } else if HasIno(l, ino) {
      var i: nat :| i < |l| && l[i].ino == ino;
      CutHasIno(l, k, i);
    }
  }

  /** An unsafe removal breaks the invariant: the next alias becomes the oldest
      with wrong attributes, or the inode gets wrong attributes at once. */
  lemma UnsafeOldestBreaks(env: Env, m: MState, base: map<nat, Attr>, k: nat, j: nat)
    requires Inv(env, m, base) && k < |m.list| && IsOldest(m.list, k)
    requires IsNextAlias(m.list, k, j) && m.list[j].saved != m.list[k].saved
    ensures !EntriesOk(env, RemoveAt(env, m, k), base)
  {
    var l' := Cut(m.list, k);
    NextAliasIsOldest(m.list, k, j);
    assert l'[j].saved != base[l'[j].ino];
  }

  lemma UnsafeAliasBreaks(env: Env, m: MState, base: map<nat, Attr>, k: nat, j: nat)
    requires Inv(env, m, base) && k < j < |m.list| && m.list[j].ino == m.list[k].ino
    requires IsOldest(m.list, j) && m.list[j].saved != m.list[k].saved && !HooksOn(m.state)
    ensures !Inv(env, RemoveAt(env, m, k), base)
  {
    assert EntryOk(env, m.list[k], base);
    var m' := RemoveAt(env, m, k);
    assert m'.attrs[m.list[k].ino] == m.list[k].saved;
    assert m'.attrs.Keys == base.Keys ==> !InodeOk(m', base, m.list[k].ino);
  }

  /** The invariant survives a removal if and only if the removal is safe. */
  lemma RemovalKeepsInvIff(env: Env, m: MState, base: map<nat, Attr>, k: nat)
    requires Inv(env, m, base) && k < |m.list|
    ensures Inv(env, RemoveAt(env, m, k), base) <==> RemovalSafe(m, k)
  {
    if RemovalSafe(m, k) {
      SafeRemovalKeepsInv(env, m, base, k);
    } else if IsOldest(m.list, k) {
      var j: nat :| IsNextAlias(m.list, k, j) && m.list[j].saved != m.list[k].saved;
      UnsafeOldestBreaks(env, m, base, k, j);
    } else {
      var j: nat :| k < j < |m.list| && m.list[j].ino == m.list[k].ino && IsOldest(m.list, j)
                    && m.list[j].saved != m.list[k].saved;
      UnsafeAliasBreaks(env, m, base, k, j);
    }
  }

  /** What a removal puts at stake: restoring afterwards brings back every
      inode's own attributes if and only if they are still held by some entry of
      the shortened list, which is so if the removed one was not the oldest of
      its inode or the next alias saved the same. */
  lemma RestoreAfterRemovalIff(env: Env, m: MState, base: map<nat, Attr>, k: nat)
    requires Inv(env, m, base) && k < |m.list|
    ensures var m' := RemoveAt(env, m, k);
            RestoreAll(env, m'.list, m'.attrs) == base <==> OriginalKept(m.list, k)
  {
    var m' := RemoveAt(env, m, k);
    CutResolves(env, m, base, k);
    RestoreGivesOldest(env, m'.list, m'.attrs);
    if OriginalKept(m.list, k) {
      forall ino | ino in base ensures RestoreAll(env, m'.list, m'.attrs)[ino] == base[ino] {
        RestoredAfterCut(env, m, base, k, ino);
      }
    } else {
      var j: nat :| IsNextAlias(m.list, k, j) && m.list[j].saved != m.list[k].saved;
      NextAliasIsOldest(m.list, k, j);
      assert EntryOk(env, m.list[k], base) && EntryOk(env, m.list[j], base);
      assert RestoreAll(env, m'.list, m'.attrs)[m.list[j].ino] == m.list[j].saved;
    }
  }

  lemma CutResolves(env: Env, m: MState, base: map<nat, Attr>, k: nat)
    requires Inv(env, m, base) && k < |m.list|
    ensures var m' := RemoveAt(env, m, k);
            && m'.attrs.Keys == base.Keys && Resolves(env, m'.list)
            && forall i :: 0 <= i < |m'.list| ==> m'.list[i].ino in m'.attrs
  {
    var l' := RemoveAt(env, m, k).list;
    assert EntryOk(env, m.list[k], base);
    forall i: nat | i < |l'| ensures LeadsTo(env, l'[i].path, l'[i].ino) && l'[i].ino in base {
      CutIndex(m.list, k, i);
      assert EntryOk(env, m.list[if i < k then i else i + 1], base);
    }
  }

  /** Without the oldest entry, its next alias is the oldest. */
  lemma NextAliasIsOldest(l: seq<Entry>, k: nat, j: nat)
    requires k < |l| && IsOldest(l, k) && IsNextAlias(l, k, j)
    ensures j < |Cut(l, k)| && Cut(l, k)[j] == l[j] && IsOldest(Cut(l, k), j)
  {
    var c := Cut(l, k);
    CutIndex(l, k, j);
    forall i: nat | j < i < |c| ensures c[i].ino != c[j].ino { CutIndex(l, k, i); }
  }

  lemma RestoredAfterCut(env: Env, m: MState, base: map<nat, Attr>, k: nat, ino: nat)
    requires Inv(env, m, base) && k < |m.list| && OriginalKept(m.list, k) && ino in base
    requires RemoveAt(env, m, k).attrs.Keys == base.Keys && Resolves(env, RemoveAt(env, m, k).list)
    requires forall i :: 0 <= i < |m.list| - 1 ==> RemoveAt(env, m, k).list[i].ino in base
    ensures var m' := RemoveAt(env, m, k);
            ino in RestoreAll(env, m'.list, m'.attrs) && RestoreAll(env, m'.list, m'.attrs)[ino] == base[ino]
  {
    var l, m' := m.list, RemoveAt(env, m, k);
    RestoreGivesOldest(env, m'.list, m'.attrs);
    assert InodeOk(m, base, ino) && EntryOk(env, l[k], base);
    if HasIno(m'.list, ino) {
      var i := OldestExists(m'.list, ino);
      CutIndex(l, k, i);
      OldestAfterCut(l, k, i);
    } else if HasIno(l, ino) {
      var o := OldestExists(l, ino);
      if o != k { CutHasIno(l, k, o); }
    }
  }

  /** Two paths to one inode: protect the first, let a hook mark the inode,
      protect the second, then remove both in the order they were added. The
      list is empty again, but the inode stays marked. */
  lemma AliasRemovalLeavesMark(env: Env, m: MState, a: Target, b: Target) returns (final: MState)
    requires m.list == [] && a.ino == b.ino && a.ino in m.attrs
    requires env.resolve(a.path) == Some(a) && env.resolve(b.path) == Some(b)
    requires !(a.path <= b.path)
    ensures var marked := AddPath(Mark(AddPath(m, a).0, a.ino), b).0;
            final == DelPath(env, DelPath(env, marked, a.path).0, b.path).0
    ensures final.list == [] && final.attrs[a.ino] == InodeMark.MarkAttr(m.attrs[a.ino])
  {
    var m1 := AddPath(m, a).0;
    var ea := Entry(a.path, a.ino, m.attrs[a.ino]);
    assert m1.list == [ea];
    var m2 := Mark(m1, a.ino);
    assert m2.list[0].path != b.path;
    var m3 := AddPath(m2, b).0;
    var eb := Entry(b.path, b.ino, InodeMark.MarkAttr(m.attrs[a.ino]));
    assert m3.list == [eb, ea];
    assert FirstMatch(m3.list[1..], a.path) == 0;
    assert FirstMatch(m3.list, a.path) == 1;
    var m4 := DelPath(env, m3, a.path).0;
    assert m4.list == [eb];
    final := DelPath(env, m4, b.path).0;
  }

  // ------------------------------------------------------------ exact removal

  /** The list without the entry for exactly this path. */
  function RemoveExact(l: seq<Entry>, path: string): seq<Entry> {
    if l == [] then [] else if l[0].path == path then l[1..] else [l[0]] + RemoveExact(l[1..], path)
  }

  lemma {:induction false} RemoveExactAt(l: seq<Entry>, path: string, k: nat)
    requires UniquePaths(l) && k < |l| && l[k].path == path
    ensures RemoveExact(l, path) == Cut(l, k)
    decreases |l|
  {
    if k > 0 {
      assert l[0].path != path;
      var tail := l[1..];
      assert forall i :: 0 <= i < |tail| ==> tail[i] == l[i + 1];
      RemoveExactAt(tail, path, k - 1);
      assert Cut(l, k) == [l[0]] + Cut(tail, k - 1);
    }
  }

  lemma {:induction false} RemoveExactAbsent(l: seq<Entry>, path: string)
    requires !HasPath(l, path)
    ensures RemoveExact(l, path) == l
    decreases |l|
  {
    if l != [] {
      assert l[0].path != path;
      var tail := l[1..];
      forall i | 0 <= i < |tail| ensures tail[i].path != path { assert tail[i] == l[i + 1]; }
      RemoveExactAbsent(tail, path);
    }
  }

  lemma CutDiffers(l: seq<Entry>, i: nat, j: nat)
    requires i < j < |l| && UniquePaths(l)
    ensures Cut(l, i) != Cut(l, j)
  {
    assert Cut(l, i)[i] == l[i + 1] && Cut(l, j)[i] == l[i];
  }

  /** Every entry that properly extends the path comes after the path's own. */
  ghost predicate NoEarlierExtension(l: seq<Entry>, path: string) {
    forall i :: 0 <= i < |l| && path <= l[i].path && l[i].path != path ==> HasPath(l[..i], path)
  }

  lemma ExactWhenListed(l: seq<Entry>, path: string, j: nat)
    requires UniquePaths(l) && j < |l| && l[j].path == path
    ensures Remove(l, path) == RemoveExact(l, path) <==> NoEarlierExtension(l, path)
  {
    var k := FirstMatch(l, path);
    RemoveExactAt(l, path, j);
    if k < j {
      CutDiffers(l, k, j);
      assert l[k].path != path;
      assert !HasPath(l[..k], path);
    } else {
      forall i | 0 <= i < |l| && path <= l[i].path && l[i].path != path ensures HasPath(l[..i], path) {
        assert l[..i][j].path == path;
      }
    }
  }

  lemma ExactWhenAbsent(l: seq<Entry>, path: string)
    requires !HasPath(l, path)
    ensures Remove(l, path) == RemoveExact(l, path) <==> NoEarlierExtension(l, path)
  {
    var k := FirstMatch(l, path);
    RemoveExactAbsent(l, path);
    forall i | 0 <= i < |l| ensures !HasPath(l[..i], path) {
      forall j | 0 <= j < i ensures l[..i][j].path != path { assert l[j].path != path; }
    }
    if k < |l| {
      assert |Cut(l, k)| < |l|;
      assert l[k].path != path;
    }
  }

  /** Removal compares prefixes, so it deletes at most one entry, and it is the
      removal of exactly the requested path if and only if no entry before that
      path's own begins with the request; for an unlisted path, no entry at all. */
  lemma RemovalIsExactIff(l: seq<Entry>, path: string)
    requires UniquePaths(l)
    ensures |l| - 1 <= |Remove(l, path)| <= |l|
    ensures Remove(l, path) == RemoveExact(l, path) <==> NoEarlierExtension(l, path)
  {
    if HasPath(l, path) {
      var j: nat :| j < |l| && l[j].path == path;
      ExactWhenListed(l, path, j);
    } else {
      ExactWhenAbsent(l, path);
    }
  }
}
