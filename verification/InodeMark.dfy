/** The mark a hook leaves on an inode: which bits of its mode and flags change
    and which do not. */
module InodeMark {
  import opened KernelTypes

  /** Without the write bits of user, group and others. */
  function MarkMode(mode: bv16): bv16 { ((mode & !0x80) & !0x10) & !0x02 }

  /** With the immutable flag. */
  function MarkFlags(flags: bv32): bv32 { flags | 0x8 }

  function MarkAttr(a: Attr): Attr {
    Attr(MarkMode(a.mode), MarkFlags(a.flags))
  }

  method ClearWriteBits(before: bv16) returns (mode: bv16)
    ensures mode == MarkMode(before)
  {
    var noUser := before & !0x80;
    var noGroup := noUser & !0x10;
    mode := noGroup & !0x02;
  }

  method SetImmutable(before: bv32) returns (flags: bv32)
    ensures flags == MarkFlags(before)
  {
    flags := before | 0x8;
  }

  predicate NoWriteBits(before: bv16, after: bv16) {
    after & 0x92 == 0 && after & 0xff6d == before & 0xff6d
  }

  predicate Immutable(before: bv32, after: bv32) {
    after & 0x8 == 0x8 && after & 0xffff_fff7 == before & 0xffff_fff7
  }

  /** Nobody may write, the inode is immutable, and every other bit is as before. */
  predicate IsMarked(before: Attr, after: Attr) {
    NoWriteBits(before.mode, after.mode) && Immutable(before.flags, after.flags)
  }

  lemma ModeIs(before: bv16, after: bv16)
    requires NoWriteBits(before, after)
    ensures after == MarkMode(before)
  {
    assert after == (after & 0x92) | (after & 0xff6d);
  }

  lemma FlagsAre(before: bv32, after: bv32)
    requires Immutable(before, after)
    ensures after == MarkFlags(before)
  {
    assert after == (after & 0x8) | (after & 0xffff_fff7);
    assert before | 0x8 == 0x8 | (before & 0xffff_fff7);
  }

  lemma MarkIsMarked(a: Attr)
    ensures IsMarked(a, MarkAttr(a))
  {
  }

  /** Changing the bits one at a time gives the one value that is marked so. */
  lemma MarkedIff(before: Attr, after: Attr)
    ensures IsMarked(before, after) <==> after == MarkAttr(before)
  {
    MarkIsMarked(before);
    if IsMarked(before, after) {
      ModeIs(before.mode, after.mode);
      FlagsAre(before.flags, after.flags);
    }
  }

  lemma ModeTwice(mode: bv16)
    ensures MarkMode(MarkMode(mode)) == MarkMode(mode)
  {
  }

  lemma FlagsTwice(flags: bv32)
    ensures MarkFlags(MarkFlags(flags)) == MarkFlags(flags)
  {
  }

  lemma MarkTwice(a: Attr)
    ensures MarkAttr(MarkAttr(a)) == MarkAttr(a)
  {
    ModeTwice(a.mode);
    FlagsTwice(a.flags);
  }
}
