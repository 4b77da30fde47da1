/** The flags of an open that the hook looks at. */
module OpenFlags {

  const O_WRONLY: bv32 := 0x1
  const O_RDWR: bv32 := 0x2
  const O_CREAT: bv32 := 0x40
  const O_TRUNC: bv32 := 0x200
  const O_APPEND: bv32 := 0x400

  predicate WantsWrite(flags: bv32) {
    flags & (O_RDWR | O_WRONLY | O_TRUNC | O_APPEND) != 0
  }

  predicate WantsCreate(flags: bv32) {
    flags & O_CREAT != 0
  }

  /** Any of the four bits that open a file for changing it. */
  predicate AsksToWrite(flags: bv32) {
    flags & 0x1 != 0 || flags & 0x2 != 0 || flags & 0x200 != 0 || flags & 0x400 != 0
  }

  predicate AsksToCreate(flags: bv32) {
    flags & 0x40 != 0
  }

  lemma MaskIff(flags: bv32)
    ensures flags & 0x603 != 0 <==> flags & 0x1 != 0 || flags & 0x2 != 0 || flags & 0x200 != 0 || flags & 0x400 != 0
  {
  }

  lemma MaskIs()
    ensures O_RDWR | O_WRONLY | O_TRUNC | O_APPEND == 0x603
  {
  }

  /** The hook's mask tests just these bits. */
  lemma WantsWriteIff(flags: bv32)
    ensures WantsWrite(flags) <==> AsksToWrite(flags)
  {
    MaskIs();
    MaskIff(flags);
  }

  lemma WantsCreateIff(flags: bv32)
    ensures WantsCreate(flags) <==> AsksToCreate(flags)
  {
  }

  lemma WriteFlag()
    ensures AsksToWrite(O_WRONLY) && !AsksToCreate(O_WRONLY)
  {
  }
}
