/** Constants and small records shared by every part of the model. */
module KernelTypes {

  datatype Option<+T> = None | Some(value: T)

  // Errno values; the kernel returns them negated.
  const EPERM := 1
  const ENOENT := 2
  const EIO := 5
  const ENOMEM := 12
  const EACCES := 13
  const EFAULT := 14
  const EEXIST := 17
  const EINVAL := 22
  const EFBIG := 27
  const EBADMSG := 74
  const ECANCELED := 125

  // Monitor states and list operations.
  const ON := 0x01
  const OFF := 0x02
  const REC_ON := 0x04
  const REC_OFF := 0x08
  const ADD_PATH := 0x10
  const REMOVE_PATH := 0x20

  const HOOKS_SIZE := 4
  const PATH_MAX := 4096

  /** The two inode fields the monitor saves, rewrites and restores. */
  datatype Attr = Attr(mode: bv16, flags: bv32)

  /** A protected path with the attributes its inode had when it was added. */
  datatype Entry = Entry(path: string, ino: nat, saved: Attr)

  /** What path lookup finds: the canonical path and the inode. */
  datatype Target = Target(path: string, ino: nat)
}
