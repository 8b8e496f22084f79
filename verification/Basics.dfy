/** Types and kernel parameters (kernel/include/param.h) that several components share. */
module Basics {

  const NPROC := 64
  const NCPU := 8
  const MAXOPBLOCKS := 10
  const LOGSIZE := 30                           // MAXOPBLOCKS * 3
  const NBUF := 30                              // MAXOPBLOCKS * 3
  const PGSIZE := 4096

  type Byte = b: int | 0 <= b < 256

  datatype Option<T> = None | Some(value: T)
}
