/** Compile-time constants of the shells, the buffer tool and the student
    database. Their values come from headers (dshlib.h, db.h, sdbsc.h) that
    are not part of this model, so every one of them is left abstract: the
    model holds for any value of the stated type. */
module Limits {

  type Pos = x: int | x > 0 witness 1

  /** A capacity for argv that leaves room for argv[0] and the NULL slot. */
  type ArgvCap = x: int | x >= 2 witness 2

  /** Maximum number of commands in one pipeline (size of command_buffers). */
  const CMD_MAX: Pos
  /** Size of cmd_buff_t.argv, including the terminating NULL slot. */
  const CMD_ARGV_MAX: ArgvCap
  /** Every argument must be strictly shorter than this. */
  const ARG_MAX: Pos
  /** The executable name of 3-ShellP1 must be strictly shorter than this. */
  const EXE_MAX: Pos
  /** The line that ends the interactive loop. */
  const EXIT_CMD: string

  /** The delimiter set handed to strtok_r by 3-ShellP1. */
  const PIPE_STRING: string := "|"

  /** Largest value of C's size_t on the 64-bit targets of the course. */
  const SIZE_MAX: int := 0xFFFF_FFFF_FFFF_FFFF
}
