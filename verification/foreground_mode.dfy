/**
 * The foreground-only mode switched by SIGTSTP (`handle_SIGTSTP`): a
 * two-state flag that writes a fixed notice of a fixed byte count on every
 * flip.
 */
module ForegroundMode {

  /** The mode the shell starts in: `&` is honoured. */
  const InitialForegroundOnly := false

  const EnteringMessage := "\nEntering foreground-only mode (& is now ignored)\n"
  const ExitingMessage := "\nExiting foreground-only mode\n"

  /** Byte counts handed to `write` with each notice. */
  const EnteringCount := 50
  const ExitingCount := 30

  /** The flag after a flip and the bytes written to standard output. */
  datatype Flip = Flip(foregroundOnly: bool, written: string)

  /**
   * One SIGTSTP: the flag is inverted, and the count written with the
   * notice is exactly its length, so the whole notice appears and nothing
   * past it is read.
   */
  function HandleSigtstp(foregroundOnly: bool): (f: Flip)
    ensures f.foregroundOnly == !foregroundOnly
    ensures !foregroundOnly ==> f.written == EnteringMessage
    ensures foregroundOnly ==> f.written == ExitingMessage
  {
    if !foregroundOnly then Flip(true, EnteringMessage[..EnteringCount])
    else Flip(false, ExitingMessage[..ExitingCount])
  }

  /**
   * Two flips restore the flag; from the normal mode they write the
   * entering notice and then the exiting notice.
   */
  lemma FlipTwice(foregroundOnly: bool)
    ensures HandleSigtstp(HandleSigtstp(foregroundOnly).foregroundOnly).foregroundOnly == foregroundOnly
    ensures !foregroundOnly ==>
              HandleSigtstp(foregroundOnly).written + HandleSigtstp(true).written
              == EnteringMessage + ExitingMessage
  {
  }
}
