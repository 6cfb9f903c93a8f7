/** Values that stand for what the patching script does when something goes
    wrong: an error that ends the run (the script calls exit, or an exception
    escapes), and a loop that never ends. */
module Outcomes {

  datatype Option<+T> = None | Some(value: T)

  /** Why a run stops without writing the archive back. */
  datatype Error =
    | RenameLengthMismatch  // the configured hook name is not as long as "objc_msgSend"
    | NotAnArchive          // the first eight bytes are not "!<arch>\n"
    | ShortRead             // a read came up short, so the fixed-size unpack fails
    | BadNumber             // int() rejects a header's size or long-name length
    | BadLongNameLength     // a "#1/" length is negative, which the unpack format rejects
    | WrongArchitecture     // an object member does not start with the arm64 Mach-O magic
    | NoProgress            // the next member header would not lie after the current one

  datatype Result<+T> = Ok(value: T) | Err(error: Error)

  /** The outcome of a loop taken as written: it stops with a value, or it
      reaches a state it never leaves. */
  datatype Halting<+T> = Ends(value: T) | Hangs
}
