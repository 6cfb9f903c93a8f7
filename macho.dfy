/** The string-table locator: given where an object member's data starts,
    check that it is a 64-bit Mach-O file and walk its load commands to the
    first LC_SYMTAB, whose string table is where the selector names live.

    A 64-bit Mach-O header is 32 bytes; `ncmds` is the 32-bit field at +16.
    The load commands follow the header, each starting with its type `cmd`
    and its length `cmdsize`. An LC_SYMTAB command holds `stroff` at +16 and
    `strsize` at +20; `stroff` counts from the start of the Mach-O file. */
module MachO {
  import opened Outcomes
  import opened Bytes

  const MhMagic64: nat := 0xFEEDFACF
  const LcSymtab: nat := 0x2
  const MachHeaderSize: nat := 32
  const NcmdsAt: nat := 16
  const CmdSizeAt: nat := 4
  const StroffAt: nat := 16
  const StrsizeAt: nat := 20

  /** A byte range of the archive: `size` bytes from `loc`. */
  datatype Span = Span(loc: nat, size: nat)

  // ---------------------------------------------------------------------
  // The walk bounded by ncmds
  // ---------------------------------------------------------------------

  /** The string table an LC_SYMTAB command at `at` names, placed in the
      archive by adding where the Mach-O file starts. */
  function ReadSymtab(data: seq<Byte>, location: nat, at: nat): (r: Result<Option<Span>>)
    ensures r.Ok? <==> at + StrsizeAt + 4 <= |data|
    ensures r.Ok? ==> r.value.Some? && r.value.value.loc >= location
    ensures r.Err? ==> r.error == ShortRead
  {
    match (U32At(data, at + StroffAt), U32At(data, at + StrsizeAt))
    case (Some(stroff), Some(strsize)) => Ok(Some(Span(location + stroff, strsize)))
    case _ => Err(ShortRead)
  }

  /** Walks at most `remaining` load commands from `at`: the string table of
      the first LC_SYMTAB, None when the commands run out first, ShortRead
      when a field to read lies past the end of the data. */
  function WalkCommands(data: seq<Byte>, location: nat, at: nat, remaining: nat): (r: Result<Option<Span>>)
    ensures r.Err? ==> r.error == ShortRead
    ensures r.Ok? && r.value.Some? ==> r.value.value.loc >= location
    decreases remaining
  {
    if remaining == 0 then Ok(None)
    else match U32At(data, at)
      case None => Err(ShortRead)
      case Some(cmd) =>
        if cmd == LcSymtab then ReadSymtab(data, location, at)
        else match U32At(data, at + CmdSizeAt)
          case None => Err(ShortRead)
          case Some(cmdSize) => WalkCommands(data, location, at + cmdSize, remaining - 1)
  }

  /** find_symtab on the member whose data starts at `location`:
      WrongArchitecture when the data is not a 64-bit Mach-O file, otherwise
      the walk over its `ncmds` load commands. */
  function LocateStringTable(data: seq<Byte>, location: nat): Result<Option<Span>>
  {
    match U32At(data, location)
    case None => Err(ShortRead)
    case Some(magic) =>
      if magic != MhMagic64 then Err(WrongArchitecture)
      else match U32At(data, location + NcmdsAt)
        case None => Err(ShortRead)
        case Some(ncmds) => WalkCommands(data, location, location + MachHeaderSize, ncmds)
  }

  /** The walk as a loop: the offset advances by each command's size, one
      command is counted off per step, and the first LC_SYMTAB ends it. */
  method FindSymtab(data: seq<Byte>, location: nat) returns (r: Result<Option<Span>>)
    ensures r == LocateStringTable(data, location)
  {
    var magic := U32At(data, location);
    if magic.None? {
      return Err(ShortRead);
    }
    if magic.value != MhMagic64 {
      return Err(WrongArchitecture);
    }
    var ncmds := U32At(data, location + NcmdsAt);
    if ncmds.None? {
      return Err(ShortRead);
    }
    var remaining: nat := ncmds.value;
    var offset: nat := location + MachHeaderSize;
    while remaining > 0
      invariant WalkCommands(data, location, offset, remaining) == LocateStringTable(data, location)
    {
      var cmd := U32At(data, offset);
      if cmd.None? {
        return Err(ShortRead);
      }
      if cmd.value == LcSymtab {
        var stroff := U32At(data, offset + StroffAt);
        var strsize := U32At(data, offset + StrsizeAt);
        if stroff.None? || strsize.None? {
          return Err(ShortRead);
        }
        return Ok(Some(Span(location + stroff.value, strsize.value)));
      }
      var cmdSize := U32At(data, offset + CmdSizeAt);
      if cmdSize.None? {
        return Err(ShortRead);
      }
      offset := offset + cmdSize.value;
      remaining := remaining - 1;
    }
    return Ok(None);
  }

  // ---------------------------------------------------------------------
  // The chain of load commands, as a reference for the walk
  // ---------------------------------------------------------------------

  /** Where the command after the one at `at` starts, when the one at `at`
      is readable and not LC_SYMTAB. */
  function NextCommand(data: seq<Byte>, at: nat): (r: Option<nat>)
    ensures r.Some? ==> at + CmdSizeAt + 4 <= |data| && r.value >= at
  {
    match U32At(data, at)
    case None => None
    case Some(cmd) =>
      if cmd == LcSymtab then None
      else match U32At(data, at + CmdSizeAt)
        case None => None
        case Some(cmdSize) => Some(at + cmdSize)
  }

  /** Where command `j` starts, reached from `start` through commands
      that are all readable and none of them LC_SYMTAB. */
  function Chain(data: seq<Byte>, start: nat, j: nat): Option<nat>
  {
    if j == 0 then Some(start)
    else match Chain(data, start, j - 1)
      case None => None
      case Some(at) => NextCommand(data, at)
  }

  /** The string table of an LC_SYMTAB command at `at`, when its fields
      can be read. */
  function SymtabSpan(data: seq<Byte>, location: nat, at: nat): Option<Span>
  {
    if U32At(data, at) == Some(LcSymtab) && ReadSymtab(data, location, at).Ok?
    then ReadSymtab(data, location, at).value
    else None
  }

  /** Reaching command j + 1 from `start` is reaching command j from the
      command after `start`. */
  lemma {:induction false} ChainShift(data: seq<Byte>, start: nat, next: nat, j: nat)
    requires NextCommand(data, start) == Some(next)
    ensures Chain(data, start, j + 1) == Chain(data, next, j)
  {
    if j > 0 {
      ChainShift(data, start, next, j - 1);
    }
  }

  /** No command after the first is reached unless the first has a next. */
  lemma {:induction false} ChainNeedsFirst(data: seq<Byte>, start: nat, j: nat)
    requires j > 0 && Chain(data, start, j).Some?
    ensures NextCommand(data, start).Some?
  {
    if j > 1 {
      ChainNeedsFirst(data, start, j - 1);
    }
  }

  /** The walk reports the string table of LC_SYMTAB command j when j is
      within the count and every command before it is another type. */
  lemma {:induction false} WalkFindsSymtab(data: seq<Byte>, location: nat, at: nat, n: nat, j: nat, cmd: nat, s: Span)
    requires j < n && Chain(data, at, j) == Some(cmd) && SymtabSpan(data, location, cmd) == Some(s)
    ensures WalkCommands(data, location, at, n) == Ok(Some(s))
    decreases j
  {
    if j > 0 {
      ChainNeedsFirst(data, at, j);
      var next := NextCommand(data, at).value;
      ChainShift(data, at, next, j - 1);
      WalkFindsSymtab(data, location, next, n - 1, j - 1, cmd, s);
    }
  }

  /** A string table the walk reports is that of an LC_SYMTAB command
      within the count, reached through commands of other types. */
  lemma {:induction false} WalkResultIsSymtab(data: seq<Byte>, location: nat, at: nat, n: nat, s: Span)
    requires WalkCommands(data, location, at, n) == Ok(Some(s))
    ensures exists j :: 0 <= j < n && Chain(data, at, j).Some?
                        && SymtabSpan(data, location, Chain(data, at, j).value) == Some(s)
    decreases n
  {
    var cmd := U32At(data, at).value;
    if cmd == LcSymtab {
      assert Chain(data, at, 0) == Some(at);
    } else {
      var next := NextCommand(data, at).value;
      WalkResultIsSymtab(data, location, next, n - 1, s);
      var j :| 0 <= j < n - 1 && Chain(data, next, j).Some?
               && SymtabSpan(data, location, Chain(data, next, j).value) == Some(s);
      ChainShift(data, at, next, j);
    }
  }

  /** The walk finds nothing exactly when all `n` commands can be read and
      none of them is LC_SYMTAB. */
  lemma {:induction false} WalkNoneIffChainCompletes(data: seq<Byte>, location: nat, at: nat, n: nat)
    ensures WalkCommands(data, location, at, n) == Ok(None) <==> Chain(data, at, n).Some?
    decreases n
  {
    if n > 0 {
      match NextCommand(data, at)
      case None =>
        if Chain(data, at, n).Some? {
          ChainNeedsFirst(data, at, n);
        }
      case Some(next) =>
        ChainShift(data, at, next, n - 1);
        WalkNoneIffChainCompletes(data, location, next, n - 1);
    }
  }

  /** The architecture check: the run stops with WrongArchitecture exactly
      when the member's first four bytes are readable and not MH_MAGIC_64. */
  lemma WrongArchitectureIffForeignMagic(data: seq<Byte>, location: nat)
    ensures LocateStringTable(data, location) == Err(WrongArchitecture)
            <==> U32At(data, location).Some? && U32At(data, location).value != MhMagic64
  {
  }

  // ---------------------------------------------------------------------
  // The walk as the script has it
  // ---------------------------------------------------------------------

  /** The load-command loop as written: the count is tested but never
      decremented, so once it is positive the loop runs until an LC_SYMTAB
      or a short read, and a command of size 0 is visited forever. */
  function WalkAsWritten(data: seq<Byte>, location: nat, at: nat): (r: Halting<Result<Option<Span>>>)
    ensures r.Ends? && r.value.Err? ==> r.value.error == ShortRead
    decreases |data| - at
  {
    match U32At(data, at)
    case None => Ends(Err(ShortRead))
    case Some(cmd) =>
      if cmd == LcSymtab then Ends(ReadSymtab(data, location, at))
      else match U32At(data, at + CmdSizeAt)
        case None => Ends(Err(ShortRead))
        case Some(cmdSize) =>
          if cmdSize == 0 then Hangs
          else WalkAsWritten(data, location, at + cmdSize)
  }

  /** find_symtab as written. */
  function LocateAsWritten(data: seq<Byte>, location: nat): Halting<Result<Option<Span>>>
  {
    match U32At(data, location)
    case None => Ends(Err(ShortRead))
    case Some(magic) =>
      if magic != MhMagic64 then Ends(Err(WrongArchitecture))
      else match U32At(data, location + NcmdsAt)
        case None => Ends(Err(ShortRead))
        case Some(ncmds) =>
          if ncmds == 0 then Ends(Ok(None))
          else WalkAsWritten(data, location, location + MachHeaderSize)
  }

  /** A command of size 0 that is not LC_SYMTAB is the next command of
      itself, so the bounded walk meets it until its count runs out. */
  lemma {:induction false} StuckWalkFindsNothing(data: seq<Byte>, location: nat, at: nat, n: nat)
    requires NextCommand(data, at) == Some(at)
    ensures WalkCommands(data, location, at, n) == Ok(None)
  {
    if n > 0 {
      StuckWalkFindsNothing(data, location, at, n - 1);
    }
  }

  /** Wherever the bounded walk ends with a string table or an error, the
      walk as written ends the same way. */
  lemma {:induction false} AsWrittenAgreesUnlessNone(data: seq<Byte>, location: nat, at: nat, n: nat)
    requires WalkCommands(data, location, at, n) != Ok(None)
    ensures WalkAsWritten(data, location, at) == Ends(WalkCommands(data, location, at, n))
    decreases n
  {
    match NextCommand(data, at)
    case None =>
    case Some(next) =>
      if next == at {
        StuckWalkFindsNothing(data, location, at, n);
      } else {
        AsWrittenAgreesUnlessNone(data, location, next, n - 1);
      }
  }

  /** The same for the whole of find_symtab. */
  lemma LocateAsWrittenAgreesUnlessNone(data: seq<Byte>, location: nat)
    requires LocateStringTable(data, location) != Ok(None)
    ensures LocateAsWritten(data, location) == Ends(LocateStringTable(data, location))
  {
    if U32At(data, location).Some? && U32At(data, location).value == MhMagic64
       && U32At(data, location + NcmdsAt).Some?
    {
      AsWrittenAgreesUnlessNone(data, location, location + MachHeaderSize, U32At(data, location + NcmdsAt).value);
    }
  }

  /** A Mach-O header with ncmds = 1 whose one command (a 24-byte
      LC_SEGMENT_64 stub) is followed by words that read as an LC_SYMTAB. */
  const OneCommandThenSymtab: seq<nat> :=
    [MhMagic64, 0, 0, 0, 1, 0, 0, 0,
     0x19, 24, 0, 0, 0, 0,
     LcSymtab, 24, 0, 0, 0x50, 0x10]

  /** The walk as written reads past the last load command and reports a
      string table that ncmds rules out. */
  lemma AsWrittenReadsPastLastCommand()
    ensures LocateStringTable(Words(OneCommandThenSymtab), 0) == Ok(None)
    ensures LocateAsWritten(Words(OneCommandThenSymtab), 0) == Ends(Ok(Some(Span(0x50, 0x10))))
  {
    var ws := OneCommandThenSymtab;
    var d := Words(ws);
    WordAt(ws, 0);
    WordAt(ws, 4);
    WordAt(ws, 8);
    WordAt(ws, 9);
    WordAt(ws, 14);
    WordAt(ws, 18);
    WordAt(ws, 19);
    assert WalkCommands(d, 0, 32, 1) == WalkCommands(d, 0, 56, 0);
    assert WalkAsWritten(d, 0, 56) == Ends(Ok(Some(Span(0x50, 0x10))));
  }

  /** A Mach-O header with ncmds = 1 whose one command has size 0. */
  const ZeroSizeCommand: seq<nat> := [MhMagic64, 0, 0, 0, 1, 0, 0, 0, 0x19, 0]

  /** A command of size 0 traps the walk as written, while the bounded walk
      counts it off and finds nothing. */
  lemma AsWrittenHangsOnZeroSizeCommand()
    ensures LocateStringTable(Words(ZeroSizeCommand), 0) == Ok(None)
    ensures LocateAsWritten(Words(ZeroSizeCommand), 0) == Hangs
  {
    var ws := ZeroSizeCommand;
    WordAt(ws, 0);
    WordAt(ws, 4);
    WordAt(ws, 8);
    WordAt(ws, 9);
  }
}
