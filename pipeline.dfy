/** The script's main run: check the configured hook name, check the archive
    magic, walk the member headers collecting the string table of every
    selected object member, and, when at least one was found, make the patch
    pass over the whole archive. */
module Pipeline {
  import opened Outcomes
  import opened Bytes
  import opened Archive
  import opened MachO
  import opened Filter
  import opened Patch

  /** ".o", whose first occurrence ends the member name the filter sees. */
  const DotO: seq<Byte> := Ascii(".o")

  /** The first member header follows the eight bytes of the magic. */
  const FirstHeaderAt: nat := 8

  // ---------------------------------------------------------------------
  // The member scan
  // ---------------------------------------------------------------------

  /** A list collected so far, in front of what the rest of the scan gives. */
  function After(found: seq<Span>, rest: Result<seq<Span>>): (r: Result<seq<Span>>)
    ensures r.Ok? <==> rest.Ok?
    ensures r.Err? ==> r.error == rest.error
  {
    match rest
    case Ok(spans) => Ok(found + spans)
    case Err(e) => Err(e)
  }

  /** A header decoder: what the scan calls at each header offset. */
  type Decoder = (seq<Byte>, nat) -> Result<MemberHeader>

  /** A string-table locator: what the scan calls where a selected object
      member's data starts. */
  type Locator = (seq<Byte>, nat) -> Result<Option<Span>>

  /** What the scan relies on in a header decoder: the member's data starts
      after its header, and decoding fails only with a short read or a
      number int() rejects. Both ResolveHeader and ResolveHeaderAsWritten
      are such decoders. */
  ghost predicate HeaderDecoder(decode: Decoder)
  {
    forall data, offset: nat ::
      && (decode(data, offset).Ok? ==> decode(data, offset).value.location >= offset + HeaderSize)
      && (decode(data, offset).Err? ==> decode(data, offset).error in {ShortRead, BadNumber, BadLongNameLength})
  }

  /** Decoding with the ten-byte size field is a header decoder. */
  lemma ResolveHeaderDecodes()
    ensures HeaderDecoder(ResolveHeader)
  {
    forall data, offset: nat
      ensures ResolveHeader(data, offset).Err?
              ==> ResolveHeader(data, offset).error in {ShortRead, BadNumber, BadLongNameLength}
    {
    }
  }

  /** Decoding with the eight-byte size field is a header decoder. */
  lemma AsWrittenDecodes()
    ensures HeaderDecoder(ResolveHeaderAsWritten)
  {
    forall data, offset: nat
      ensures ResolveHeaderAsWritten(data, offset).Err?
              ==> ResolveHeaderAsWritten(data, offset).error in {ShortRead, BadNumber, BadLongNameLength}
    {
    }
  }

  /** What the scan relies on in a string-table locator: a table lies
      after the start of the member's data, and the walk fails only with a
      short read or a foreign magic. */
  ghost predicate TableLocator(locate: Locator)
  {
    forall data, location: nat ::
      && (locate(data, location).Ok? && locate(data, location).value.Some?
          ==> locate(data, location).value.value.loc >= location)
      && (locate(data, location).Err? ==> locate(data, location).error in {ShortRead, WrongArchitecture})
  }

  /** The load-command walk is a string-table locator. */
  lemma LocateStringTableLocates()
    ensures TableLocator(LocateStringTable)
  {
    forall data, location: nat
      ensures LocateStringTable(data, location).Err?
              ==> LocateStringTable(data, location).error in {ShortRead, WrongArchitecture}
    {
    }
  }

  /** The scan from the header at `offset` to the end of the archive, with
      `decode` reading each header: the string tables of the selected object
      members, in archive order. A member whose name has no ".o" is skipped,
      and so is an object member without an LC_SYMTAB; the next header is
      where the current member's data ends. */
  function ScanFrom(data: seq<Byte>, sel: Selection, offset: nat, decode: Decoder, locate: Locator): (r: Result<seq<Span>>)
    decreases |data| - offset
  {
    if offset >= |data| then Ok([])
    else match decode(data, offset)
      case Err(e) => Err(e)
      case Ok(h) =>
        var next := h.location + h.size;
        if next <= offset then Err(NoProgress)
        else match ScanMember(data, sel, h, locate)
          case Err(e) => Err(e)
          case Ok(found) => After(found, ScanFrom(data, sel, next, decode, locate))
  }

  /** Whether the scan hands the member called `name` to find_symtab: the
      name has ".o", and the filter selects the text before its first one. */
  predicate Processed(sel: Selection, name: seq<Byte>)
  {
    match Find(name, DotO)
    case None => false
    case Some(k) => Selected(sel, name[..k])
  }

  /** What one member adds to the list: nothing when the scan passes it by;
      otherwise what the locator reports, its error stopping the scan. */
  function ScanMember(data: seq<Byte>, sel: Selection, h: MemberHeader, locate: Locator): (r: Result<seq<Span>>)
    ensures !Processed(sel, h.name) ==> r == Ok([])
    ensures Processed(sel, h.name) ==> (r.Ok? <==> locate(data, h.location).Ok?)
    ensures Processed(sel, h.name) && r.Err? ==> r.error == locate(data, h.location).error
    ensures Processed(sel, h.name) && locate(data, h.location) == Ok(None) ==> r == Ok([])
    ensures Processed(sel, h.name) && locate(data, h.location).Ok? && locate(data, h.location).value.Some?
            ==> r == Ok([locate(data, h.location).value.value])
  {
    match Find(h.name, DotO)
    case None => Ok([])
    case Some(k) =>
      if !Selected(sel, h.name[..k]) then Ok([])
      else match locate(data, h.location)
        case Err(e) => Err(e)
        case Ok(None) => Ok([])
        case Ok(Some(span)) => Ok([span])
  }

  /** The member headers from `offset` on, in archive order: each next
      header is where the previous member's data ends. It fails where the
      scan fails on a header. */
  function Members(data: seq<Byte>, offset: nat, decode: Decoder): Result<seq<MemberHeader>>
    decreases |data| - offset
  {
    if offset >= |data| then Ok([])
    else match decode(data, offset)
      case Err(e) => Err(e)
      case Ok(h) =>
        var next := h.location + h.size;
        if next <= offset then Err(NoProgress)
        else match Members(data, next, decode)
          case Err(e) => Err(e)
          case Ok(hs) => Ok([h] + hs)
  }

  /** What the members `hs` add, one after the other. */
  function Tables(data: seq<Byte>, sel: Selection, hs: seq<MemberHeader>, locate: Locator): Result<seq<Span>>
    decreases |hs|
  {
    if hs == [] then Ok([])
    else match ScanMember(data, sel, hs[0], locate)
      case Err(e) => Err(e)
      case Ok(found) => After(found, Tables(data, sel, hs[1..], locate))
  }

  /** The scan is the chain of member headers, then what each member adds:
      it succeeds exactly when every header decodes and moves forward and
      every processed member's walk succeeds, and then it lists the tables
      member by member. */
  lemma {:induction false} ScanIsTablesOfMembers(data: seq<Byte>, sel: Selection, offset: nat, decode: Decoder, locate: Locator)
    ensures ScanFrom(data, sel, offset, decode, locate).Ok?
            <==> Members(data, offset, decode).Ok? && Tables(data, sel, Members(data, offset, decode).value, locate).Ok?
    ensures ScanFrom(data, sel, offset, decode, locate).Ok?
            ==> ScanFrom(data, sel, offset, decode, locate).value
                == Tables(data, sel, Members(data, offset, decode).value, locate).value
    decreases |data| - offset
  {
    if offset < |data| && decode(data, offset).Ok? {
      var h := decode(data, offset).value;
      var next := h.location + h.size;
      if next > offset {
        ScanIsTablesOfMembers(data, sel, next, decode, locate);
        var rest := Members(data, next, decode);
        if rest.Ok? {
          var hs := [h] + rest.value;
          assert hs[0] == h && hs[1..] == rest.value;
        }
      }
    }
  }

  /** What a list of members adds splits at any member: the members before
      it, the member itself, and those after it. */
  lemma {:induction false} TablesSplit(data: seq<Byte>, sel: Selection, hs: seq<MemberHeader>, locate: Locator, i: nat)
    requires i < |hs|
    ensures Tables(data, sel, hs, locate).Ok?
            <==> Tables(data, sel, hs[..i], locate).Ok? && ScanMember(data, sel, hs[i], locate).Ok?
                 && Tables(data, sel, hs[i + 1..], locate).Ok?
    ensures Tables(data, sel, hs, locate).Ok?
            ==> Tables(data, sel, hs, locate).value
                == Tables(data, sel, hs[..i], locate).value + ScanMember(data, sel, hs[i], locate).value
                   + Tables(data, sel, hs[i + 1..], locate).value
    decreases i, 1
  {
    if i == 0 {
      TablesSplitFirst(data, sel, hs, locate);
    } else {
      TablesSplitLater(data, sel, hs, locate, i);
    }
  }

  /** TablesSplit at the first member. */
  lemma TablesSplitFirst(data: seq<Byte>, sel: Selection, hs: seq<MemberHeader>, locate: Locator)
    requires 0 < |hs|
    ensures Tables(data, sel, hs, locate).Ok?
            <==> Tables(data, sel, hs[..0], locate).Ok? && ScanMember(data, sel, hs[0], locate).Ok?
                 && Tables(data, sel, hs[1..], locate).Ok?
    ensures Tables(data, sel, hs, locate).Ok?
            ==> Tables(data, sel, hs, locate).value
                == Tables(data, sel, hs[..0], locate).value + ScanMember(data, sel, hs[0], locate).value
                   + Tables(data, sel, hs[1..], locate).value
  {
    TablesCons(data, sel, hs, locate);
    assert hs[..0] == [];
    assert Tables(data, sel, hs[..0], locate) == Ok([]);
    if Tables(data, sel, hs, locate).Ok? {
      var m := ScanMember(data, sel, hs[0], locate).value;
      assert [] + m == m;
    }
  }

  /** TablesSplit past the first member, from the split of the rest. */
  lemma {:induction false} TablesSplitLater(data: seq<Byte>, sel: Selection, hs: seq<MemberHeader>, locate: Locator, i: nat)
    requires 0 < i < |hs|
    ensures Tables(data, sel, hs, locate).Ok?
            <==> Tables(data, sel, hs[..i], locate).Ok? && ScanMember(data, sel, hs[i], locate).Ok?
                 && Tables(data, sel, hs[i + 1..], locate).Ok?
    ensures Tables(data, sel, hs, locate).Ok?
            ==> Tables(data, sel, hs, locate).value
                == Tables(data, sel, hs[..i], locate).value + ScanMember(data, sel, hs[i], locate).value
                   + Tables(data, sel, hs[i + 1..], locate).value
    decreases i, 0
  {
    var tail, front := hs[1..], hs[..i];
    TablesSplit(data, sel, tail, locate, i - 1);
    assert tail[i - 1] == hs[i] && tail[i..] == hs[i + 1..];
    TablesCons(data, sel, hs, locate);
    TablesCons(data, sel, front, locate);
    assert front[0] == hs[0] && front[1..] == tail[..i - 1];
    if Tables(data, sel, hs, locate).Ok? {
      var f := ScanMember(data, sel, hs[0], locate).value;
      var a := Tables(data, sel, tail[..i - 1], locate).value;
      var m := ScanMember(data, sel, hs[i], locate).value;
      var b := Tables(data, sel, hs[i + 1..], locate).value;
      assert f + (a + m + b) == (f + a) + m + b;
    }
  }

  /** What a non-empty list of members adds: what the first adds, then
      what the rest add. */
  lemma TablesCons(data: seq<Byte>, sel: Selection, hs: seq<MemberHeader>, locate: Locator)
    requires |hs| > 0
    ensures Tables(data, sel, hs, locate).Ok?
            <==> ScanMember(data, sel, hs[0], locate).Ok? && Tables(data, sel, hs[1..], locate).Ok?
    ensures Tables(data, sel, hs, locate).Ok?
            ==> Tables(data, sel, hs, locate).value
                == ScanMember(data, sel, hs[0], locate).value + Tables(data, sel, hs[1..], locate).value
  {
  }

  /** Every processed member that the walk gives a table has that table
      collected, in its place in archive order: after the tables of the
      members before it and before those of the members after it. */
  lemma ScanCollectsProcessedTable(data: seq<Byte>, sel: Selection, offset: nat, decode: Decoder, locate: Locator,
                                   hs: seq<MemberHeader>, i: nat, s: Span)
    requires ScanFrom(data, sel, offset, decode, locate).Ok?
    requires Members(data, offset, decode) == Ok(hs) && i < |hs|
    requires Processed(sel, hs[i].name) && locate(data, hs[i].location) == Ok(Some(s))
    ensures Tables(data, sel, hs[..i], locate).Ok? && Tables(data, sel, hs[i + 1..], locate).Ok?
    ensures ScanFrom(data, sel, offset, decode, locate).value
            == Tables(data, sel, hs[..i], locate).value + [s] + Tables(data, sel, hs[i + 1..], locate).value
  {
    ScanIsTablesOfMembers(data, sel, offset, decode, locate);
    TablesSplit(data, sel, hs, locate, i);
  }

  /** A member the scan passes by, or whose walk finds no LC_SYMTAB, adds
      nothing: the list is the tables of the members around it. */
  lemma ScanSkipsMember(data: seq<Byte>, sel: Selection, offset: nat, decode: Decoder, locate: Locator,
                        hs: seq<MemberHeader>, i: nat)
    requires ScanFrom(data, sel, offset, decode, locate).Ok?
    requires Members(data, offset, decode) == Ok(hs) && i < |hs|
    requires !Processed(sel, hs[i].name) || locate(data, hs[i].location) == Ok(None)
    ensures Tables(data, sel, hs[..i], locate).Ok? && Tables(data, sel, hs[i + 1..], locate).Ok?
    ensures ScanFrom(data, sel, offset, decode, locate).value
            == Tables(data, sel, hs[..i], locate).value + Tables(data, sel, hs[i + 1..], locate).value
  {
    ScanIsTablesOfMembers(data, sel, offset, decode, locate);
    TablesSplit(data, sel, hs, locate, i);
    assert Tables(data, sel, hs[..i], locate).value + [] == Tables(data, sel, hs[..i], locate).value;
  }

  /** A walk that fails on any processed member along the header chain
      makes the whole scan fail. */
  lemma ScanStopsOnLocatorError(data: seq<Byte>, sel: Selection, offset: nat, decode: Decoder, locate: Locator,
                                hs: seq<MemberHeader>, i: nat)
    requires Members(data, offset, decode) == Ok(hs) && i < |hs|
    requires Processed(sel, hs[i].name) && locate(data, hs[i].location).Err?
    ensures ScanFrom(data, sel, offset, decode, locate).Err?
  {
    ScanIsTablesOfMembers(data, sel, offset, decode, locate);
    TablesSplit(data, sel, hs, locate, i);
  }

  /** Under the default policy every member whose name has ".o" goes on to
      find_symtab. */
  lemma DefaultProcessesEveryObject(sel: Selection, name: seq<Byte>)
    requires sel.mode == Everything
    ensures Processed(sel, name) <==> Find(name, DotO).Some?
  {
  }

  /** The scan loop of the script: the offset moves from header to header
      and each string table found is appended. */
  method CollectSpans(data: seq<Byte>, sel: Selection, decode: Decoder, locate: Locator) returns (r: Result<seq<Span>>)
    ensures r == ScanFrom(data, sel, FirstHeaderAt, decode, locate)
  {
    var offset: nat := FirstHeaderAt;
    var spans: seq<Span> := [];
    ghost var goal := ScanFrom(data, sel, FirstHeaderAt, decode, locate);
    AfterNothing(goal);
    while offset < |data|
      invariant After(spans, ScanFrom(data, sel, offset, decode, locate)) == goal
      decreases |data| - offset
    {
      var header := decode(data, offset);
      if header.Err? {
        return Err(header.error);
      }
      var h := header.value;
      var next := h.location + h.size;
      if next <= offset {
        return Err(NoProgress);
      }
      var found: seq<Span> := [];
      var k := Find(h.name, DotO);
      if k.Some? && Selected(sel, h.name[..k.value]) {
        var table := locate(data, h.location);
        if table.Err? {
          return Err(table.error);
        }
        if table.value.Some? {
          found := [table.value.value];
        }
      }
      ScanStep(data, sel, offset, decode, locate, h, found, spans, goal);
      spans, offset := spans + found, next;
    }
    assert spans + [] == spans;
    return Ok(spans);
  }

  /** One turn of the scan loop, where the member at `offset` decodes to `h`
      and adds `found`. */
  lemma ScanStep(data: seq<Byte>, sel: Selection, offset: nat, decode: Decoder, locate: Locator, h: MemberHeader,
                 found: seq<Span>, spans: seq<Span>, goal: Result<seq<Span>>)
    requires offset < |data| && decode(data, offset) == Ok(h) && h.location + h.size > offset
    requires ScanMember(data, sel, h, locate) == Ok(found)
    requires After(spans, ScanFrom(data, sel, offset, decode, locate)) == goal
    ensures After(spans + found, ScanFrom(data, sel, h.location + h.size, decode, locate)) == goal
  {
    ScanAt(data, sel, offset, decode, locate, h, found);
    AfterAfter(spans, found, ScanFrom(data, sel, h.location + h.size, decode, locate));
  }

  /** The scan at a member that decodes to `h` and adds `found`. */
  lemma ScanAt(data: seq<Byte>, sel: Selection, offset: nat, decode: Decoder, locate: Locator, h: MemberHeader, found: seq<Span>)
    requires offset < |data| && decode(data, offset) == Ok(h) && h.location + h.size > offset
    requires ScanMember(data, sel, h, locate) == Ok(found)
    ensures ScanFrom(data, sel, offset, decode, locate) == After(found, ScanFrom(data, sel, h.location + h.size, decode, locate))
  {
  }

  lemma AfterAfter(spans: seq<Span>, found: seq<Span>, rest: Result<seq<Span>>)
    ensures After(spans, After(found, rest)) == After(spans + found, rest)
  {
    if rest.Ok? {
      assert spans + (found + rest.value) == spans + found + rest.value;
    }
  }

  lemma AfterNothing(rest: Result<seq<Span>>)
    ensures After([], rest) == rest
  {
    if rest.Ok? {
      assert [] + rest.value == rest.value;
    }
  }

  /** Every string table the scan collects lies past the header of the
      member it belongs to, and so past the header at `offset`. */
  lemma {:induction false} ScanSpansFollowHeaders(data: seq<Byte>, sel: Selection, offset: nat, decode: Decoder, locate: Locator)
    requires HeaderDecoder(decode) && TableLocator(locate) && ScanFrom(data, sel, offset, decode, locate).Ok?
    ensures forall s :: s in ScanFrom(data, sel, offset, decode, locate).value ==> s.loc >= offset + HeaderSize
    decreases |data| - offset
  {
    if offset < |data| {
      var h := decode(data, offset).value;
      var next := h.location + h.size;
      var found := ScanMember(data, sel, h, locate).value;
      ScanAt(data, sel, offset, decode, locate, h, found);
      ScanSpansFollowHeaders(data, sel, next, decode, locate);
    }
  }

  /** A selection that admits no member name collects nothing. */
  lemma {:induction false} ScanWithEmptyAllowList(data: seq<Byte>, sel: Selection, offset: nat, decode: Decoder, locate: Locator)
    requires sel.mode == OnlyListed && sel.need == {}
    requires ScanFrom(data, sel, offset, decode, locate).Ok?
    ensures ScanFrom(data, sel, offset, decode, locate).value == []
    decreases |data| - offset
  {
    if offset < |data| {
      var h := decode(data, offset).value;
      var next := h.location + h.size;
      assert ScanMember(data, sel, h, locate) == Ok([]);
      ScanAt(data, sel, offset, decode, locate, h, []);
      ScanWithEmptyAllowList(data, sel, next, decode, locate);
      AfterNothing(ScanFrom(data, sel, next, decode, locate));
    }
  }

  /** The scan fails only with the errors of header decoding, of the
      string-table walk, or for a header that does not move forward. */
  lemma {:induction false} ScanErrors(data: seq<Byte>, sel: Selection, offset: nat, decode: Decoder, locate: Locator)
    requires HeaderDecoder(decode) && TableLocator(locate) && ScanFrom(data, sel, offset, decode, locate).Err?
    ensures ScanFrom(data, sel, offset, decode, locate).error
            in {ShortRead, BadNumber, BadLongNameLength, WrongArchitecture, NoProgress}
    decreases |data| - offset
  {
    var h := decode(data, offset);
    if h.Ok? && h.value.location + h.value.size > offset {
      var m := ScanMember(data, sel, h.value, locate);
      if m.Err? {
        MemberErrors(data, sel, h.value, locate);
      } else {
        ScanAt(data, sel, offset, decode, locate, h.value, m.value);
        ScanErrors(data, sel, h.value.location + h.value.size, decode, locate);
      }
    }
  }

  /** A member fails the scan only through the string-table walk. */
  lemma MemberErrors(data: seq<Byte>, sel: Selection, h: MemberHeader, locate: Locator)
    requires TableLocator(locate) && ScanMember(data, sel, h, locate).Err?
    ensures ScanMember(data, sel, h, locate).error in {ShortRead, WrongArchitecture}
  {
  }

  // ---------------------------------------------------------------------
  // The run
  // ---------------------------------------------------------------------

  /** The rename the pass applies to each string table: the entry of
      objc_msgSend becomes the entry of the configured hook. */
  function Rename(hookName: seq<Byte>): seq<Byte> -> seq<Byte>
  {
    Replacing(ObjcMsgSend, SymbolEntry(hookName))
  }

  /** The member scan of the run, from the first header, with the header
      decoder that reads the full ten-byte size field. */
  function Scan(data: seq<Byte>, sel: Selection): Result<seq<Span>>
  {
    ScanFrom(data, sel, FirstHeaderAt, ResolveHeader, LocateStringTable)
  }

  /** The whole run on the archive `data`, with the hook name and member
      selection it is configured with: the new archive, or the error that
      stops the script before it writes anything. */
  function Run(data: seq<Byte>, hookName: seq<Byte>, sel: Selection): (r: Result<seq<Byte>>)
  {
    if |hookName| != |ObjcName| then Err(RenameLengthMismatch)
    else if |data| < |ArchiveMagic| then Err(ShortRead)
    else if data[..|ArchiveMagic|] != ArchiveMagic then Err(NotAnArchive)
    else match Scan(data, sel)
      case Err(e) => Err(e)
      case Ok(spans) =>
        if |spans| == 0 then Ok(data)
        else Ok(Pass(data, spans, 0, Rename(hookName)))
  }

  /** The script's main block as a sequence of checks and loops. */
  method Execute(data: seq<Byte>, hookName: seq<Byte>, sel: Selection) returns (r: Result<seq<Byte>>)
    ensures r == Run(data, hookName, sel)
  {
    if |hookName| != |ObjcName| {
      return Err(RenameLengthMismatch);
    }
    if |data| < |ArchiveMagic| {
      return Err(ShortRead);
    }
    if data[..|ArchiveMagic|] != ArchiveMagic {
      return Err(NotAnArchive);
    }
    var spans := CollectSpans(data, sel, ResolveHeader, LocateStringTable);
    if spans.Err? {
      return Err(spans.error);
    }
    if |spans.value| == 0 {
      return Ok(data);
    }
    var out := PatchPass(data, spans.value, Rename(hookName));
    return Ok(out);
  }

  /** The run, once the checks have passed and the scan has given `spans`. */
  lemma RunAfterScan(data: seq<Byte>, hookName: seq<Byte>, sel: Selection, spans: seq<Span>)
    requires |hookName| == |ObjcName| && |data| >= |ArchiveMagic| && data[..|ArchiveMagic|] == ArchiveMagic
    requires Scan(data, sel) == Ok(spans)
    ensures Run(data, hookName, sel) == Ok(if |spans| == 0 then data else Pass(data, spans, 0, Rename(hookName)))
  {
  }

  /** A run that succeeds has passed the name and magic checks. */
  lemma RunPassed(data: seq<Byte>, hookName: seq<Byte>, sel: Selection)
    requires Run(data, hookName, sel).Ok?
    ensures |hookName| == |ObjcName| && |data| >= |ArchiveMagic| && data[..|ArchiveMagic|] == ArchiveMagic
  {
  }

  /** The rename-length check comes first: a hook name of another length
      stops the run whatever the archive, and nothing else gives this error. */
  lemma RenameLengthCheckedFirst(data: seq<Byte>, hookName: seq<Byte>, sel: Selection)
    ensures Run(data, hookName, sel) == Err(RenameLengthMismatch) <==> |hookName| != |ObjcName|
  {
    var scan := Scan(data, sel);
    if |hookName| == |ObjcName| && |data| >= |ArchiveMagic| && data[..|ArchiveMagic|] == ArchiveMagic && scan.Err? {
      ResolveHeaderDecodes();
      LocateStringTableLocates();
      ScanErrors(data, sel, FirstHeaderAt, ResolveHeader, LocateStringTable);
    }
  }

  /** A file that does not start with the archive magic is rejected, and
      only such a file is rejected as not an archive. */
  lemma MagicChecked(data: seq<Byte>, hookName: seq<Byte>, sel: Selection)
    requires |hookName| == |ObjcName| && |data| >= |ArchiveMagic|
    ensures Run(data, hookName, sel) == Err(NotAnArchive) <==> data[..|ArchiveMagic|] != ArchiveMagic
  {
    var scan := Scan(data, sel);
    if data[..|ArchiveMagic|] == ArchiveMagic && scan.Err? {
      ResolveHeaderDecodes();
      LocateStringTableLocates();
      ScanErrors(data, sel, FirstHeaderAt, ResolveHeader, LocateStringTable);
    }
  }

  /** Patching happens only after the rename-length check and the magic
      check have passed and the scan has collected at least one table:
      otherwise the run fails or gives the archive back as it is. */
  lemma PatchesOnlyAfterChecks(data: seq<Byte>, hookName: seq<Byte>, sel: Selection)
    requires Run(data, hookName, sel).Ok? && Run(data, hookName, sel).value != data
    ensures |hookName| == |ObjcName|
    ensures |data| >= |ArchiveMagic| && data[..|ArchiveMagic|] == ArchiveMagic
    ensures Scan(data, sel).Ok? && |Scan(data, sel).value| > 0
  {
  }

  /** The new archive is exactly as long as the old one, so no offset in it
      moves. */
  lemma RunKeepsLength(data: seq<Byte>, hookName: seq<Byte>, sel: Selection)
    requires Run(data, hookName, sel).Ok?
    ensures |Run(data, hookName, sel).value| == |data|
  {
    var spans := Scan(data, sel).value;
    RunPassed(data, hookName, sel);
    RunAfterScan(data, hookName, sel, spans);
    if |spans| > 0 {
      ReplacingKeepsLength(ObjcMsgSend, SymbolEntry(hookName));
      PassLength(data, spans, 0, Rename(hookName));
    }
  }

  /** Every byte outside the collected string tables is left as it is. */
  lemma RunKeepsUncovered(data: seq<Byte>, hookName: seq<Byte>, sel: Selection, spans: seq<Span>, i: nat)
    requires Run(data, hookName, sel).Ok? && Scan(data, sel) == Ok(spans)
    requires i < |data| && !Covered(spans, i)
    ensures |Run(data, hookName, sel).value| == |data|
    ensures Run(data, hookName, sel).value[i] == data[i]
  {
    RunPassed(data, hookName, sel);
    RunAfterScan(data, hookName, sel, spans);
    if |spans| > 0 {
      ReplacingKeepsLength(ObjcMsgSend, SymbolEntry(hookName));
      PassKeepsUncovered(data, spans, 0, Rename(hookName), i);
    }
  }

  /** Where the collected tables lie in order, apart and inside the file,
      each comes out at its own place with every "_objc_msgSend" entry
      renamed to the hook's. */
  lemma RunRenamesEachTable(data: seq<Byte>, hookName: seq<Byte>, sel: Selection, spans: seq<Span>, table: Span)
    requires Run(data, hookName, sel).Ok? && Scan(data, sel) == Ok(spans)
    requires WellFormedSpans(spans, 0, |data|) && table in spans
    ensures table.loc + table.size <= |data|
    ensures OccursAt(Run(data, hookName, sel).value,
                     ReplaceAll(data[table.loc..table.loc + table.size], ObjcMsgSend, SymbolEntry(hookName)),
                     table.loc)
  {
    RunPassed(data, hookName, sel);
    RunAfterScan(data, hookName, sel, spans);
    ReplacingKeepsLength(ObjcMsgSend, SymbolEntry(hookName));
    PassPatchesEachSpan(data, spans, 0, Rename(hookName), table);
  }

  /** With the hook named objc_msgSend itself, the run changes nothing. */
  lemma RunWithOwnNameChangesNothing(data: seq<Byte>, sel: Selection)
    requires Run(data, ObjcName, sel).Ok?
    ensures Run(data, ObjcName, sel).value == data
  {
    var spans := Scan(data, sel).value;
    RunAfterScan(data, ObjcName, sel, spans);
    if |spans| > 0 {
      assert SymbolEntry(ObjcName) == ObjcMsgSend;
      forall s
        ensures Rename(ObjcName)(s) == s
      {
        ReplaceBySelf(s, ObjcMsgSend);
      }
      PassWithIdentity(data, spans, 0, Rename(ObjcName));
    }
  }

  // ---------------------------------------------------------------------
  // The replacement as written
  // ---------------------------------------------------------------------

  /** The loop as written puts "_hook_msgSend" in place of "_objc_msgSend"
      whatever hook name is configured; a table holding just the entry,
      with another twelve-letter hook name, shows the two differ. */
  lemma HardCodedHookName(hookName: seq<Byte>)
    requires |hookName| == |ObjcName| && hookName != HookName
    ensures PassAsWrittenFromStart(ObjcMsgSend, [Span(0, |ObjcMsgSend|)]) == Ends(HookMsgSend)
    ensures Pass(ObjcMsgSend, [Span(0, |ObjcMsgSend|)], 0, Rename(hookName)) == SymbolEntry(hookName)
    ensures SymbolEntry(hookName) != HookMsgSend
  {
    var s := ObjcMsgSend;
    var spans := [Span(0, |s|)];
    assert s[0..Min(|s|, |s|)] == s;
    ReplaceWhole(s, HookMsgSend);
    ReplaceWhole(s, SymbolEntry(hookName));
    assert PassAsWritten(s, spans, |s|, 0, |s|, 1, Replacing(ObjcMsgSend, HookMsgSend)) == Ends([]);
    assert HookMsgSend + [] == HookMsgSend;
    assert Pass(s, spans[1..], |s|, Rename(hookName)) == [];
    assert s[0..0] + SymbolEntry(hookName) + [] == SymbolEntry(hookName);
    assert SymbolEntry(hookName)[2..14] == hookName;
    assert HookMsgSend[2..14] == HookName;
  }
}
