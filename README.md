# hookObjcMsgSend, modelled in Dafny

`hookObjcMsgSend.py` patches an arm64 static library (a BSD `ar` archive of
Mach-O object files) so that every call an object file makes to
`objc_msgSend` goes to a hook function of the same name length instead. The
script does this in four steps:

- It checks that the configured hook name is as long as `objc_msgSend`.
- It checks the archive magic `!<arch>\n`.
- It walks the member headers. For every selected object member (a name
  containing `.o`), it walks the Mach-O load commands to the first
  `LC_SYMTAB` and records where that member's string table lies in the
  archive.
- If it recorded at least one table, it rebuilds the whole file in one
  forward pass. Inside each recorded table the pass replaces the entry
  `\0_objc_msgSend\0` with `\0_hook_msgSend\0`.

The model keeps that structure, one module per concern:

- `outcomes.dfy`: `Option`, `Result` and the `Error` kinds. Each error
  stands for an `exit` or an exception that ends the run before anything
  is written. `Halting` is a loop's outcome: it ends with a value or it
  `Hangs`.
- `bytes.dfy`: the Python byte-level operations the script relies on.
  - `U32At` is `struct.unpack('I')` on a little-endian host.
  - `Strip` is `str.strip`.
  - `ParseInt` is `int()` on base-10 ASCII text: whitespace, an optional
    sign, and digits with single underscores.
  - `Find` is `str.find`.
  - `Decimal` is `str(n)`, used to describe headers as an archiver writes
    them.
- `archive.dfy`: decoding a member header (`resolver_object_header`).
  - `DecodeHeader` reads the size field, then `ResolveName` resolves a
    `#1/N` long name.
  - `ResolveHeader` reads the full ten-byte size field. It is the
    corrected decoder.
  - `ResolveHeaderAsWritten` reads the eight bytes the script reads.
  - `EncodeHeader`, `ShortNameMember` and `LongNameMember` build headers
    as an archiver writes them, so that round trips can be stated.
- `macho.dfy`: `find_symtab`.
  - `LocateStringTable` is the specification: the magic check, then
    `WalkCommands` bounded by `ncmds`.
  - `FindSymtab` is the loop, proved equal to it.
  - `Chain` is an independent description of the command list, used to
    characterise the walk.
  - `LocateAsWritten` is the loop as the script has it.
- `filter.dfy`: `process_object_file`.
  - The three filter policies are a `Selection` value rather than a line
    to uncomment.
  - `Selected` is the intended filter; `SelectedAsWritten` is the one in
    the source.
- `patch.dfy`: `replace_Objc_MsgSend`.
  - `ReplaceAll` is `bytes.replace`.
  - `Pass` specifies the forward pass; `PatchPass` is the loop, proved
    equal to it.
  - `PassAsWritten` is the loop taken literally, including the state it
    keeps after the last span. `PatchPass` adds a `pending` flag that
    says whether a span is still ahead; it is what stops the corrected
    loop from hanging after an empty last span.
- `pipeline.dfy`: the main block.
  - `ScanFrom` and `ScanMember` specify the member scan. `Members` (the
    chain of member headers) and `Tables` (what each member adds, in
    order) are an independent decomposition of it.
  - `CollectSpans` is the scan loop. It takes the header decoder and the
    string-table locator as function values; `Execute` passes
    `ResolveHeader` and `LocateStringTable`, and `MachO.FindSymtab` is the
    loop form of the latter.
  - `Run` specifies the whole run; `Execute` is the main block as a
    method, proved equal to it.
  - `Run` and `Execute` are the main block with every finding below
    corrected. No whole run of the script as written is modelled. Only
    its parts are, each set beside its corrected form:
    `Archive.ResolveHeaderAsWritten`, `MachO.LocateAsWritten`,
    `Filter.SelectedAsWritten` and `Patch.PassAsWrittenFromStart`.

Functions without a contract of their own are the specifications that the
lemmas and the loop methods are proved against: `Bytes.ParseInt`,
`Bytes.Strip`, `Archive.ResolveHeader`, `MachO.LocateStringTable`,
`Filter.Selected`, `Patch.Pass`, `Pipeline.Processed`, `Pipeline.ScanFrom`,
`Pipeline.Members`, `Pipeline.Tables` and `Pipeline.Run`.

## Model

| member | source | states |
|---|---|---|
| Bytes.U32At | hookObjcMsgSend.py:169-170 | a 32-bit little-endian read succeeds exactly when four bytes remain, and its value is below 2^32 |
| Bytes.U32RoundTrip | hookObjcMsgSend.py:176-178 | four bytes holding a 32-bit value little-endian are read back as that value |
| Bytes.StripSpec | hookObjcMsgSend.py:152 | strip keeps a slice of its input with only whitespace before and after it, and the slice neither starts nor ends with whitespace |
| Bytes.StripAround | hookObjcMsgSend.py:152 | whitespace around text whose ends are not whitespace is exactly what strip removes |
| Bytes.StripKeeps | hookObjcMsgSend.py:152 | strip leaves text whose ends are not whitespace as it is |
| Bytes.DecimalValue | hookObjcMsgSend.py:135 | the digits an archiver writes for n spell n |
| Bytes.DecimalLength | hookObjcMsgSend.py:133-135 | the decimal form of n fits in k characters exactly when n < 10^k |
| Bytes.DecimalDropsLast | hookObjcMsgSend.py:133-135 | the decimal form of n without its last digit is that of n / 10 |
| Bytes.ParseDecimal | hookObjcMsgSend.py:135 | int() reads the decimal form of n followed by any number of spaces back as n |
| Bytes.FindFrom | hookObjcMsgSend.py:313 | the result is an occurrence at or after the start with none between the start and it, and None means there is no occurrence from the start on |
| Bytes.Find | hookObjcMsgSend.py:313 | find returns the leftmost occurrence, and None exactly when the pattern occurs nowhere |
| Archive.DecodeHeader | hookObjcMsgSend.py:120-153 | a decoded member's data starts after its 60-byte header, and int() of the size field gives the distance from the end of the header to the end of the member |
| Archive.ResolveName | hookObjcMsgSend.py:138-152 | a long name moves the data start by N but not the member's end: location + size is offset + 60 + the declared size |
| Archive.DecodeHeaderParsed | hookObjcMsgSend.py:131-135 | once int() has read the size field, decoding is the name resolution with that size |
| Archive.ResolveShortName | hookObjcMsgSend.py:126-138 | a name field not starting "#1/" is the name, the data follows the header, and the size is the declared size |
| Archive.ResolveLongName | hookObjcMsgSend.py:141-152 | a "#1/N" field is replaced by the N bytes after the header, the data starts after them, and the size is N less than declared |
| Archive.EncodedSizeParses | hookObjcMsgSend.py:131-135 | the size field an archiver writes is read back as the size written |
| Archive.PaddedNameIsShort | hookObjcMsgSend.py:141 | a padded name field starts "#1/" only when the name itself does |
| Archive.ShortNameRoundTrip | hookObjcMsgSend.py:120-153 | decoding a header an archiver writes for a short name gives back the padded name, the data right after the header and the size written |
| Archive.LongNameFieldParses | hookObjcMsgSend.py:141-142 | the field "#1/N" starts with the marker, and int() reads N back from the rest |
| Archive.LongNameHeaderDecodes | hookObjcMsgSend.py:141-152 | a "#1/N" header declaring size + N, followed by its name, decodes to that name with size bytes of data after it |
| Archive.LongNameRoundTrip | hookObjcMsgSend.py:120-153 | decoding a "#1/N" member an archiver writes gives back the name, the data after the name and the size without the name |
| Archive.StripTrailingSpaces | hookObjcMsgSend.py:135 | trailing whitespace does not change what strip returns |
| Archive.AsWrittenAgreesOnShortSizes | hookObjcMsgSend.py:131-135 | where the last two bytes of the size field are whitespace, reading eight bytes decodes the same header as reading ten |
| Archive.EightDigitsRead | hookObjcMsgSend.py:133-135 | eight bytes of a nine-digit size field are read as the size without its last digit |
| Archive.AsWrittenTruncatesNineDigitSizes | hookObjcMsgSend.py:133-135 | a member of 10^8 to 10^9 - 1 bytes decodes, as written, with a tenth of its size, and correctly with the full field |
| MachO.ReadSymtab | hookObjcMsgSend.py:186-197 | an LC_SYMTAB's fields are read when they lie in the file, giving a table at or after the Mach-O start; otherwise a short read |
| MachO.WalkCommands | hookObjcMsgSend.py:181-203 | the bounded walk fails only with a short read, and any table it reports lies after the Mach-O start |
| MachO.FindSymtab | hookObjcMsgSend.py:164-203 | the load-command loop returns exactly LocateStringTable: the magic check, then the walk over ncmds commands |
| MachO.WalkFindsSymtab | hookObjcMsgSend.py:181-198 | an LC_SYMTAB reached within the count through commands of other types is the one reported |
| MachO.WalkResultIsSymtab | hookObjcMsgSend.py:181-198 | a reported table is that of an LC_SYMTAB within the count, reached through commands of other types |
| MachO.WalkNoneIffChainCompletes | hookObjcMsgSend.py:181-203 | the walk finds nothing exactly when all ncmds commands can be read and none is LC_SYMTAB |
| MachO.WrongArchitectureIffForeignMagic | hookObjcMsgSend.py:169-173 | the architecture error is raised exactly when the member's first word is readable and not MH_MAGIC_64 |
| MachO.WalkAsWritten | hookObjcMsgSend.py:181-203 | the walk as written, when it ends in an error, ends in a short read |
| MachO.StuckWalkFindsNothing | hookObjcMsgSend.py:199-203 | a command of size 0 that is not LC_SYMTAB makes the bounded walk find nothing |
| MachO.AsWrittenAgreesUnlessNone | hookObjcMsgSend.py:181-203 | wherever the bounded walk ends with a table or an error, the walk as written ends the same way |
| MachO.LocateAsWrittenAgreesUnlessNone | hookObjcMsgSend.py:164-203 | the same for the whole of find_symtab |
| MachO.AsWrittenReadsPastLastCommand | hookObjcMsgSend.py:181 | with ncmds = 1, the loop as written reads a table past the last command, where the bounded walk finds none |
| MachO.AsWrittenHangsOnZeroSizeCommand | hookObjcMsgSend.py:200-203 | a command of size 0 traps the loop as written, while the bounded walk finds nothing |
| Filter.EverythingSelectsAll | hookObjcMsgSend.py:272-273 | the default policy processes every object member |
| Filter.DenyComplementsAllow | hookObjcMsgSend.py:266-271 | denying a set selects exactly the names that allowing it rejects |
| Filter.AsWrittenIgnoresNeedless | hookObjcMsgSend.py:269-271 | as written, the deny-set plays no part in any policy |
| Filter.AsWrittenProcessesDenied | hookObjcMsgSend.py:270 | as written, a denied member is processed when the allow-set is empty; the intended filter skips it |
| Filter.AsWrittenAgreesOutsideDeny | hookObjcMsgSend.py:266-273 | apart from the deny policy, the filter as written is the intended one |
| Patch.SymbolEntry | hookObjcMsgSend.py:220 | a string-table entry is the name plus three bytes, between NULs |
| Patch.ReplaceAll | hookObjcMsgSend.py:220 | bytes.replace with a replacement as long as the pattern keeps the length |
| Patch.ReplaceSplice | hookObjcMsgSend.py:220 | replace keeps the text before the leftmost occurrence, puts the replacement there and resumes after the occurrence |
| Patch.ReplaceAbsent | hookObjcMsgSend.py:220 | text without an occurrence comes back unchanged |
| Patch.ReplaceByFind | hookObjcMsgSend.py:220 | replace is the identity where find fails, and otherwise splices at the index find returns |
| Patch.ReplaceBySelf | hookObjcMsgSend.py:220 | replacing a pattern by itself changes nothing |
| Patch.UnchangedIffAbsent | hookObjcMsgSend.py:220 | with another replacement of the same length, the text is unchanged exactly when the pattern is absent |
| Patch.StretEntryLacksPattern | hookObjcMsgSend.py:220 | the NUL-delimited pattern does not occur in the entry of objc_msgSend_stret |
| Patch.StretEntryUnchanged | hookObjcMsgSend.py:220 | a table that is just the entry of objc_msgSend_stret is left as it is, whatever the replacement |
| Patch.StretEntryKept | hookObjcMsgSend.py:220 | an objc_msgSend_stret entry anywhere in a table, among any other entries, is still there after the renaming, for any replacement that starts and ends with a NUL |
| Patch.StretOverlap | hookObjcMsgSend.py:220 | an occurrence of the pattern that overlaps a stret entry shares only a NUL with it, at one end or the other |
| Patch.StretIsNotPattern | hookObjcMsgSend.py:220 | the pattern never starts where a stret entry starts |
| Patch.EntryNulsAtEnds | hookObjcMsgSend.py:220 | the entry of a C name holds a NUL only at its two ends |
| Patch.ReplaceKeepsByte | hookObjcMsgSend.py:220 | replace leaves a byte as it is when every occurrence covering it would write that byte back |
| Patch.OccursAtDrop | hookObjcMsgSend.py:220 | the occurrences in a suffix are those of the whole text, shifted |
| Patch.SharedNulRenamesFirstOnly | hookObjcMsgSend.py:220 | of two entries that share a NUL, only the first is renamed |
| Patch.ReplacingKeepsLength | hookObjcMsgSend.py:220 | renaming to a name of equal length keeps the length of every table |
| Patch.PatchedLength | hookObjcMsgSend.py:219-220 | a patched span is as long as the part of it the file holds |
| Patch.PassAtSpan | hookObjcMsgSend.py:217-225 | at the next span the pass outputs the patched span and continues after it with the next span |
| Patch.PassBeforeSpan | hookObjcMsgSend.py:229-239 | before the next span the pass copies up to it, as far as the file goes |
| Patch.PassCopiesRest | hookObjcMsgSend.py:232-239 | with no span ahead, or one already passed, the pass copies the rest of the file |
| Patch.PassLength | hookObjcMsgSend.py:208-241 | the rebuilt file is exactly as long as the original |
| Patch.PatchPass | hookObjcMsgSend.py:208-241 | the loop over the file produces exactly Pass |
| Patch.PassAcrossSpan | hookObjcMsgSend.py:217-239 | across a span inside the file the pass is the gap, the patched span of the same size, then the rest |
| Patch.PassKeepsUncovered | hookObjcMsgSend.py:206-241 | every byte outside all spans is copied unchanged to the same place |
| Patch.PassPatchesEachSpan | hookObjcMsgSend.py:217-222 | with ordered, disjoint spans inside the file, each span's patched bytes stand at that span's place |
| Patch.WellFormedEndsBelow | hookObjcMsgSend.py:212-225 | each of an ordered list of spans lies between its bounds |
| Patch.AsWrittenCopiesRest | hookObjcMsgSend.py:232-239 | once past its span, the loop as written copies the rest and ends |
| Patch.AsWrittenBeforeSpan | hookObjcMsgSend.py:230-239 | before its span, the loop as written copies up to it |
| Patch.AsWrittenAgrees | hookObjcMsgSend.py:208-241 | where the last span is not empty, the loop as written ends with what the pass produces |
| Patch.AsWrittenAgreesFromStart | hookObjcMsgSend.py:208-241 | the same from the loop's initial state, with its fixed replacement |
| Patch.AsWrittenHangsOnEmptySpan | hookObjcMsgSend.py:217-225 | a single empty span inside the file traps the loop as written |
| Patch.PassSkipsEmptySpan | hookObjcMsgSend.py:217-222 | the pass gives the file back unchanged around an empty span |
| Patch.AsWrittenHangsOnEmptyLastSpan | hookObjcMsgSend.py:212-225 | the script's loop hangs on a file whose only table is empty, where the pass returns the file |
| Pipeline.ResolveHeaderDecodes | hookObjcMsgSend.py:120-153 | the corrected decoder puts the data after the header and fails only with a short read, a bad number or a bad long-name length |
| Pipeline.AsWrittenDecodes | hookObjcMsgSend.py:120-153 | the same holds for the decoder as written |
| Pipeline.LocateStringTableLocates | hookObjcMsgSend.py:164-203 | find_symtab reports tables after the member's start and fails only with a short read or the architecture error |
| Pipeline.ScanMember | hookObjcMsgSend.py:313-319 | a member without ".o", or whose name before ".o" the filter rejects, adds nothing. A processed member fails exactly when find_symtab fails, with its error. Otherwise it adds the table find_symtab reports, or nothing when there is none |
| Pipeline.ScanIsTablesOfMembers | hookObjcMsgSend.py:304-319 | the scan succeeds exactly when the header chain does and every member's contribution does, and it is then the members' contributions in chain order |
| Pipeline.TablesSplit | hookObjcMsgSend.py:309-319 | what a list of members adds is what those before a member add, then that member, then those after it; it succeeds exactly when all three do |
| Pipeline.TablesSplitFirst | hookObjcMsgSend.py:309-319 | the same split at the first member |
| Pipeline.TablesSplitLater | hookObjcMsgSend.py:309-319 | the same split at a later member |
| Pipeline.TablesCons | hookObjcMsgSend.py:309-319 | a list of members adds what its first member adds, then what the rest add |
| Pipeline.ScanCollectsProcessedTable | hookObjcMsgSend.py:313-319 | every processed member on the header chain whose walk finds a table has it collected. It stands after the tables of the members before it and before those after it |
| Pipeline.ScanSkipsMember | hookObjcMsgSend.py:313-317 | a member that is not processed, or whose walk finds no LC_SYMTAB, adds nothing to the list |
| Pipeline.ScanStopsOnLocatorError | hookObjcMsgSend.py:172-173 | a failing walk on any processed member of the chain makes the scan fail |
| Pipeline.DefaultProcessesEveryObject | hookObjcMsgSend.py:272-273 | under the default policy, a member goes on to find_symtab exactly when its name has ".o" |
| Pipeline.CollectSpans | hookObjcMsgSend.py:304-319 | the scan loop returns exactly ScanFrom from the first header after the magic |
| Pipeline.ScanSpansFollowHeaders | hookObjcMsgSend.py:309-312 | every collected table lies past the header it was found under |
| Pipeline.ScanWithEmptyAllowList | hookObjcMsgSend.py:266-268 | with the allow-list policy and an empty list, nothing is collected |
| Pipeline.ScanErrors | hookObjcMsgSend.py:305-319 | the scan fails only with the header errors, the find_symtab errors, or a header that does not move forward |
| Pipeline.MemberErrors | hookObjcMsgSend.py:172-173 | a member fails the scan only through find_symtab |
| Pipeline.Execute | hookObjcMsgSend.py:288-323 | the main block, with the findings corrected, returns exactly Run: the name check, the magic check, the scan, then the pass when a table was found |
| Pipeline.RunAfterScan | hookObjcMsgSend.py:322-323 | after the checks, the run is the file unchanged when no table was found, and the pass otherwise |
| Pipeline.RunPassed | hookObjcMsgSend.py:292-298 | a run that succeeds has passed the name and magic checks |
| Pipeline.RenameLengthCheckedFirst | hookObjcMsgSend.py:292-293 | the run stops with the rename-length error exactly when the hook name's length differs from objc_msgSend's |
| Pipeline.MagicChecked | hookObjcMsgSend.py:91-92 | the run rejects the file as not an archive exactly when its first eight bytes are not the magic |
| Pipeline.PatchesOnlyAfterChecks | hookObjcMsgSend.py:322-323 | a run that changes the file passed both checks and collected at least one table |
| Pipeline.RunKeepsLength | hookObjcMsgSend.py:322-323 | the new archive is exactly as long as the old one |
| Pipeline.RunKeepsUncovered | hookObjcMsgSend.py:206-241 | every byte outside the collected tables is left as it is |
| Pipeline.RunRenamesEachTable | hookObjcMsgSend.py:217-222 | each collected table comes out at its own place with every objc_msgSend entry renamed to the hook's |
| Pipeline.RunWithOwnNameChangesNothing | hookObjcMsgSend.py:281-284 | with the hook named objc_msgSend itself, the run gives the file back |
| Patch.PassWithIdentity | hookObjcMsgSend.py:208-241 | with a patch that changes nothing, the pass is a copy of the file |
| Patch.ReplaceWhole | hookObjcMsgSend.py:220 | a pattern replaced in itself becomes the replacement |
| Pipeline.HardCodedHookName | hookObjcMsgSend.py:220 | the loop as written writes "_hook_msgSend" whatever name is configured, unlike the run with the configured name |

## Left out

- Locating the arm64 slice of a fat library with `lipo` is not modelled (lines 61-86). Nor is putting the patched slice back, the path prompt, the file reads and the final write (lines 243-251). The archive is the byte sequence `data`, and the run's result is the new byte sequence.
- `print` and `exit`: an `exit` becomes an `Err` naming why the run stops, and nothing is written in that case.
- UTF-8 decoding of the magic, names and size fields is not modelled. Bytes are compared as bytes. A byte that is not ASCII counts as neither whitespace nor a digit, so a malformed size is `BadNumber` where the script raises a decoding error. A first eight bytes that do not decode is `NotAnArchive`.
- Bytes.ParseInt: accepts ASCII digits only; Python's int() also accepts other Unicode decimal digits and whitespace.
- Pipeline.RenameLengthCheckedFirst: compares byte lengths where the script compares character counts; the two agree for ASCII names.
- Pipeline.ScanFrom: a header whose negative size puts the next header at or before the current one stops the scan with `NoProgress`. The script would instead move back (or stay) and rescan from there, possibly without end.
- MachO.FindSymtab: the `size` argument of `find_symtab` is unused in the script and is left out.
- Filter.Selected: the policy is a `Selection` value. The script selects it by commenting lines in and out.
- Pipeline.CollectSpans: the header decoder and the string-table locator are function parameters. The loop form of the locator, `MachO.FindSymtab`, is proved equal to `LocateStringTable` on its own rather than called from the scan loop.
- Pipeline.Run: models the main block with the findings corrected, not as written. It reads the ten-byte size field (`ResolveHeader`) and walks at most ncmds load commands (`LocateStringTable`). It tests the deny-set under the deny policy (`Selected`) and writes the configured hook name (`Rename`). It copies the rest of the file after an empty last table (`Pass`, `PatchPass`). The parts as written are modelled one by one, and no lemma states the whole run as written.
- Pipeline.RunRenamesEachTable: requires the collected tables to be in order and apart. The scan does not check this, because `stroff` can point anywhere; with overlapping tables the pass copies the rest of the file after the first overlap.
- The dead assignment `step = 4` (line 228) has no counterpart.

## Findings

| source | as written | input that shows it | evidently intended | confidence | as-written member | corrected member |
|---|---|---|---|---|---|---|
| hookObjcMsgSend.py:131-135 | the member size is read from 8 bytes at offset 48 | a member of 123456789 bytes: its size field "123456789 " is read as 12345678, so the next header is looked for in the wrong place | the ar size field is 10 bytes wide (offsets 48-57) | high, not executed | Archive.AsWrittenTruncatesNineDigitSizes | Archive.ShortNameRoundTrip |
| hookObjcMsgSend.py:181-203 | `num_command` is tested but never decremented | a Mach-O with ncmds = 1 whose one command is followed by bytes that read as an LC_SYMTAB: a table is reported that is not a load command | walk at most ncmds commands | high, not executed | MachO.AsWrittenReadsPastLastCommand | MachO.WalkNoneIffChainCompletes |
| hookObjcMsgSend.py:200-203 | a load command of size 0 leaves the offset where it is | a Mach-O with ncmds = 1 whose one command has cmdsize 0: the loop never ends | each command is visited once, within ncmds | high, not executed | MachO.AsWrittenHangsOnZeroSizeCommand | MachO.FindSymtab |
| hookObjcMsgSend.py:270 | the deny policy tests `need_process_objFile` | deny policy with needless = {"Foo"} and need empty: Foo is processed | test `needless_process_objFile` | high, not executed | Filter.AsWrittenProcessesDenied | Filter.DenyComplementsAllow |
| hookObjcMsgSend.py:217-225 | after the last table, (loc, size) keep its values and `pos` advances by size | the only (or last) collected string table has strsize 0: `pos` stays at `loc` and the loop never ends | copy the rest once the last table is done | medium, not executed | Patch.AsWrittenHangsOnEmptyLastSpan | Patch.PassSkipsEmptySpan |
| hookObjcMsgSend.py:220 | the replacement is the literal "\0_hook_msgSend\0" | hook_msgSend_method_name set to another twelve-letter name: the length check passes, yet "_hook_msgSend" is written | write the configured name, which line 292 checks | medium, not executed | Pipeline.HardCodedHookName | Pipeline.RunRenamesEachTable |
