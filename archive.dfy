/** The member headers of a BSD `ar` static archive, as the patching script
    decodes them, and the headers an archiver writes, against which decoding
    is checked.

    A header is 60 bytes: name (16), timestamp (12), owner (6), group (6),
    mode (8), size (10, decimal text padded with spaces) and the terminator
    "`\n" (2). A name too long for its field is stored as "#1/N": the real
    name is the first N bytes of the member's data, and the size counts them. */
module Archive {
  import opened Outcomes
  import opened Bytes

  /** "!<arch>\n", the first eight bytes of every archive. */
  const ArchiveMagic: seq<Byte> := Ascii("!<arch>\n")
  const HeaderSize: nat := 60
  const NameWidth: nat := 16
  /** The size field follows name, timestamp, owner, group and mode. */
  const SizeFieldAt: nat := 48
  /** The width of the size field in the archive format. */
  const SizeWidth: nat := 10
  /** The width of the size field as the script reads it. */
  const SizeWidthAsWritten: nat := 8
  /** Metadata between the name and the size: timestamp, owner, group, mode. */
  const MetaWidth: nat := 32
  const LongNameMarker: seq<Byte> := Ascii("#1/")
  const HeaderEnd: seq<Byte> := Ascii("`\n")

  /** What the script keeps of a header: the member's name, where its data
      starts and how many bytes of data follow. */
  datatype MemberHeader = MemberHeader(name: seq<Byte>, location: nat, size: int)

  /** Decodes the header at `offset`, reading `sizeWidth` bytes of size
      field. Whatever the name, the member ends where the declared size says,
      so the next header is at offset + 60 + declared size. */
  function DecodeHeader(data: seq<Byte>, offset: nat, sizeWidth: nat): (r: Result<MemberHeader>)
    requires sizeWidth <= HeaderSize - SizeFieldAt
    ensures r.Ok? ==> offset + SizeFieldAt + sizeWidth <= |data|
    ensures r.Ok? ==> offset + HeaderSize <= r.value.location
    ensures r.Ok? ==> ParseInt(data[offset + SizeFieldAt..offset + SizeFieldAt + sizeWidth])
                        == Some(r.value.location + r.value.size - offset - HeaderSize)
  {
    if offset + SizeFieldAt + sizeWidth > |data| then Err(ShortRead)
    else match ParseInt(data[offset + SizeFieldAt..offset + SizeFieldAt + sizeWidth])
      case None => Err(BadNumber)
      case Some(declared) => ResolveName(data, offset, declared)
  }

  /** The name part of the header at `offset`, whose size field says
      `declared`. A "#1/N" name is replaced by the N bytes after the header,
      stripped of whitespace; the data then starts N bytes later and is N
      bytes shorter, so it still ends at offset + 60 + declared. */
  function ResolveName(data: seq<Byte>, offset: nat, declared: int): (r: Result<MemberHeader>)
    requires offset + NameWidth <= |data|
    ensures r.Ok? ==> offset + HeaderSize <= r.value.location
    ensures r.Ok? ==> r.value.location + r.value.size == offset + HeaderSize + declared
  {
    var field := data[offset..offset + NameWidth];
    if field[..3] != LongNameMarker then
      Ok(MemberHeader(field, offset + HeaderSize, declared))
    else match ParseInt(field[3..])
      case None => Err(BadNumber)
      case Some(n) =>
        if n < 0 then Err(BadLongNameLength)
        else if offset + HeaderSize + n > |data| then Err(ShortRead)
        else
          var longName := data[offset + HeaderSize..offset + HeaderSize + n];
          Ok(MemberHeader(Strip(longName), offset + HeaderSize + n, declared - n))
  }

  /** The header decoder with the size field read at its full width. */
  function ResolveHeader(data: seq<Byte>, offset: nat): Result<MemberHeader>
  {
    DecodeHeader(data, offset, SizeWidth)
  }

  /** The header decoder as the script has it: eight bytes of size field. */
  function ResolveHeaderAsWritten(data: seq<Byte>, offset: nat): Result<MemberHeader>
  {
    DecodeHeader(data, offset, SizeWidthAsWritten)
  }

  // ---------------------------------------------------------------------
  // Headers as an archiver writes them
  // ---------------------------------------------------------------------

  function PadTo(s: seq<Byte>, w: nat): (r: seq<Byte>)
    requires |s| <= w
    ensures |r| == w
  {
    s + Spaces(w - |s|)
  }

  function EncodeHeader(nameField: seq<Byte>, meta: seq<Byte>, size: nat): (r: seq<Byte>)
    requires |nameField| == NameWidth && |meta| == MetaWidth && size < Pow10(SizeWidth)
    ensures |r| == HeaderSize
  {
    DecimalLength(size, SizeWidth);
    nameField + meta + PadTo(Decimal(size), SizeWidth) + HeaderEnd
  }

  /** A member header whose name fits in the name field. */
  function ShortNameMember(name: seq<Byte>, meta: seq<Byte>, size: nat): (r: seq<Byte>)
    requires |name| <= NameWidth && |meta| == MetaWidth && size < Pow10(SizeWidth)
    ensures |r| == HeaderSize
  {
    EncodeHeader(PadTo(name, NameWidth), meta, size)
  }

  /** A member header using "#1/N", followed by the N bytes of the name. */
  function LongNameMember(name: seq<Byte>, meta: seq<Byte>, size: nat): (r: seq<Byte>)
    requires |meta| == MetaWidth && |name| < Pow10(NameWidth - 3) && size + |name| < Pow10(SizeWidth)
    ensures |r| == HeaderSize + |name|
  {
    EncodeHeader(LongNameField(|name|), meta, size + |name|) + name
  }

  /** The header decoder, once the size field has been read as `declared`. */
  lemma DecodeHeaderParsed(data: seq<Byte>, offset: nat, sizeWidth: nat, declared: int)
    requires sizeWidth <= HeaderSize - SizeFieldAt && offset + SizeFieldAt + sizeWidth <= |data|
    requires ParseInt(data[offset + SizeFieldAt..offset + SizeFieldAt + sizeWidth]) == Some(declared)
    ensures DecodeHeader(data, offset, sizeWidth) == ResolveName(data, offset, declared)
  {
  }

  /** The name part of a header whose name field does not start "#1/". */
  lemma ResolveShortName(data: seq<Byte>, offset: nat, declared: int)
    requires offset + NameWidth <= |data|
    requires data[offset..offset + NameWidth][..3] != LongNameMarker
    ensures ResolveName(data, offset, declared)
            == Ok(MemberHeader(data[offset..offset + NameWidth], offset + HeaderSize, declared))
  {
  }

  /** The name part of a header whose name field reads "#1/N" and whose
      N bytes after the header are a name with no whitespace at either end:
      the name is those bytes, the data starts after them and is N bytes
      shorter than declared. */
  lemma ResolveLongName(data: seq<Byte>, offset: nat, size: int, name: seq<Byte>)
    requires offset + HeaderSize + |name| <= |data|
    requires data[offset..offset + NameWidth][..3] == LongNameMarker
    requires ParseInt(data[offset..offset + NameWidth][3..]) == Some(|name|)
    requires name != [] ==> !IsSpace(name[0]) && !IsSpace(name[|name| - 1])
    requires data[offset + HeaderSize..offset + HeaderSize + |name|] == name
    ensures ResolveName(data, offset, size + |name|)
            == Ok(MemberHeader(name, offset + HeaderSize + |name|, size))
  {
    StripKeeps(name);
  }

  /** The slices of an encoded header that the decoder reads. */
  lemma EncodedFields(data: seq<Byte>, offset: nat, nameField: seq<Byte>, meta: seq<Byte>, size: nat)
    requires |nameField| == NameWidth && |meta| == MetaWidth && size < Pow10(SizeWidth)
    requires offset + HeaderSize <= |data|
    requires data[offset..offset + HeaderSize] == EncodeHeader(nameField, meta, size)
    ensures data[offset..offset + NameWidth] == nameField
    ensures |Decimal(size)| <= SizeWidth
    ensures data[offset + SizeFieldAt..offset + SizeFieldAt + SizeWidth]
            == Decimal(size) + Spaces(SizeWidth - |Decimal(size)|)
  {
    DecimalLength(size, SizeWidth);
    var h := EncodeHeader(nameField, meta, size);
    SliceOfSlice(data, offset, h, 0, NameWidth);
    SliceOfSlice(data, offset, h, SizeFieldAt, SizeFieldAt + SizeWidth);
  }

  /** The size field of an encoded header is read back as the size written. */
  lemma EncodedSizeParses(data: seq<Byte>, offset: nat, nameField: seq<Byte>, meta: seq<Byte>, size: nat)
    requires |nameField| == NameWidth && |meta| == MetaWidth && size < Pow10(SizeWidth)
    requires offset + HeaderSize <= |data|
    requires data[offset..offset + HeaderSize] == EncodeHeader(nameField, meta, size)
    ensures data[offset..offset + NameWidth] == nameField
    ensures DecodeHeader(data, offset, SizeWidth) == ResolveName(data, offset, size)
  {
    EncodedFields(data, offset, nameField, meta, size);
    ParseDecimal(size, SizeWidth - |Decimal(size)|, data[offset + SizeFieldAt..offset + SizeFieldAt + SizeWidth]);
    DecodeHeaderParsed(data, offset, SizeWidth, size);
  }

  /** A name that fits its field, padded with spaces, does not start "#1/"
      unless the name itself does. */
  lemma PaddedNameIsShort(name: seq<Byte>)
    requires |name| <= NameWidth
    requires !(|name| >= 3 && name[..3] == LongNameMarker)
    ensures PadTo(name, NameWidth)[..3] != LongNameMarker
  {
    var field := PadTo(name, NameWidth);
    if |name| >= 3 {
      assert field[..3] == name[..3];
    } else {
      assert field[2] == Space;
      assert LongNameMarker[2] != Space;
    }
  }

  /** Decoding a header whose name fits its field gives back the padded
      name field, the data right after the header, and the size written. */
  lemma ShortNameRoundTrip(data: seq<Byte>, offset: nat, name: seq<Byte>, meta: seq<Byte>, size: nat)
    requires |name| <= NameWidth && |meta| == MetaWidth && size < Pow10(SizeWidth)
    requires !(|name| >= 3 && name[..3] == LongNameMarker)
    requires offset + HeaderSize <= |data|
    requires data[offset..offset + HeaderSize] == ShortNameMember(name, meta, size)
    ensures ResolveHeader(data, offset)
            == Ok(MemberHeader(PadTo(name, NameWidth), offset + HeaderSize, size))
  {
    var field := PadTo(name, NameWidth);
    EncodedSizeParses(data, offset, field, meta, size);
    PaddedNameIsShort(name);
    ResolveShortName(data, offset, size);
  }

  /** The name field "#1/N" padded with spaces, as an archiver writes it. */
  function LongNameField(n: nat): (r: seq<Byte>)
    requires n < Pow10(NameWidth - 3)
    ensures |r| == NameWidth
  {
    DecimalLength(n, NameWidth - 3);
    PadTo(LongNameMarker + Decimal(n), NameWidth)
  }

  /** The field is the marker, the digits of N, then spaces. */
  lemma LongNameFieldParts(n: nat)
    requires n < Pow10(NameWidth - 3)
    ensures |Decimal(n)| <= NameWidth - 3
    ensures LongNameField(n)[..3] == LongNameMarker
    ensures LongNameField(n)[3..] == Decimal(n) + Spaces(NameWidth - 3 - |Decimal(n)|)
  {
    DecimalLength(n, NameWidth - 3);
    var field := LongNameField(n);
    assert field == LongNameMarker + (Decimal(n) + Spaces(NameWidth - 3 - |Decimal(n)|));
  }

  /** The field starts with the marker and int() reads N back from the rest. */
  lemma LongNameFieldParses(n: nat, field: seq<Byte>)
    requires n < Pow10(NameWidth - 3) && field == LongNameField(n)
    ensures field[..3] == LongNameMarker
    ensures ParseInt(field[3..]) == Some(n)
  {
    LongNameFieldParts(n);
    ParseDecimal(n, NameWidth - 3 - |Decimal(n)|, field[3..]);
  }

  /** Decoding a "#1/N" header gives back the name stored after it, the
      data after the name, and the size without the name. */
  lemma LongNameRoundTrip(data: seq<Byte>, offset: nat, name: seq<Byte>, meta: seq<Byte>, size: nat)
    requires |meta| == MetaWidth && |name| < Pow10(NameWidth - 3) && size + |name| < Pow10(SizeWidth)
    requires name != [] ==> !IsSpace(name[0]) && !IsSpace(name[|name| - 1])
    requires offset + HeaderSize + |name| <= |data|
    requires data[offset..offset + HeaderSize + |name|] == LongNameMember(name, meta, size)
    ensures ResolveHeader(data, offset)
            == Ok(MemberHeader(name, offset + HeaderSize + |name|, size))
  {
    LongNameMemberParts(data, offset, name, meta, size);
    LongNameHeaderDecodes(data, offset, name, meta, size);
  }

  /** A "#1/N" header declaring `size` + N bytes, followed by its name,
      decodes to that name with `size` bytes of data. */
  lemma LongNameHeaderDecodes(data: seq<Byte>, offset: nat, name: seq<Byte>, meta: seq<Byte>, size: nat)
    requires |meta| == MetaWidth && |name| < Pow10(NameWidth - 3) && size + |name| < Pow10(SizeWidth)
    requires name != [] ==> !IsSpace(name[0]) && !IsSpace(name[|name| - 1])
    requires offset + HeaderSize + |name| <= |data|
    requires data[offset..offset + HeaderSize] == EncodeHeader(LongNameField(|name|), meta, size + |name|)
    requires data[offset + HeaderSize..offset + HeaderSize + |name|] == name
    ensures ResolveHeader(data, offset) == Ok(MemberHeader(name, offset + HeaderSize + |name|, size))
  {
    var declared := size + |name|;
    EncodedSizeParses(data, offset, LongNameField(|name|), meta, declared);
    LongNameFieldParses(|name|, data[offset..offset + NameWidth]);
    ResolveLongName(data, offset, size, name);
    assert ResolveHeader(data, offset) == DecodeHeader(data, offset, SizeWidth);
  }

  /** Where a "#1/N" member lies, its header and its name lie in turn. */
  lemma LongNameMemberParts(data: seq<Byte>, offset: nat, name: seq<Byte>, meta: seq<Byte>, size: nat)
    requires |meta| == MetaWidth && |name| < Pow10(NameWidth - 3) && size + |name| < Pow10(SizeWidth)
    requires offset + HeaderSize + |name| <= |data|
    requires data[offset..offset + HeaderSize + |name|] == LongNameMember(name, meta, size)
    ensures data[offset..offset + HeaderSize] == EncodeHeader(LongNameField(|name|), meta, size + |name|)
    ensures data[offset + HeaderSize..offset + HeaderSize + |name|] == name
  {
    var h := EncodeHeader(LongNameField(|name|), meta, size + |name|);
    var m := LongNameMember(name, meta, size);
    assert m == h + name;
    SliceOfSlice(data, offset, m, 0, HeaderSize);
    assert m[..HeaderSize] == h;
    SliceOfSlice(data, offset, m, HeaderSize, HeaderSize + |name|);
    assert m[HeaderSize..] == name;
  }

  // ---------------------------------------------------------------------
  // The eight-byte size read
  // ---------------------------------------------------------------------

  lemma StripTrailingSpaces(s: seq<Byte>, post: seq<Byte>)
    requires forall k :: 0 <= k < |post| ==> IsSpace(post[k])
    ensures Strip(s + post) == Strip(s)
  {
    var core := Strip(s);
    StripSpec(s);
    var i := |s| - |TrimStart(s)|;
    var pre, rest := s[..i], s[i + |core|..];
    assert s == pre + core + rest;
    StripAround(pre, core, rest);
    assert s + post == pre + core + (rest + post);
    StripAround(pre, core, rest + post);
  }

  /** Where the last two bytes of the size field are whitespace, as they are
      for every size below 10^8, reading eight bytes decodes the same header
      as reading ten. */
  lemma AsWrittenAgreesOnShortSizes(data: seq<Byte>, offset: nat)
    requires offset + SizeFieldAt + SizeWidth <= |data|
    requires IsSpace(data[offset + 56]) && IsSpace(data[offset + 57])
    ensures ResolveHeaderAsWritten(data, offset) == ResolveHeader(data, offset)
  {
    var at := offset + SizeFieldAt;
    assert data[at..at + SizeWidth] == data[at..at + SizeWidthAsWritten] + data[at + 8..at + 10];
    StripTrailingSpaces(data[at..at + SizeWidthAsWritten], data[at + 8..at + 10]);
  }

  /** A member of 10^8 to 10^9 - 1 bytes has a nine-digit size; reading
      eight bytes of it drops the last digit. */
  lemma AsWrittenTruncatesNineDigitSizes(data: seq<Byte>, offset: nat, name: seq<Byte>, meta: seq<Byte>, size: nat)
    requires |name| <= NameWidth && |meta| == MetaWidth
    requires Pow10(8) <= size < Pow10(9)
    requires !(|name| >= 3 && name[..3] == LongNameMarker)
    requires offset + HeaderSize <= |data|
    requires data[offset..offset + HeaderSize] == ShortNameMember(name, meta, size)
    ensures ResolveHeaderAsWritten(data, offset)
            == Ok(MemberHeader(PadTo(name, NameWidth), offset + HeaderSize, size / 10))
    ensures ResolveHeader(data, offset)
            == Ok(MemberHeader(PadTo(name, NameWidth), offset + HeaderSize, size))
  {
    assert Pow10(9) <= Pow10(SizeWidth);
    ShortNameRoundTrip(data, offset, name, meta, size);
    EightDigitsRead(data, offset, PadTo(name, NameWidth), meta, size);
    PaddedNameIsShort(name);
    ResolveShortName(data, offset, size / 10);
  }

  /** Eight bytes of a nine-digit size field read as the size without its
      last digit. */
  lemma EightDigitsRead(data: seq<Byte>, offset: nat, nameField: seq<Byte>, meta: seq<Byte>, size: nat)
    requires |nameField| == NameWidth && |meta| == MetaWidth
    requires Pow10(8) <= size < Pow10(9) <= Pow10(SizeWidth)
    requires offset + HeaderSize <= |data|
    requires data[offset..offset + HeaderSize] == EncodeHeader(nameField, meta, size)
    ensures DecodeHeader(data, offset, SizeWidthAsWritten) == ResolveName(data, offset, size / 10)
  {
    EncodedFields(data, offset, nameField, meta, size);
    var d := Decimal(size);
    DecimalLength(size, 9);
    DecimalLength(size, 8);
    DecimalDropsLast(size);
    var at := offset + SizeFieldAt;
    var field := d + Spaces(1);
    SliceOfSlice(data, at, field, 0, SizeWidthAsWritten);
    assert field[..SizeWidthAsWritten] == Decimal(size / 10) + Spaces(0);
    ParseDecimal(size / 10, 0, data[at..at + SizeWidthAsWritten]);
    DecodeHeaderParsed(data, offset, SizeWidthAsWritten, size / 10);
  }
}
