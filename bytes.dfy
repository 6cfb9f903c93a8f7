/** Byte-level reading the patching script does through Python's struct,
    bytes.decode, str.strip, str.find and int(): little-endian 32-bit fields,
    ASCII decimal numbers, and substring search. Text is handled as its bytes;
    the whitespace and digits recognised are the ASCII ones. */
module Bytes {
  import opened Outcomes

  type Byte = b: int | 0 <= b < 256

  const Space: Byte := 0x20
  const Plus: Byte := 0x2B
  const Minus: Byte := 0x2D
  const Underscore: Byte := 0x5F

  function Min(a: int, b: int): int { if a <= b then a else b }

  function Pow10(k: nat): (r: nat)
    ensures r >= 1
  {
    if k == 0 then 1 else 10 * Pow10(k - 1)
  }

  /** The byte codes of an ASCII text. */
  function Ascii(s: string): (r: seq<Byte>)
    requires forall i :: 0 <= i < |s| ==> s[i] as int < 128
    ensures |r| == |s|
  {
    seq(|s|, i requires 0 <= i < |s| => s[i] as int)
  }

  function Spaces(k: nat): (r: seq<Byte>)
    ensures |r| == k
  {
    seq(k, _ => Space)
  }

  /** Where `h` lies at `offset` in `data`, every slice of `h` lies there too. */
  lemma SliceOfSlice(data: seq<Byte>, offset: nat, h: seq<Byte>, a: nat, b: nat)
    requires offset + |h| <= |data| && data[offset..offset + |h|] == h
    requires a <= b <= |h|
    ensures data[offset + a..offset + b] == h[a..b]
  {
    forall k | 0 <= k < b - a
      ensures data[offset + a..offset + b][k] == h[a..b][k]
    {
      assert h[a + k] == data[offset..offset + |h|][a + k];
    }
  }

  // ---------------------------------------------------------------------
  // Little-endian 32-bit fields (struct format 'I' on a little-endian host)
  // ---------------------------------------------------------------------

  /** The unsigned 32-bit integer stored little-endian at `at`; None when
      fewer than four bytes remain there, where the read comes up short and
      the unpack fails. */
  function U32At(data: seq<Byte>, at: nat): (r: Option<nat>)
    ensures r.Some? <==> at + 4 <= |data|
    ensures r.Some? ==> r.value < 0x1_0000_0000
  {
    if at + 4 <= |data| then
      Some(data[at] as int + 0x100 * (data[at + 1] as int) + 0x1_0000 * (data[at + 2] as int)
           + 0x100_0000 * (data[at + 3] as int))
    else None
  }

  /** The four bytes that store `v` little-endian. */
  function Le32(v: nat): (r: seq<Byte>)
    requires v < 0x1_0000_0000
    ensures |r| == 4
  {
    [v % 0x100, v / 0x100 % 0x100, v / 0x1_0000 % 0x100, v / 0x100_0000]
  }

  /** Reading back four bytes written by Le32 gives the value written. */
  lemma U32RoundTrip(v: nat, data: seq<Byte>, at: nat)
    requires v < 0x1_0000_0000
    requires at + 4 <= |data| && data[at..at + 4] == Le32(v)
    ensures U32At(data, at) == Some(v)
  {
    var b := Le32(v);
    assert data[at] == b[0] && data[at + 1] == b[1] && data[at + 2] == b[2] && data[at + 3] == b[3];
    Le32Digits(v);
  }

  /** The base-256 digits of a 32-bit value add back up to it. */
  lemma Le32Digits(v: nat)
    requires v < 0x1_0000_0000
    ensures v == v % 0x100 + 0x100 * (v / 0x100 % 0x100) + 0x1_0000 * (v / 0x1_0000 % 0x100)
                 + 0x100_0000 * (v / 0x100_0000)
  {
    assert v / 0x100 == v / 0x100 % 0x100 + 0x100 * (v / 0x1_0000);
    assert v / 0x1_0000 == v / 0x1_0000 % 0x100 + 0x100 * (v / 0x100_0000);
  }

  /** 32-bit words stored one after another, little-endian. */
  function Words(ws: seq<nat>): (r: seq<Byte>)
    requires forall k :: 0 <= k < |ws| ==> ws[k] < 0x1_0000_0000
    ensures |r| == 4 * |ws|
  {
    if ws == [] then [] else Le32(ws[0]) + Words(ws[1..])
  }

  /** Word `k` of a run of words lies at 4 * k. */
  lemma {:induction false} WordSlice(ws: seq<nat>, k: nat)
    requires forall k :: 0 <= k < |ws| ==> ws[k] < 0x1_0000_0000
    requires k < |ws|
    ensures Words(ws)[4 * k..4 * k + 4] == Le32(ws[k])
  {
    var w := Words(ws);
    if k > 0 {
      var rest := Words(ws[1..]);
      WordSlice(ws[1..], k - 1);
      assert w[4..4 + |rest|] == rest;
      SliceOfSlice(w, 4, rest, 4 * (k - 1), 4 * k);
    }
  }

  /** Word `k` of a run of words is read back at 4 * k. */
  lemma WordAt(ws: seq<nat>, k: nat)
    requires forall k :: 0 <= k < |ws| ==> ws[k] < 0x1_0000_0000
    requires k < |ws|
    ensures U32At(Words(ws), 4 * k) == Some(ws[k])
  {
    WordSlice(ws, k);
    U32RoundTrip(ws[k], Words(ws), 4 * k);
  }

  // ---------------------------------------------------------------------
  // str.strip() and int() on ASCII text
  // ---------------------------------------------------------------------

  /** The ASCII characters Python counts as whitespace: tab, line feed,
      vertical tab, form feed, carriage return, the separators 0x1C-0x1F and
      space. */
  predicate IsSpace(b: Byte) { 0x09 <= b <= 0x0D || 0x1C <= b <= 0x20 }

  predicate IsDigit(b: Byte) { 0x30 <= b <= 0x39 }

  /** `s` without its leading whitespace. */
  function TrimStart(s: seq<Byte>): (r: seq<Byte>)
    ensures |r| <= |s|
  {
    if s != [] && IsSpace(s[0]) then TrimStart(s[1..]) else s
  }

  /** `s` without its trailing whitespace. */
  function TrimEnd(s: seq<Byte>): (r: seq<Byte>)
    ensures |r| <= |s|
  {
    if s != [] && IsSpace(s[|s| - 1]) then TrimEnd(s[..|s| - 1]) else s
  }

  /** TrimStart removes a run of whitespace and stops at the first byte
      that is not whitespace. */
  lemma {:induction false} TrimStartSpec(s: seq<Byte>)
    ensures TrimStart(s) == s[|s| - |TrimStart(s)|..]
    ensures forall i :: 0 <= i < |s| - |TrimStart(s)| ==> IsSpace(s[i])
    ensures TrimStart(s) != [] ==> !IsSpace(TrimStart(s)[0])
  {
    if s != [] && IsSpace(s[0]) {
      TrimStartSpec(s[1..]);
    }
  }

  /** TrimEnd removes a run of whitespace and stops at the last byte that
      is not whitespace. */
  lemma {:induction false} TrimEndSpec(s: seq<Byte>)
    ensures TrimEnd(s) == s[..|TrimEnd(s)|]
    ensures forall i :: |TrimEnd(s)| <= i < |s| ==> IsSpace(s[i])
    ensures TrimEnd(s) != [] ==> !IsSpace(TrimEnd(s)[|TrimEnd(s)| - 1])
  {
    if s != [] && IsSpace(s[|s| - 1]) {
      TrimEndSpec(s[..|s| - 1]);
    }
  }

  /** `s` is `r` placed at index `i` with nothing but whitespace around it. */
  predicate SpaceFramed(s: seq<Byte>, i: int, r: seq<Byte>) {
    && 0 <= i <= |s| - |r| && r == s[i..i + |r|]
    && (forall k :: 0 <= k < i ==> IsSpace(s[k]))
    && (forall k :: i + |r| <= k < |s| ==> IsSpace(s[k]))
  }

  /** str.strip(): `s` with the whitespace at both ends removed. */
  function Strip(s: seq<Byte>): (r: seq<Byte>)
    ensures |r| <= |s|
  {
    TrimEnd(TrimStart(s))
  }

  /** What Strip keeps is a slice of its input with only whitespace around
      it, and neither of its ends is whitespace. */
  lemma StripSpec(s: seq<Byte>)
    ensures SpaceFramed(s, |s| - |TrimStart(s)|, Strip(s))
    ensures Strip(s) != [] ==> !IsSpace(Strip(s)[0]) && !IsSpace(Strip(s)[|Strip(s)| - 1])
  {
    var t := TrimStart(s);
    var r := TrimEnd(t);
    TrimStartSpec(s);
    TrimEndSpec(t);
    assert Strip(s) == r;
    PrefixOfTail(s, |s| - |t|, t, r);
    if r != [] {
      assert r[0] == t[0];
    }
  }

  /** A prefix `r` of the tail `t` of `s` from `i`, with only whitespace
      after it in `t`, lies in `s` at `i` with only whitespace after it. */
  lemma PrefixOfTail(s: seq<Byte>, i: nat, t: seq<Byte>, r: seq<Byte>)
    requires i <= |s| && t == s[i..] && |r| <= |t| && r == t[..|r|]
    requires forall k :: |r| <= k < |t| ==> IsSpace(t[k])
    ensures i + |r| <= |s| && r == s[i..i + |r|]
    ensures forall k :: i + |r| <= k < |s| ==> IsSpace(s[k])
  {
    assert s[i..i + |r|] == t[..|r|];
    forall k | i + |r| <= k < |s|
      ensures IsSpace(s[k])
    {
      assert s[k] == t[k - i];
    }
  }

  /** Whitespace around text whose ends are not whitespace is exactly what
      Strip removes. */
  lemma StripAround(pre: seq<Byte>, core: seq<Byte>, post: seq<Byte>)
    requires forall k :: 0 <= k < |pre| ==> IsSpace(pre[k])
    requires forall k :: 0 <= k < |post| ==> IsSpace(post[k])
    requires core != [] ==> !IsSpace(core[0]) && !IsSpace(core[|core| - 1])
    ensures Strip(pre + core + post) == core
  {
    var s := pre + core + post;
    StripSpec(s);
    if core != [] {
      assert s[|pre|] == core[0];
      assert s[|pre| + |core| - 1] == core[|core| - 1];
    }
  }

  /** The body int() accepts after the sign: digits, with single underscores
      allowed between two digits. */
  predicate IsDigitRun(t: seq<Byte>) {
    && |t| > 0 && IsDigit(t[0]) && IsDigit(t[|t| - 1])
    && (forall i :: 0 <= i < |t| ==> IsDigit(t[i]) || t[i] == Underscore)
    && SingleUnderscores(t)
  }

  /** No two underscores stand next to each other. */
  predicate SingleUnderscores(t: seq<Byte>) {
    |t| < 2 || ((t[0] != Underscore || t[1] != Underscore) && SingleUnderscores(t[1..]))
  }

  lemma {:induction false} DigitsHaveSingleUnderscores(t: seq<Byte>)
    requires forall i :: 0 <= i < |t| ==> IsDigit(t[i])
    ensures SingleUnderscores(t)
  {
    if |t| >= 2 {
      DigitsHaveSingleUnderscores(t[1..]);
    }
  }

  /** The number a digit run spells, underscores ignored. */
  function DigitsValue(t: seq<Byte>): nat
    requires forall i :: 0 <= i < |t| ==> IsDigit(t[i]) || t[i] == Underscore
  {
    if t == [] then 0
    else if t[|t| - 1] == Underscore then DigitsValue(t[..|t| - 1])
    else
      var d := t[|t| - 1];
      assert IsDigit(d) || d == Underscore;
      10 * DigitsValue(t[..|t| - 1]) + (d - 0x30)
  }

  /** int(text) for base-10 text: surrounding whitespace, an optional sign,
      and a digit run; None where int() raises ValueError. */
  function ParseInt(s: seq<Byte>): Option<int>
  {
    var t := Strip(s);
    if |t| > 0 && (t[0] == Plus || t[0] == Minus) then
      if IsDigitRun(t[1..]) then
        Some(if t[0] == Minus then -(DigitsValue(t[1..]) as int) else DigitsValue(t[1..]))
      else None
    else if IsDigitRun(t) then Some(DigitsValue(t))
    else None
  }

  /** str(n): the decimal digits of `n`, as an archiver writes a size. */
  function Decimal(n: nat): (r: seq<Byte>)
    ensures |r| > 0 && forall i :: 0 <= i < |r| ==> IsDigit(r[i])
  {
    if n < 10 then [0x30 + n] else Decimal(n / 10) + [0x30 + n % 10]
  }

  lemma {:induction false} DecimalValue(n: nat)
    ensures DigitsValue(Decimal(n)) == n
  {
    if n >= 10 {
      var d := Decimal(n);
      assert d[..|d| - 1] == Decimal(n / 10);
      DecimalValue(n / 10);
    }
  }

  /** Without its last digit, the decimal form of `n` is that of n / 10. */
  lemma DecimalDropsLast(n: nat)
    requires n >= 10
    ensures Decimal(n)[..|Decimal(n)| - 1] == Decimal(n / 10)
  {
    var d := Decimal(n);
    assert d == Decimal(n / 10) + [0x30 + n % 10];
  }

  /** The decimal form of `n` fits in `k` characters exactly when n < 10^k. */
  lemma {:induction false} DecimalLength(n: nat, k: nat)
    requires k > 0
    ensures |Decimal(n)| <= k <==> n < Pow10(k)
  {
    if n >= 10 {
      if k == 1 {
        assert Pow10(1) == 10;
      } else {
        DecimalLength(n / 10, k - 1);
      }
    }
  }

  /** Text whose ends are not whitespace is left as it is by Strip. */
  lemma StripKeeps(core: seq<Byte>)
    requires core != [] ==> !IsSpace(core[0]) && !IsSpace(core[|core| - 1])
    ensures Strip(core) == core
  {
    assert core == [] + core + [];
    StripAround([], core, []);
  }

  /** int() reads back the decimal form of `n` padded with trailing spaces,
      as an archive header stores it. */
  lemma ParseDecimal(n: nat, pad: nat, field: seq<Byte>)
    requires field == Decimal(n) + Spaces(pad)
    ensures ParseInt(field) == Some(n)
  {
    var d := Decimal(n);
    assert field == [] + d + Spaces(pad);
    StripAround([], d, Spaces(pad));
    assert Strip(field) == d;
    assert IsDigit(d[0]) && d[0] != Plus && d[0] != Minus;
    DigitsHaveSingleUnderscores(d);
    assert IsDigitRun(d);
    DecimalValue(n);
  }

  // ---------------------------------------------------------------------
  // str.find
  // ---------------------------------------------------------------------

  /** `pat` occurs in `s` at index `i`. */
  predicate OccursAt(s: seq<Byte>, pat: seq<Byte>, i: int) {
    0 <= i && i + |pat| <= |s| && s[i..i + |pat|] == pat
  }

  function FindFrom(s: seq<Byte>, pat: seq<Byte>, from: nat): (r: Option<nat>)
    ensures r.Some? ==> from <= r.value && OccursAt(s, pat, r.value)
    ensures r.Some? ==> forall i :: from <= i < r.value ==> !OccursAt(s, pat, i)
    ensures r.None? ==> forall i :: from <= i ==> !OccursAt(s, pat, i)
    decreases |s| - from
  {
    if from + |pat| > |s| then None
    else if s[from..from + |pat|] == pat then Some(from)
    else FindFrom(s, pat, from + 1)
  }

  /** str.find: the index of the leftmost occurrence of `pat` in `s`; None
      where find returns -1. */
  function Find(s: seq<Byte>, pat: seq<Byte>): (r: Option<nat>)
    ensures r.Some? ==> OccursAt(s, pat, r.value)
    ensures r.Some? ==> forall i :: 0 <= i < r.value ==> !OccursAt(s, pat, i)
    ensures r.None? ==> forall i :: !OccursAt(s, pat, i)
  {
    FindFrom(s, pat, 0)
  }
}
