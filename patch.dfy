/** The patch pass: one forward pass over the archive that copies every byte
    and, inside each recorded string table, renames the selector-dispatch
    symbol. A string table is a run of NUL-terminated names, so the entry
    "_objc_msgSend" shows as the bytes NUL, "_objc_msgSend", NUL; the name
    that replaces it has the same length, so no offset in the file moves. */
module Patch {
  import opened Outcomes
  import opened Bytes
  import opened MachO

  /** The C name whose calls are redirected. */
  const ObjcName: seq<Byte> := Ascii("objc_msgSend")
  /** The C name of the hook the calls are redirected to. */
  const HookName: seq<Byte> := Ascii("hook_msgSend")

  /** A string-table entry for the C function `name`: the NUL ending the
      previous entry, the linker name "_" + name, and its terminating NUL. */
  function SymbolEntry(name: seq<Byte>): (r: seq<Byte>)
    ensures |r| == |name| + 3 && r[0] == 0 && r[|r| - 1] == 0
  {
    [0, Underscore] + name + [0]
  }

  const ObjcMsgSend: seq<Byte> := SymbolEntry(ObjcName)
  const HookMsgSend: seq<Byte> := SymbolEntry(HookName)

  // ---------------------------------------------------------------------
  // bytes.replace
  // ---------------------------------------------------------------------

  /** bytes.replace: every occurrence of `pat` found scanning left to right,
      each search resuming after the previous replacement, becomes `rep`. */
  function ReplaceAll(s: seq<Byte>, pat: seq<Byte>, rep: seq<Byte>): (r: seq<Byte>)
    requires |pat| > 0
    ensures |pat| == |rep| ==> |r| == |s|
    decreases |s|
  {
    if |s| < |pat| then s
    else if s[..|pat|] == pat then rep + ReplaceAll(s[|pat|..], pat, rep)
    else [s[0]] + ReplaceAll(s[1..], pat, rep)
  }

  /** The occurrences of `pat` in `s` after its first byte are those in s[1..]. */
  lemma OccursAtTail(s: seq<Byte>, pat: seq<Byte>, j: nat)
    requires |s| > 0
    ensures OccursAt(s[1..], pat, j) <==> OccursAt(s, pat, j + 1)
  {
    if j + 1 + |pat| <= |s| {
      assert s[1..][j..j + |pat|] == s[j + 1..j + 1 + |pat|];
    }
  }

  /** No occurrence before `i` in `s` means none before i - 1 in s[1..]. */
  lemma NoEarlierInTail(s: seq<Byte>, pat: seq<Byte>, i: nat)
    requires |s| > 0 && i > 0
    requires forall j :: 0 <= j < i ==> !OccursAt(s, pat, j)
    ensures forall j :: 0 <= j < i - 1 ==> !OccursAt(s[1..], pat, j)
  {
    forall j | 0 <= j < i - 1
      ensures !OccursAt(s[1..], pat, j)
    {
      OccursAtTail(s, pat, j);
    }
  }

  /** Without an occurrence at its start, the first byte is kept. */
  lemma ReplaceSkipsFirst(s: seq<Byte>, pat: seq<Byte>, rep: seq<Byte>)
    requires |pat| > 0 && |s| > |pat| && !OccursAt(s, pat, 0)
    ensures ReplaceAll(s, pat, rep) == [s[0]] + ReplaceAll(s[1..], pat, rep)
  {
  }

  /** Putting back the first byte in front of a splice of the rest. */
  lemma SpliceAfterFirst(s: seq<Byte>, i: nat, mid: seq<Byte>, after: seq<Byte>)
    requires 0 < i <= |s|
    ensures [s[0]] + (s[1..][..i - 1] + mid + after) == s[..i] + mid + after
  {
    assert s[..i] == [s[0]] + s[1..][..i - 1];
  }

  /** The text before the leftmost occurrence is kept, the occurrence is
      replaced, and the search resumes right after it. */
  lemma {:induction false} ReplaceSplice(s: seq<Byte>, pat: seq<Byte>, rep: seq<Byte>, i: nat)
    requires |pat| > 0 && OccursAt(s, pat, i)
    requires forall j :: 0 <= j < i ==> !OccursAt(s, pat, j)
    ensures ReplaceAll(s, pat, rep) == s[..i] + rep + ReplaceAll(s[i + |pat|..], pat, rep)
    decreases |s|, 1
  {
    if i == 0 {
      ReplaceSpliceAtStart(s, pat, rep);
    } else {
      ReplaceSpliceLater(s, pat, rep, i);
    }
  }

  /** The base case of ReplaceSplice: an occurrence at the very start. */
  lemma ReplaceSpliceAtStart(s: seq<Byte>, pat: seq<Byte>, rep: seq<Byte>)
    requires |pat| > 0 && OccursAt(s, pat, 0)
    ensures ReplaceAll(s, pat, rep) == s[..0] + rep + ReplaceAll(s[|pat|..], pat, rep)
  {
    assert s[..|pat|] == pat;
    assert s[..0] + rep == rep;
  }

  /** The step of ReplaceSplice: the first byte is kept, and the splice
      in s[1..] is the rest. */
  lemma {:induction false} ReplaceSpliceLater(s: seq<Byte>, pat: seq<Byte>, rep: seq<Byte>, i: nat)
    requires |pat| > 0 && 0 < i && OccursAt(s, pat, i)
    requires forall j :: 0 <= j < i ==> !OccursAt(s, pat, j)
    ensures ReplaceAll(s, pat, rep) == s[..i] + rep + ReplaceAll(s[i + |pat|..], pat, rep)
    decreases |s|, 0
  {
    var t := s[1..];
    assert !OccursAt(s, pat, 0);
    NoEarlierInTail(s, pat, i);
    OccursAtTail(s, pat, i - 1);
    ReplaceSplice(t, pat, rep, i - 1);
    var after := ReplaceAll(s[i + |pat|..], pat, rep);
    assert t[i - 1 + |pat|..] == s[i + |pat|..];
    assert ReplaceAll(t, pat, rep) == t[..i - 1] + rep + after;
    ReplaceSkipsFirst(s, pat, rep);
    assert ReplaceAll(s, pat, rep) == [s[0]] + (t[..i - 1] + rep + after);
    SpliceAfterFirst(s, i, rep, after);
  }

  /** Text without an occurrence is returned unchanged. */
  lemma {:induction false} ReplaceAbsent(s: seq<Byte>, pat: seq<Byte>, rep: seq<Byte>)
    requires |pat| > 0
    requires forall j :: 0 <= j ==> !OccursAt(s, pat, j)
    ensures ReplaceAll(s, pat, rep) == s
    decreases |s|
  {
    if |s| >= |pat| {
      assert !OccursAt(s, pat, 0);
      forall j | 0 <= j
        ensures !OccursAt(s[1..], pat, j)
      {
        OccursAtTail(s, pat, j);
      }
      ReplaceAbsent(s[1..], pat, rep);
    }
  }

  /** bytes.replace in terms of find: nothing to do where find fails;
      otherwise splice the replacement in at the index find returns and
      carry on after the occurrence. */
  lemma ReplaceByFind(s: seq<Byte>, pat: seq<Byte>, rep: seq<Byte>)
    requires |pat| > 0
    ensures Find(s, pat).None? ==> ReplaceAll(s, pat, rep) == s
    ensures Find(s, pat).Some? ==>
              var i := Find(s, pat).value;
              ReplaceAll(s, pat, rep) == s[..i] + rep + ReplaceAll(s[i + |pat|..], pat, rep)
  {
    var found := Find(s, pat);
    if found.None? {
      ReplaceAbsent(s, pat, rep);
    } else {
      ReplaceSplice(s, pat, rep, found.value);
    }
  }

  /** Replacing a pattern by itself changes nothing. */
  lemma {:induction false} ReplaceBySelf(s: seq<Byte>, pat: seq<Byte>)
    requires |pat| > 0
    ensures ReplaceAll(s, pat, pat) == s
    decreases |s|
  {
    if |s| >= |pat| {
      if s[..|pat|] == pat {
        ReplaceBySelf(s[|pat|..], pat);
        assert s == s[..|pat|] + s[|pat|..];
      } else {
        ReplaceBySelf(s[1..], pat);
      }
    }
  }

  /** A pattern replaced in itself is the replacement. */
  lemma ReplaceWhole(pat: seq<Byte>, rep: seq<Byte>)
    requires |pat| > 0
    ensures ReplaceAll(pat, pat, rep) == rep
  {
    assert pat[..|pat|] == pat;
    assert pat[|pat|..] == [];
    assert rep + [] == rep;
  }

  /** With a different replacement of the same length, the text comes back
      unchanged exactly when the pattern does not occur in it. */
  lemma UnchangedIffAbsent(s: seq<Byte>, pat: seq<Byte>, rep: seq<Byte>)
    requires |pat| > 0 && |rep| == |pat| && rep != pat
    ensures ReplaceAll(s, pat, rep) == s <==> forall j :: 0 <= j ==> !OccursAt(s, pat, j)
  {
    match Find(s, pat)
    case None => ReplaceAbsent(s, pat, rep);
    case Some(i) =>
      ReplaceSplice(s, pat, rep, i);
      var r := ReplaceAll(s, pat, rep);
      assert r[i..i + |pat|] == rep;
      assert s[i..i + |pat|] == pat;
  }

  // ---------------------------------------------------------------------
  // The string-table entries the pass meets
  // ---------------------------------------------------------------------

  /** The entry of the struct-return variant, whose name extends the one
      the pass looks for. */
  const StretEntry: seq<Byte> := SymbolEntry(Ascii("objc_msgSend_stret"))

  /** A table holding "_objc_msgSend_stret" is left as it is: the byte after
      "msgSend" there is "_", not the NUL the pattern needs. */
  lemma StretEntryUnchanged(rep: seq<Byte>)
    requires |rep| == |ObjcMsgSend|
    ensures ReplaceAll(StretEntry, ObjcMsgSend, rep) == StretEntry
  {
    StretEntryLacksPattern();
    ReplaceAbsent(StretEntry, ObjcMsgSend, rep);
  }

  /** "\0_objc_msgSend\0" occurs nowhere in "\0_objc_msgSend_stret\0". */
  lemma StretEntryLacksPattern()
    ensures forall j :: 0 <= j ==> !OccursAt(StretEntry, ObjcMsgSend, j)
  {
    var t := StretEntry;
    assert t[1] == Underscore && t[2] == 'o' as int && t[3] == 'b' as int;
    assert t[4] == 'j' as int && t[5] == 'c' as int && t[6] == Underscore;
    assert t[14] == Underscore;
    forall j | 0 <= j
      ensures !OccursAt(t, ObjcMsgSend, j)
    {
      if j == 0 {
        Mismatch(t, ObjcMsgSend, 0, 14);
      } else if j + |ObjcMsgSend| <= |t| {
        Mismatch(t, ObjcMsgSend, j, 0);
      }
    }
  }

  /** A stret entry anywhere in a table survives the renaming, whatever
      surrounds it, when the replacement begins and ends with a NUL as every
      entry does: an occurrence of the pattern can overlap the stret entry
      only on one of its two NULs, and the replacement writes a NUL back. */
  lemma StretEntryKept(s: seq<Byte>, i: nat, rep: seq<Byte>)
    requires OccursAt(s, StretEntry, i)
    requires |rep| == |ObjcMsgSend| && rep[0] == 0 && rep[|rep| - 1] == 0
    ensures OccursAt(ReplaceAll(s, ObjcMsgSend, rep), StretEntry, i)
  {
    var r := ReplaceAll(s, ObjcMsgSend, rep);
    var n := |StretEntry|;
    assert s[i..i + n] == StretEntry;
    assert s[i] == StretEntry[0] && s[i + n - 1] == StretEntry[n - 1];
    forall m | i <= m < i + n
      ensures r[m] == s[m]
    {
      forall j | OccursAt(s, ObjcMsgSend, j) && j <= m < j + |ObjcMsgSend|
        ensures rep[m - j] == s[m]
      {
        StretOverlap(s, i, j);
      }
      ReplaceKeepsByte(s, ObjcMsgSend, rep, m);
    }
    assert r[i..i + n] == s[i..i + n];
  }

  /** An occurrence of "\0_objc_msgSend\0" that overlaps one of
      "\0_objc_msgSend_stret\0" shares exactly one NUL with it: its last with
      the entry's first, or its first with the entry's last. */
  lemma StretOverlap(s: seq<Byte>, i: nat, j: nat)
    requires OccursAt(s, StretEntry, i) && OccursAt(s, ObjcMsgSend, j)
    requires j < i + |StretEntry| && i < j + |ObjcMsgSend|
    ensures j + |ObjcMsgSend| - 1 == i || j == i + |StretEntry| - 1
  {
    EntryNulsAtEnds("objc_msgSend");
    EntryNulsAtEnds("objc_msgSend_stret");
    var p, t := ObjcMsgSend, StretEntry;
    assert s[j..j + |p|] == p && s[i..i + |t|] == t;
    StretIsNotPattern(s, i);
    if j >= i {
      assert s[j] == p[0] == 0;
      assert s[j] == t[j - i];
    } else {
      assert s[i] == t[0] == 0;
      assert s[i] == p[i - j];
    }
  }

  /** Where a stret entry starts, the pattern does not: the byte after
      "msgSend" is "_" there, not a NUL. */
  lemma StretIsNotPattern(s: seq<Byte>, i: nat)
    requires OccursAt(s, StretEntry, i)
    ensures !OccursAt(s, ObjcMsgSend, i)
  {
    assert StretEntry[14] == Underscore;
    assert s[i..i + |StretEntry|][14] == s[i + 14];
    Mismatch(s, ObjcMsgSend, i, 14);
  }

  /** The entry of a C name holds a NUL only at its two ends. */
  lemma EntryNulsAtEnds(name: string)
    requires forall k :: 0 <= k < |name| ==> 0 < name[k] as int < 128
    ensures forall k :: 0 < k < |name| + 2 ==> SymbolEntry(Ascii(name))[k] != 0
  {
    forall k | 0 < k < |name| + 2
      ensures SymbolEntry(Ascii(name))[k] != 0
    {
      if k >= 2 {
        assert SymbolEntry(Ascii(name))[k] == Ascii(name)[k - 2];
      }
    }
  }

  /** Replacing leaves a byte as it is when every occurrence of the pattern
      that covers it would write that same byte back. */
  lemma {:induction false} ReplaceKeepsByte(s: seq<Byte>, pat: seq<Byte>, rep: seq<Byte>, m: nat)
    requires 0 < |pat| == |rep| && m < |s|
    requires forall j :: OccursAt(s, pat, j) && j <= m < j + |pat| ==> rep[m - j] == s[m]
    ensures |ReplaceAll(s, pat, rep)| == |s| && ReplaceAll(s, pat, rep)[m] == s[m]
    decreases |s|
  {
    if |s| < |pat| {
    } else if s[..|pat|] == pat {
      assert OccursAt(s, pat, 0);
      if m >= |pat| {
        var t := s[|pat|..];
        forall j | OccursAt(t, pat, j) && j <= m - |pat| < j + |pat|
          ensures rep[m - |pat| - j] == t[m - |pat|]
        {
          OccursAtDrop(s, pat, |pat|, j);
        }
        ReplaceKeepsByte(t, pat, rep, m - |pat|);
      }
    } else if m > 0 {
      var t := s[1..];
      forall j | OccursAt(t, pat, j) && j <= m - 1 < j + |pat|
        ensures rep[m - 1 - j] == t[m - 1]
      {
        OccursAtTail(s, pat, j);
      }
      ReplaceKeepsByte(t, pat, rep, m - 1);
    }
  }

  /** The occurrences of `pat` in `s` from `n` on are those in s[n..]. */
  lemma OccursAtDrop(s: seq<Byte>, pat: seq<Byte>, n: nat, j: nat)
    requires n <= |s|
    ensures OccursAt(s[n..], pat, j) <==> OccursAt(s, pat, j + n)
  {
    if j + n + |pat| <= |s| {
      assert s[n..][j..j + |pat|] == s[j + n..j + n + |pat|];
    }
  }

  /** One differing byte rules out an occurrence. */
  lemma Mismatch(s: seq<Byte>, pat: seq<Byte>, j: nat, m: nat)
    requires m < |pat| && j + m < |s| && s[j + m] != pat[m]
    ensures !OccursAt(s, pat, j)
  {
    if j + |pat| <= |s| {
      assert s[j..j + |pat|][m] == s[j + m];
    }
  }

  /** Two entries "_objc_msgSend" in a row share the NUL between them. */
  const TwoEntries: seq<Byte> := ObjcMsgSend + ObjcMsgSend[1..]

  /** Only the first of two entries that share a NUL is renamed: the search
      resumes after the shared NUL, which the first occurrence used up. */
  lemma SharedNulRenamesFirstOnly(rep: seq<Byte>)
    requires |rep| == |ObjcMsgSend|
    ensures ReplaceAll(TwoEntries, ObjcMsgSend, rep) == rep + ObjcMsgSend[1..]
  {
    assert TwoEntries[..|ObjcMsgSend|] == ObjcMsgSend;
    assert TwoEntries[|ObjcMsgSend|..] == ObjcMsgSend[1..];
  }

  // ---------------------------------------------------------------------
  // The pass
  // ---------------------------------------------------------------------

  /** The patch applied to each span: bytes.replace of `pat` by `rep`. */
  function Replacing(pat: seq<Byte>, rep: seq<Byte>): seq<Byte> -> seq<Byte>
    requires |pat| > 0
  {
    s => ReplaceAll(s, pat, rep)
  }

  /** A patch that keeps the length of whatever it is given. */
  ghost predicate KeepsLength(patch: seq<Byte> -> seq<Byte>)
  {
    forall s :: |patch(s)| == |s|
  }

  /** Renaming to a name of the same length is such a patch. */
  lemma ReplacingKeepsLength(pat: seq<Byte>, rep: seq<Byte>)
    requires 0 < |pat| == |rep|
    ensures KeepsLength(Replacing(pat, rep))
  {
    forall s
      ensures |Replacing(pat, rep)(s)| == |s|
    {
      assert Replacing(pat, rep)(s) == ReplaceAll(s, pat, rep);
    }
  }

  /** The bytes of `span`, as many as the file has, with `patch` applied. */
  function Patched(data: seq<Byte>, span: Span, patch: seq<Byte> -> seq<Byte>): (r: seq<Byte>)
    requires span.loc <= |data|
  {
    patch(data[span.loc..Min(span.loc + span.size, |data|)])
  }

  /** A patched span is as long as the part of it the file has. */
  lemma PatchedLength(data: seq<Byte>, span: Span, patch: seq<Byte> -> seq<Byte>)
    requires KeepsLength(patch) && span.loc <= |data|
    ensures |Patched(data, span, patch)| == Min(span.loc + span.size, |data|) - span.loc
  {
  }

  /** The output of the pass from offset `pos` on, with `spans` still to
      patch: the bytes up to the next span are copied, then that span
      patched (the script renames the entry for objc_msgSend there), and
      the pass goes on after the span. A span that starts before `pos`, or
      at or past the end of the file, ends the patching: the rest of the
      file is copied as it is. */
  function Pass(data: seq<Byte>, spans: seq<Span>, pos: nat, patch: seq<Byte> -> seq<Byte>): (r: seq<Byte>)
    decreases |spans|
  {
    if pos >= |data| then []
    else if |spans| == 0 || spans[0].loc < pos || spans[0].loc >= |data| then data[pos..]
    else
      data[pos..spans[0].loc] + Patched(data, spans[0], patch)
      + Pass(data, spans[1..], spans[0].loc + spans[0].size, patch)
  }

  /** The pass at the start of its next span. */
  lemma PassAtSpan(data: seq<Byte>, spans: seq<Span>, pos: nat, patch: seq<Byte> -> seq<Byte>)
    requires pos < |data| && |spans| > 0 && spans[0].loc == pos
    ensures Pass(data, spans, pos, patch)
            == Patched(data, spans[0], patch) + Pass(data, spans[1..], spans[0].loc + spans[0].size, patch)
  {
    var gap := data[pos..spans[0].loc];
    var patched := Patched(data, spans[0], patch);
    assert Pass(data, spans, pos, patch)
           == gap + patched + Pass(data, spans[1..], spans[0].loc + spans[0].size, patch);
    EmptyLeft(gap, patched);
  }

  /** The pass before its next span. */
  lemma PassBeforeSpan(data: seq<Byte>, spans: seq<Span>, pos: nat, patch: seq<Byte> -> seq<Byte>)
    requires pos < |data| && |spans| > 0 && spans[0].loc > pos
    ensures Pass(data, spans, pos, patch)
            == data[pos..Min(spans[0].loc, |data|)] + Pass(data, spans, spans[0].loc, patch)
  {
    if spans[0].loc < |data| {
      PassBeforeSpanInFile(data, spans, pos, patch);
    } else {
      assert Pass(data, spans, spans[0].loc, patch) == [];
      assert data[pos..] + [] == data[pos..];
    }
  }

  /** PassBeforeSpan for a span that starts inside the file. */
  lemma PassBeforeSpanInFile(data: seq<Byte>, spans: seq<Span>, pos: nat, patch: seq<Byte> -> seq<Byte>)
    requires |spans| > 0 && pos < spans[0].loc < |data|
    ensures Pass(data, spans, pos, patch) == data[pos..spans[0].loc] + Pass(data, spans, spans[0].loc, patch)
  {
    var loc := spans[0].loc;
    var patched := Patched(data, spans[0], patch);
    var rest := Pass(data, spans[1..], loc + spans[0].size, patch);
    assert Pass(data, spans, pos, patch) == data[pos..loc] + patched + rest;
    PassAtSpan(data, spans, loc, patch);
    AppendAssoc(data[pos..loc], patched, rest);
  }

  /** The pass with no span ahead of it. */
  lemma PassCopiesRest(data: seq<Byte>, spans: seq<Span>, pos: nat, patch: seq<Byte> -> seq<Byte>)
    requires pos < |data| && (|spans| == 0 || spans[0].loc < pos)
    ensures Pass(data, spans, pos, patch) == data[pos..]
  {
  }

  /** The pass keeps the length of the file, because the replacement is as
      long as the pattern. */
  lemma {:induction false} PassLength(data: seq<Byte>, spans: seq<Span>, pos: nat, patch: seq<Byte> -> seq<Byte>)
    requires KeepsLength(patch) && pos <= |data|
    ensures |Pass(data, spans, pos, patch)| == |data| - pos
    decreases |spans|
  {
    if pos < |data| && |spans| > 0 && pos <= spans[0].loc < |data| {
      var next := spans[0].loc + spans[0].size;
      if next <= |data| {
        PassLength(data, spans[1..], next, patch);
      }
      PassLengthStep(data, spans, pos, patch);
    }
  }

  /** The step of PassLength, across the next span. */
  lemma PassLengthStep(data: seq<Byte>, spans: seq<Span>, pos: nat, patch: seq<Byte> -> seq<Byte>)
    requires KeepsLength(patch) && |spans| > 0 && pos <= spans[0].loc < |data|
    requires spans[0].loc + spans[0].size <= |data| ==>
               |Pass(data, spans[1..], spans[0].loc + spans[0].size, patch)| == |data| - (spans[0].loc + spans[0].size)
    ensures |Pass(data, spans, pos, patch)| == |data| - pos
  {
    var span := spans[0];
    var next := span.loc + span.size;
    var gap := data[pos..span.loc];
    var patched := Patched(data, span, patch);
    var rest := Pass(data, spans[1..], next, patch);
    assert Pass(data, spans, pos, patch) == gap + patched + rest;
    PatchedLength(data, span, patch);
    if next > |data| {
      assert |rest| == 0;
    }
  }

  /** The pass as a loop over the file: `pos` is how far the output has
      got, (loc, size) the next span to patch and `listIndex` the one after
      it; once the last span has been patched the rest is copied. */
  method PatchPass(data: seq<Byte>, spans: seq<Span>, patch: seq<Byte> -> seq<Byte>) returns (out: seq<Byte>)
    requires |spans| > 0
    ensures out == Pass(data, spans, 0, patch)
  {
    var pos: nat := 0;
    out := [];
    var loc: nat, size: nat := spans[0].loc, spans[0].size;
    var listIndex := 1;
    var pending := true;
    ghost var todo := spans;
    ghost var goal := Pass(data, spans, 0, patch);
    while pos < |data|
      invariant 1 <= listIndex <= |spans|
      invariant pending ==> todo == spans[listIndex - 1..] && todo[0] == Span(loc, size)
      invariant !pending ==> todo == []
      invariant out + Pass(data, todo, pos, patch) == goal
      decreases |data| - pos, |todo|
    {
      if pending && pos == loc {
        var piece := patch(data[loc..Min(loc + size, |data|)]);
        StepAtSpan(data, todo, pos, size, patch, out, goal);
        out := out + piece;
        pos := pos + size;
        todo := todo[1..];
        if listIndex < |spans| {
          loc, size := spans[listIndex].loc, spans[listIndex].size;
          listIndex := listIndex + 1;
        } else {
          pending := false;
        }
      } else if pending && loc > pos {
        var piece := data[pos..Min(loc, |data|)];
        StepBeforeSpan(data, todo, pos, patch, out, goal);
        out := out + piece;
        pos := loc;
      } else {
        var piece := data[pos..];
        StepToEnd(data, todo, pos, patch, out, goal);
        out := out + piece;
        pos := |data|;
      }
    }
  }

  /** A step of the loop at a span: the patched span is output. */
  lemma StepAtSpan(data: seq<Byte>, todo: seq<Span>, pos: nat, size: nat, patch: seq<Byte> -> seq<Byte>,
                   done: seq<Byte>, goal: seq<Byte>)
    requires pos < |data| && |todo| > 0 && todo[0] == Span(pos, size)
    requires done + Pass(data, todo, pos, patch) == goal
    ensures (done + patch(data[pos..Min(pos + size, |data|)])) + Pass(data, todo[1..], pos + size, patch) == goal
  {
    PassAtSpan(data, todo, pos, patch);
    AppendAssoc(done, Patched(data, todo[0], patch), Pass(data, todo[1..], pos + size, patch));
  }

  /** A step of the loop before a span: the gap up to it is output. */
  lemma StepBeforeSpan(data: seq<Byte>, todo: seq<Span>, pos: nat, patch: seq<Byte> -> seq<Byte>,
                       done: seq<Byte>, goal: seq<Byte>)
    requires pos < |data| && |todo| > 0 && todo[0].loc > pos
    requires done + Pass(data, todo, pos, patch) == goal
    ensures (done + data[pos..Min(todo[0].loc, |data|)]) + Pass(data, todo, todo[0].loc, patch) == goal
  {
    PassBeforeSpan(data, todo, pos, patch);
    AppendAssoc(done, data[pos..Min(todo[0].loc, |data|)], Pass(data, todo, todo[0].loc, patch));
  }

  /** The last step of the loop, with no span ahead: the rest is output. */
  lemma StepToEnd(data: seq<Byte>, todo: seq<Span>, pos: nat, patch: seq<Byte> -> seq<Byte>,
                  done: seq<Byte>, goal: seq<Byte>)
    requires pos < |data| && (|todo| == 0 || todo[0].loc < pos)
    requires done + Pass(data, todo, pos, patch) == goal
    ensures (done + data[pos..]) + Pass(data, todo, |data|, patch) == goal
  {
    PassCopiesRest(data, todo, pos, patch);
    assert Pass(data, todo, |data|, patch) == [];
    assert (done + data[pos..]) + [] == done + data[pos..];
  }

  /** The pass across a span that starts in the file, from `pos` at or
      before it: the gap, the patched span, then the rest of the pass. */
  lemma PassAcrossSpan(data: seq<Byte>, spans: seq<Span>, pos: nat, patch: seq<Byte> -> seq<Byte>)
    requires KeepsLength(patch) && |spans| > 0
    requires pos <= spans[0].loc < |data| && spans[0].loc + spans[0].size <= |data|
    ensures Pass(data, spans, pos, patch)
            == data[pos..spans[0].loc] + Patched(data, spans[0], patch)
               + Pass(data, spans[1..], spans[0].loc + spans[0].size, patch)
    ensures |Patched(data, spans[0], patch)| == spans[0].size
    ensures |data[pos..spans[0].loc] + Patched(data, spans[0], patch)| == spans[0].loc + spans[0].size - pos
  {
    PatchedLength(data, spans[0], patch);
  }

  /** Byte `i` lies inside one of the spans. */
  predicate Covered(spans: seq<Span>, i: int)
  {
    exists k :: 0 <= k < |spans| && spans[k].loc <= i < spans[k].loc + spans[k].size
  }

  lemma CoveredByTail(spans: seq<Span>, i: int)
    requires |spans| > 0 && Covered(spans[1..], i)
    ensures Covered(spans, i)
  {
    var k :| 0 <= k < |spans| - 1 && spans[1..][k].loc <= i < spans[1..][k].loc + spans[1..][k].size;
    assert spans[k + 1] == spans[1..][k];
  }

  /** Every byte outside all spans is copied unchanged, whatever the spans. */
  lemma {:induction false} PassKeepsUncovered(data: seq<Byte>, spans: seq<Span>, pos: nat, patch: seq<Byte> -> seq<Byte>, i: nat)
    requires KeepsLength(patch) && pos <= i < |data| && !Covered(spans, i)
    ensures |Pass(data, spans, pos, patch)| == |data| - pos
    ensures Pass(data, spans, pos, patch)[i - pos] == data[i]
    decreases |spans|
  {
    PassLength(data, spans, pos, patch);
    if |spans| > 0 && pos <= spans[0].loc < |data| {
      var next := spans[0].loc + spans[0].size;
      assert !(spans[0].loc <= i < next);
      if i < spans[0].loc {
        UncoveredBeforeSpan(data, spans, pos, patch, i);
      } else {
        if Covered(spans[1..], i) {
          CoveredByTail(spans, i);
        }
        PassKeepsUncovered(data, spans[1..], next, patch, i);
        UncoveredAfterSpan(data, spans, pos, patch, i);
      }
    }
  }

  /** The case of PassKeepsUncovered for a byte before the next span. */
  lemma UncoveredBeforeSpan(data: seq<Byte>, spans: seq<Span>, pos: nat, patch: seq<Byte> -> seq<Byte>, i: nat)
    requires KeepsLength(patch) && |spans| > 0 && pos <= i < spans[0].loc < |data|
    ensures |Pass(data, spans, pos, patch)| == |data| - pos
    ensures Pass(data, spans, pos, patch)[i - pos] == data[i]
  {
    PassLength(data, spans, pos, patch);
    var gap := data[pos..spans[0].loc];
    var patched := Patched(data, spans[0], patch);
    var rest := Pass(data, spans[1..], spans[0].loc + spans[0].size, patch);
    assert Pass(data, spans, pos, patch) == gap + patched + rest;
    IndexInFirst(Pass(data, spans, pos, patch), gap + patched, rest, i - pos);
    IndexInFirst(gap + patched, gap, patched, i - pos);
  }

  /** The case of PassKeepsUncovered for a byte after the next span. */
  lemma UncoveredAfterSpan(data: seq<Byte>, spans: seq<Span>, pos: nat, patch: seq<Byte> -> seq<Byte>, i: nat)
    requires KeepsLength(patch) && |spans| > 0
    requires pos <= spans[0].loc && spans[0].loc + spans[0].size <= i < |data|
    requires |Pass(data, spans[1..], spans[0].loc + spans[0].size, patch)| == |data| - (spans[0].loc + spans[0].size)
    requires Pass(data, spans[1..], spans[0].loc + spans[0].size, patch)[i - (spans[0].loc + spans[0].size)] == data[i]
    ensures |Pass(data, spans, pos, patch)| == |data| - pos
    ensures Pass(data, spans, pos, patch)[i - pos] == data[i]
  {
    var next := spans[0].loc + spans[0].size;
    PassLength(data, spans, pos, patch);
    PassAcrossSpan(data, spans, pos, patch);
    IndexInSecond(Pass(data, spans, pos, patch), data[pos..spans[0].loc] + Patched(data, spans[0], patch),
                  Pass(data, spans[1..], next, patch), i - next, i - pos);
  }

  /** The spans lie in [lo, hi], in order and without overlap. */
  predicate WellFormedSpans(spans: seq<Span>, lo: nat, hi: nat)
    decreases |spans|
  {
    |spans| == 0
    || (lo <= spans[0].loc && spans[0].loc + spans[0].size <= hi
        && WellFormedSpans(spans[1..], spans[0].loc + spans[0].size, hi))
  }

  /** Where the spans are in order, apart and inside the file, each span
      comes out as its own bytes with the entries renamed, at its own place. */
  lemma {:induction false} PassPatchesEachSpan(data: seq<Byte>, spans: seq<Span>, pos: nat, patch: seq<Byte> -> seq<Byte>, target: Span)
    requires KeepsLength(patch) && pos <= |data|
    requires WellFormedSpans(spans, pos, |data|) && target in spans
    ensures pos <= target.loc && target.loc + target.size <= |data|
    ensures OccursAt(Pass(data, spans, pos, patch), patch(data[target.loc..target.loc + target.size]), target.loc - pos)
    decreases |spans|, 1
  {
    WellFormedEndsBelow(spans, pos, |data|, target);
    if target.size == 0 {
      PatchesEmptySpan(data, spans, pos, patch, target);
    } else if target == spans[0] {
      PatchesFirstSpan(data, spans, pos, patch, target);
    } else {
      PatchesLaterSpan(data, spans, pos, patch, target);
    }
  }

  /** The case of PassPatchesEachSpan for an empty span. */
  lemma PatchesEmptySpan(data: seq<Byte>, spans: seq<Span>, pos: nat, patch: seq<Byte> -> seq<Byte>, target: Span)
    requires KeepsLength(patch) && target.size == 0
    requires pos <= target.loc <= |data|
    ensures OccursAt(Pass(data, spans, pos, patch), patch(data[target.loc..target.loc + target.size]), target.loc - pos)
  {
    PassLength(data, spans, pos, patch);
    assert |patch(data[target.loc..target.loc])| == 0;
  }

  /** The case of PassPatchesEachSpan for the first span. */
  lemma PatchesFirstSpan(data: seq<Byte>, spans: seq<Span>, pos: nat, patch: seq<Byte> -> seq<Byte>, target: Span)
    requires KeepsLength(patch) && |spans| > 0 && target == spans[0] && target.size > 0
    requires pos <= target.loc && target.loc + target.size <= |data|
    ensures OccursAt(Pass(data, spans, pos, patch), patch(data[target.loc..target.loc + target.size]), target.loc - pos)
  {
    PassAcrossSpan(data, spans, pos, patch);
    assert Min(target.loc + target.size, |data|) == target.loc + target.size;
    MiddleOfJoin(Pass(data, spans, pos, patch), data[pos..target.loc], Patched(data, target, patch),
                 Pass(data, spans[1..], target.loc + target.size, patch), target.loc - pos);
  }

  /** The case of PassPatchesEachSpan for a span after the first. */
  lemma {:induction false} PatchesLaterSpan(data: seq<Byte>, spans: seq<Span>, pos: nat, patch: seq<Byte> -> seq<Byte>, target: Span)
    requires KeepsLength(patch) && pos <= |data|
    requires WellFormedSpans(spans, pos, |data|) && target in spans && target != spans[0] && target.size > 0
    ensures pos <= target.loc && target.loc + target.size <= |data|
    ensures OccursAt(Pass(data, spans, pos, patch), patch(data[target.loc..target.loc + target.size]), target.loc - pos)
    decreases |spans|, 0
  {
    var span := spans[0];
    var next := span.loc + span.size;
    InTail(spans, target);
    PassPatchesEachSpan(data, spans[1..], next, patch, target);
    SliceAfterFirstSpan(data, spans, pos, patch, target.loc - next, target.loc - pos,
                        patch(data[target.loc..target.loc + target.size]));
  }

  /** What the pass after the first span has at `at`, the whole pass has
      at `from`, as many bytes further on as the first span ends after `pos`. */
  lemma SliceAfterFirstSpan(data: seq<Byte>, spans: seq<Span>, pos: nat, patch: seq<Byte> -> seq<Byte>,
                            at: nat, from: nat, want: seq<Byte>)
    requires KeepsLength(patch) && |spans| > 0 && from == spans[0].loc + spans[0].size - pos + at
    requires pos <= spans[0].loc < |data| && spans[0].loc + spans[0].size <= |data|
    requires OccursAt(Pass(data, spans[1..], spans[0].loc + spans[0].size, patch), want, at)
    ensures OccursAt(Pass(data, spans, pos, patch), want, from)
  {
    var span := spans[0];
    PassAcrossSpan(data, spans, pos, patch);
    OccursInJoin(Pass(data, spans, pos, patch),
                 data[pos..span.loc] + Patched(data, span, patch),
                 Pass(data, spans[1..], span.loc + span.size, patch),
                 at, from, want);
  }

  /** A span of the list other than its first is in the rest of the list. */
  lemma InTail(spans: seq<Span>, target: Span)
    requires target in spans && target != spans[0]
    ensures target in spans[1..]
  {
    var k :| 0 <= k < |spans| && spans[k] == target;
    assert spans[1..][k - 1] == target;
  }

  lemma EmptyLeft(a: seq<Byte>, b: seq<Byte>)
    requires |a| == 0
    ensures a + b == b
  {
  }

  lemma AppendAssoc(a: seq<Byte>, b: seq<Byte>, c: seq<Byte>)
    ensures (a + b) + c == a + (b + c)
  {
  }

  lemma IndexInFirst(whole: seq<Byte>, head: seq<Byte>, tail: seq<Byte>, at: nat)
    requires whole == head + tail && at < |head|
    ensures whole[at] == head[at]
  {
  }

  lemma IndexInSecond(whole: seq<Byte>, head: seq<Byte>, tail: seq<Byte>, at: nat, from: nat)
    requires whole == head + tail && from == |head| + at && at < |tail|
    ensures whole[from] == tail[at]
  {
  }

  /** The middle part of `whole == a + b + c` occurs in it after `a`. */
  lemma MiddleOfJoin(whole: seq<Byte>, a: seq<Byte>, b: seq<Byte>, c: seq<Byte>, from: nat)
    requires whole == a + b + c && from == |a|
    ensures OccursAt(whole, b, from)
  {
    assert whole[from..from + |b|] == (a + b + c)[|a|..|a| + |b|];
  }

  /** What occurs at `at` in `tail` occurs `|head|` further on in
      `whole == head + tail`. */
  lemma OccursInJoin(whole: seq<Byte>, head: seq<Byte>, tail: seq<Byte>, at: nat, from: nat, want: seq<Byte>)
    requires whole == head + tail && from == |head| + at && OccursAt(tail, want, at)
    ensures OccursAt(whole, want, from)
  {
    assert whole[from..from + |want|] == tail[at..at + |want|];
  }

  /** Every well-formed span starts at or after `lo` and ends by `hi`. */
  lemma {:induction false} WellFormedEndsBelow(spans: seq<Span>, lo: nat, hi: nat, target: Span)
    requires WellFormedSpans(spans, lo, hi) && target in spans
    ensures lo <= target.loc && target.loc + target.size <= hi
    decreases |spans|
  {
    if target != spans[0] {
      InTail(spans, target);
      WellFormedEndsBelow(spans[1..], spans[0].loc + spans[0].size, hi, target);
    }
  }

  /** The pass with a patch that changes nothing is a copy. */
  lemma {:induction false} PassWithIdentity(data: seq<Byte>, spans: seq<Span>, pos: nat, patch: seq<Byte> -> seq<Byte>)
    requires forall s :: patch(s) == s
    ensures Pass(data, spans, pos, patch) == if pos < |data| then data[pos..] else []
    decreases |spans|
  {
    if pos < |data| && |spans| > 0 && pos <= spans[0].loc < |data| {
      PassWithIdentity(data, spans[1..], spans[0].loc + spans[0].size, patch);
      IdentityStep(data, spans, pos, patch);
    }
  }

  /** The step of PassWithIdentity across the next span. */
  lemma IdentityStep(data: seq<Byte>, spans: seq<Span>, pos: nat, patch: seq<Byte> -> seq<Byte>)
    requires forall s :: patch(s) == s
    requires |spans| > 0 && pos <= spans[0].loc < |data|
    requires Pass(data, spans[1..], spans[0].loc + spans[0].size, patch)
             == if spans[0].loc + spans[0].size < |data| then data[spans[0].loc + spans[0].size..] else []
    ensures Pass(data, spans, pos, patch) == data[pos..]
  {
    var span := spans[0];
    var end := Min(span.loc + span.size, |data|);
    var rest := Pass(data, spans[1..], span.loc + span.size, patch);
    var kept := data[span.loc..end];
    assert patch(kept) == kept;
    assert rest == data[end..];
    JoinSlices(data, pos, span.loc, end, Pass(data, spans, pos, patch), Patched(data, span, patch), rest);
  }

  /** Three adjacent slices of `data` make up the slice from the first start. */
  lemma JoinSlices(data: seq<Byte>, a: nat, b: nat, c: nat, whole: seq<Byte>, mid: seq<Byte>, rest: seq<Byte>)
    requires a <= b <= c <= |data|
    requires whole == data[a..b] + mid + rest && mid == data[b..c] && rest == data[c..]
    ensures whole == data[a..]
  {
    assert data[a..b] + data[b..c] + data[c..] == data[a..];
  }

  // ---------------------------------------------------------------------
  // The pass as the script has it
  // ---------------------------------------------------------------------

  /** Adds `prefix` in front of the output of a run that ends. */
  function Prepend(prefix: seq<Byte>, h: Halting<seq<Byte>>): Halting<seq<Byte>>
  {
    match h
    case Ends(rest) => Ends(prefix + rest)
    case Hangs => Hangs
  }

  /** The loop as written, from the state (pos, loc, size, listIndex). It
      always writes the hook's fixed entry. After the last span, (loc, size)
      keep the last span's values; `pos` is then past `loc`, so the rest is
      copied. If the last span has size 0, `pos` stays at `loc` and nothing
      changes from one iteration to the next. */
  function PassAsWritten(data: seq<Byte>, spans: seq<Span>, pos: nat, loc: nat, size: nat, listIndex: nat, patch: seq<Byte> -> seq<Byte>)
    : (r: Halting<seq<Byte>>)
    requires listIndex <= |spans|
    decreases |data| - pos, |spans| - listIndex
  {
    if pos >= |data| then Ends([])
    else if pos == loc then
      if size == 0 && listIndex == |spans| then Hangs
      else
        var content := Patched(data, Span(pos, size), patch);
        if listIndex < |spans| then
          Prepend(content, PassAsWritten(data, spans, pos + size, spans[listIndex].loc,
                                         spans[listIndex].size, listIndex + 1, patch))
        else Prepend(content, PassAsWritten(data, spans, pos + size, loc, size, listIndex, patch))
    else
      var step := if loc > pos then loc - pos else |data| - pos;
      Prepend(data[pos..Min(pos + step, |data|)], PassAsWritten(data, spans, pos + step, loc, size, listIndex, patch))
  }

  /** Past its span, the loop as written copies the rest. */
  lemma AsWrittenCopiesRest(data: seq<Byte>, spans: seq<Span>, pos: nat, loc: nat, size: nat, listIndex: nat, patch: seq<Byte> -> seq<Byte>)
    requires listIndex <= |spans| && loc < pos
    ensures PassAsWritten(data, spans, pos, loc, size, listIndex, patch)
            == Ends(if pos < |data| then data[pos..] else [])
  {
    if pos < |data| {
      assert PassAsWritten(data, spans, |data|, loc, size, listIndex, patch) == Ends([]);
      assert data[pos..|data|] + [] == data[pos..];
    }
  }

  /** The loop as written, before the span it is heading for. */
  lemma AsWrittenBeforeSpan(data: seq<Byte>, spans: seq<Span>, pos: nat, loc: nat, size: nat, listIndex: nat, patch: seq<Byte> -> seq<Byte>)
    requires listIndex <= |spans| && pos < |data| && pos < loc
    ensures PassAsWritten(data, spans, pos, loc, size, listIndex, patch)
            == Prepend(data[pos..Min(loc, |data|)], PassAsWritten(data, spans, loc, loc, size, listIndex, patch))
  {
  }

  /** Where the last span is not empty, the loop as written ends and
      produces what the pass does. */
  lemma {:induction false} AsWrittenAgrees(data: seq<Byte>, spans: seq<Span>, pos: nat, listIndex: nat, patch: seq<Byte> -> seq<Byte>)
    requires 0 < listIndex <= |spans| && spans[|spans| - 1].size > 0
    ensures PassAsWritten(data, spans, pos, spans[listIndex - 1].loc, spans[listIndex - 1].size, listIndex, patch)
            == Ends(Pass(data, spans[listIndex - 1..], pos, patch))
    decreases |data| - pos, |spans| - listIndex
  {
    var span := spans[listIndex - 1];
    var rest := spans[listIndex - 1..];
    assert rest[0] == span;
    if pos < |data| {
      if span.loc == pos {
        PassAtSpan(data, rest, pos, patch);
        var content := Patched(data, span, patch);
        if listIndex < |spans| {
          AsWrittenAgrees(data, spans, pos + span.size, listIndex + 1, patch);
          assert rest[1..] == spans[listIndex..];
        } else {
          AsWrittenCopiesRest(data, spans, pos + span.size, span.loc, span.size, listIndex, patch);
          assert |rest[1..]| == 0;
          assert Pass(data, rest[1..], pos + span.size, patch)
                 == if pos + span.size < |data| then data[pos + span.size..] else [];
        }
      } else if span.loc > pos {
        AsWrittenAgrees(data, spans, span.loc, listIndex, patch);
        PassBeforeSpan(data, rest, pos, patch);
        AsWrittenBeforeSpan(data, spans, pos, span.loc, span.size, listIndex, patch);
      } else {
        AsWrittenCopiesRest(data, spans, pos, span.loc, span.size, listIndex, patch);
      }
    }
  }

  /** The loop as written, from its start. */
  function PassAsWrittenFromStart(data: seq<Byte>, spans: seq<Span>): Halting<seq<Byte>>
    requires |spans| > 0
  {
    PassAsWritten(data, spans, 0, spans[0].loc, spans[0].size, 1, Replacing(ObjcMsgSend, HookMsgSend))
  }

  lemma AsWrittenAgreesFromStart(data: seq<Byte>, spans: seq<Span>)
    requires |spans| > 0 && spans[|spans| - 1].size > 0
    ensures PassAsWrittenFromStart(data, spans) == Ends(Pass(data, spans, 0, Replacing(ObjcMsgSend, HookMsgSend)))
  {
    AsWrittenAgrees(data, spans, 0, 1, Replacing(ObjcMsgSend, HookMsgSend));
  }

  /** A single empty span inside the file traps the loop as written: it
      copies up to the span and then stops making progress. */
  lemma AsWrittenHangsOnEmptySpan(data: seq<Byte>, at: nat, patch: seq<Byte> -> seq<Byte>)
    requires at < |data|
    ensures PassAsWritten(data, [Span(at, 0)], 0, at, 0, 1, patch) == Hangs
  {
    var spans := [Span(at, 0)];
    assert PassAsWritten(data, spans, at, at, 0, 1, patch) == Hangs;
  }

  /** The pass copies the file unchanged around an empty span. */
  lemma PassSkipsEmptySpan(data: seq<Byte>, at: nat, patch: seq<Byte> -> seq<Byte>)
    requires KeepsLength(patch) && at < |data|
    ensures Pass(data, [Span(at, 0)], 0, patch) == data
  {
    PassSkipsEmptyFirst(data, [Span(at, 0)], patch);
  }

  lemma PassSkipsEmptyFirst(data: seq<Byte>, spans: seq<Span>, patch: seq<Byte> -> seq<Byte>)
    requires KeepsLength(patch) && |spans| == 1 && spans[0].size == 0 && spans[0].loc < |data|
    ensures Pass(data, spans, 0, patch) == data
  {
    var at := spans[0].loc;
    var patched := Patched(data, spans[0], patch);
    PatchedLength(data, spans[0], patch);
    assert patched == [];
    var rest := Pass(data, spans[1..], at, patch);
    assert rest == data[at..];
    assert Pass(data, spans, 0, patch) == data[0..at] + patched + rest;
    assert data[0..at] + [] + data[at..] == data;
  }

  /** The script's own loop, with its fixed replacement, hangs on a file
      whose one collected span is empty, where the pass returns the file. */
  lemma AsWrittenHangsOnEmptyLastSpan(data: seq<Byte>, at: nat)
    requires at < |data|
    ensures PassAsWrittenFromStart(data, [Span(at, 0)]) == Hangs
    ensures Pass(data, [Span(at, 0)], 0, Replacing(ObjcMsgSend, HookMsgSend)) == data
  {
    AsWrittenHangsOnEmptySpan(data, at, Replacing(ObjcMsgSend, HookMsgSend));
    ReplacingKeepsLength(ObjcMsgSend, HookMsgSend);
    PassSkipsEmptySpan(data, at, Replacing(ObjcMsgSend, HookMsgSend));
  }
}
