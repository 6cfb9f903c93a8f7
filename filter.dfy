/** The member filter: which object members have their string tables
    patched. The script picks one of three policies: every object member, only
    the members named in an allow-set, or every member except those named in
    a deny-set. Names are compared as the text before ".o". */
module Filter {
  import opened Bytes

  datatype Mode =
    | Everything    // every object member is processed
    | OnlyListed    // only members named in `need`
    | AllButListed  // every member except those named in `needless`

  /** The policy and its two name sets. */
  datatype Selection = Selection(mode: Mode, need: set<seq<Byte>>, needless: set<seq<Byte>>)

  /** Whether the member called `name` goes on to the symtab walk. */
  predicate Selected(sel: Selection, name: seq<Byte>)
  {
    match sel.mode
    case Everything => true
    case OnlyListed => name in sel.need
    case AllButListed => name !in sel.needless
  }

  /** The filter as written: the deny branch tests the allow-set. */
  predicate SelectedAsWritten(sel: Selection, name: seq<Byte>)
  {
    match sel.mode
    case Everything => true
    case OnlyListed => name in sel.need
    case AllButListed => name !in sel.need
  }

  /** The default policy lets every member through. */
  lemma EverythingSelectsAll(need: set<seq<Byte>>, needless: set<seq<Byte>>, name: seq<Byte>)
    ensures Selected(Selection(Everything, need, needless), name)
  {
  }

  /** Denying a set selects exactly the names that allowing it does not. */
  lemma DenyComplementsAllow(names: set<seq<Byte>>, other: set<seq<Byte>>, name: seq<Byte>)
    ensures Selected(Selection(AllButListed, other, names), name)
            <==> !Selected(Selection(OnlyListed, names, other), name)
  {
  }

  /** As written, the deny-set plays no part: only the allow-set decides. */
  lemma AsWrittenIgnoresNeedless(mode: Mode, need: set<seq<Byte>>, a: set<seq<Byte>>, b: set<seq<Byte>>, name: seq<Byte>)
    ensures SelectedAsWritten(Selection(mode, need, a), name) == SelectedAsWritten(Selection(mode, need, b), name)
  {
  }

  /** As written, a member named in the deny-set is still processed when
      the allow-set is empty, as it is by default. */
  lemma AsWrittenProcessesDenied(name: seq<Byte>)
    ensures SelectedAsWritten(Selection(AllButListed, {}, {name}), name)
    ensures !Selected(Selection(AllButListed, {}, {name}), name)
  {
  }

  /** Apart from the deny branch the two agree. */
  lemma AsWrittenAgreesOutsideDeny(sel: Selection, name: seq<Byte>)
    requires sel.mode != AllButListed || sel.need == sel.needless
    ensures SelectedAsWritten(sel, name) == Selected(sel, name)
  {
  }
}
