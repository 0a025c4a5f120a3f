/**
 * Worked cases of the resolver on one-line descriptors, derived from the
 * general lemmas of `Resolver`: a descriptor line beats the keyword chain
 * for the file it names, the file-name comparison is case-sensitive, and an
 * unknown variable gives no role. The small lemmas at the end give the
 * facts about single words (stripping, lower-casing, lookups, stems) that
 * the cases are built from.
 */
module ResolverExamples {
  import opened Wrappers
  import opened TextUtil
  import opened CursorTable
  import opened Resolver

  // ---------------------------------------------------------------------
  // A descriptor that names `Busy.cur`: `Pointer = "Busy.cur"`

  /** `"Pointer ".strip().lower()` is `pointer`, which maps to `Default`. */
  lemma PointerVariable()
    ensures VariableRole(Lower(Strip("Pointer "))) == Some(Default)
  {
    StripPointer();
    LowerPointer();
    LookupPointer();
  }

  /** The descriptor names `Busy.cur`, so that file is `Default`: the
      descriptor wins over the keyword `busy` in the file name. */
  lemma DescriptorNamesBusyFile()
    ensures GetCursorNameFromInf(Some("Pointer " + Needle("Busy.cur")), "Busy.cur") == Some(Default)
  {
    OneLineDescriptor("Pointer ", "Busy.cur", "Busy.cur");
    PointerVariable();
  }

  /** The same descriptor does not name `busy.cur` (file names compare
      exactly), so that file falls through to the keyword chain and is
      `Busy`. */
  lemma DescriptorMissesLowerCaseFile()
    ensures GetCursorNameFromInf(Some("Pointer " + Needle("Busy.cur")), "busy.cur") == Some(Busy)
  {
    OneLineDescriptor("Pointer ", "Busy.cur", "busy.cur");
    StemBusy();
    LowerBusy();
    BusyIsRuleOne();
    FallbackRoleIff("busy", 1);
  }

  // ---------------------------------------------------------------------
  // A descriptor with an unknown variable: `Cursor = "Normal.cur"`

  /** `cursor` is not a descriptor variable. */
  lemma CursorVariable()
    ensures VariableRole(Lower(Strip("Cursor "))) == None
  {
    StripTrailingSpace("Cursor");
    LowerCursor();
    LookupCursor();
  }

  /** An unknown variable on the line naming the file gives no role at all,
      although the keyword chain alone would give `Default` for `normal`. */
  lemma UnknownVariableIsFinal()
    ensures GetCursorNameFromInf(Some("Cursor " + Needle("Normal.cur")), "Normal.cur") == None
    ensures GetCursorNameFromInf(None, "Normal.cur") == Some(Default)
  {
    OneLineDescriptor("Cursor ", "Normal.cur", "Normal.cur");
    CursorVariable();
    StemNormal();
    LowerNormal();
    NormalKeyword();
    FallbackDefaultFirst("normal");
  }

  // ---------------------------------------------------------------------
  // Literal facts

  /** A word followed by one space strips to the word. */
  lemma StripTrailingSpace(w: string)
    requires IsWord(w)
    ensures Strip(w + " ") == w
  {
    assert w + " " == "" + w + " ";
    StripPadded("", w, " ");
  }

  lemma StripPointer()
    ensures Strip("Pointer ") == "Pointer"
  {
    assert IsWord("Pointer");
    StripTrailingSpace("Pointer");
  }

  lemma LowerPointer() ensures Lower("Pointer") == "pointer" {}
  lemma LookupPointer() ensures VariableRole("pointer") == Some(Default) {}
  lemma LowerCursor() ensures Lower("Cursor") == "cursor" {}
  lemma LookupCursor() ensures VariableRole("cursor") == None {}

  lemma StemBusy()
    ensures Stem("busy.cur") == "busy"
  {
    StemOfSuffixed("busy.cur", ".cur");
    assert "busy.cur"[..4] == "busy";
  }

  lemma StemNormal()
    ensures Stem("Normal.cur") == "Normal"
  {
    StemOfSuffixed("Normal.cur", ".cur");
    assert "Normal.cur"[..6] == "Normal";
  }

  lemma LowerBusy() ensures Lower("busy") == "busy" {}
  lemma LowerNormal() ensures Lower("Normal") == "normal" {}

  /** `busy` matches the second branch and not the first. */
  lemma BusyIsRuleOne()
    ensures FirstMatchAt(FallbackRules, "busy", 1)
  {
    assert RuleMatches(FallbackRules[1], "busy");
  }

  lemma NormalKeyword()
    ensures ContainsAny("normal", ["normal", "arrow", "default"])
  {
    assert IsSubstring("normal", "normal");
  }
}
