/**
 * The fixed table from a cursor role to the Linux (X11) cursor names that
 * all receive that role's converted cursor (`CURSOR_MAPPINGS`).
 */
module CursorTable {
  import opened TextUtil

  /** The fifteen roles of a Windows cursor scheme. */
  datatype Role =
    | Default | Help | Work | Busy | Cross | Text | Hand | Unavailable
    | Vertical | Horizontal | Dgn1 | Dgn2 | Move | Alternate | Link

  /** Role -> Linux cursor names. The source keeps each list as one string
      with the names separated by single spaces; `LinuxNames` is that
      string. Every role has a row; the rows are the constants below, in
      `RoleAliases`. */
  const CursorMappings: map<Role, seq<string>> := map r: Role | true :: RoleAliases(r)

  // The rows of the table, one constant per role.
  const AlternateAliases: seq<string> :=
    ["bottom_left_corner", "bottom_right_corner", "bottom_side", "down-arrow", "left-arrow",
     "left_side", "right-arrow", "right_side", "top_left_corner", "top_right_corner",
     "top_side", "up_arrow"]
  const BusyAliases: seq<string> :=
    ["half-busy", "wait", "watch"]
  const CrossAliases: seq<string> :=
    ["cross", "crosshair"]
  const DefaultAliases: seq<string> :=
    ["arrow", "default", "left_ptr", "size-bdiag", "size-fdiag", "size-hor", "size-ver",
     "top_left_arrow"]
  const Dgn1Aliases: seq<string> :=
    ["nw-resize", "nwse-resize", "se-resize", "size_fdiag"]
  const Dgn2Aliases: seq<string> :=
    ["ne-resize", "nesw-resize", "sw-resize", "size_bdiag"]
  const HandAliases: seq<string> :=
    ["draft", "pencil"]
  const HelpAliases: seq<string> :=
    ["help", "left_ptr_help", "question_arrow", "whats_this"]
  const HorizontalAliases: seq<string> :=
    ["col-resize", "e-resize", "ew-resize", "h_double_arrow", "sb_h_double_arrow", "size_hor",
     "split_h", "w-resize"]
  const LinkAliases: seq<string> :=
    ["grab", "hand", "hand1", "hand2", "openhand", "pointer", "pointing_hand"]
  const MoveAliases: seq<string> :=
    ["all-scroll", "closedhand", "dnd-move", "dnd-none", "fleur", "grabbing", "move",
     "size_all"]
  const TextAliases: seq<string> :=
    ["ibeam", "text", "xterm"]
  const UnavailableAliases: seq<string> :=
    ["circle", "crossed_circle", "dnd_no_drop", "forbidden", "no_drop", "not_allowed"]
  const VerticalAliases: seq<string> :=
    ["n-resize", "ns-resize", "row-resize", "s-resize", "sb_v_double_arrow", "size_ver",
     "split_v", "v_double_arrow"]
  const WorkAliases: seq<string> :=
    ["left_ptr_watch", "pirate", "progress"]

  /** `CURSOR_MAPPINGS.get(role, "")`: the role's names joined by spaces, or
      the empty string for a role without an entry. */
  function LinuxNames(r: Role): string {
    if r in CursorMappings then JoinWith(CursorMappings[r], " ") else ""
  }

  /** The Linux names a role's converted cursor is copied to:
      `linux_names.split()`. */
  function Aliases(r: Role): seq<string> {
    Words(LinuxNames(r))
  }

  /** Names joined by spaces, the first starting with a letter, give a
      non-empty string that splits into at least one name. */
  lemma JoinedNamesNonEmpty(names: seq<string>)
    requires |names| > 0 && |names[0]| > 0 && 'a' <= names[0][0] <= 'z'
    ensures JoinWith(names, " ") != ""
    ensures |Words(JoinWith(names, " "))| > 0
  {
    JoinWithHead(names, " ");
  }

  /** The same table as a function of the role: row `r` of
      `CursorMappings`. */
  function RoleAliases(r: Role): seq<string> {
    match r
    case Alternate => AlternateAliases
    case Busy => BusyAliases
    case Cross => CrossAliases
    case Default => DefaultAliases
    case Dgn1 => Dgn1Aliases
    case Dgn2 => Dgn2Aliases
    case Hand => HandAliases
    case Help => HelpAliases
    case Horizontal => HorizontalAliases
    case Link => LinkAliases
    case Move => MoveAliases
    case Text => TextAliases
    case Unavailable => UnavailableAliases
    case Vertical => VerticalAliases
    case Work => WorkAliases
  }

  /** `CURSOR_MAPPINGS[role].split()` is exactly the role's row: the names
      a converted cursor is copied to are the listed names, in order. */
  lemma AliasesAreRow(r: Role)
    ensures r in CursorMappings
    ensures Aliases(r) == RoleAliases(r)
  {
    RowsAreWords(r);
    SplitsBackToRow(r, RoleAliases(r));
  }

  /** Every name of a row is a word: non-empty and free of whitespace. */
  predicate RowOfWords(row: seq<string>) {
    forall k :: 0 <= k < |row| ==> IsWord(row[k])
  }

  /** A row of words splits back out of its space-joined string. */
  lemma SplitsBackToRow(r: Role, row: seq<string>)
    requires RoleAliases(r) == row && RowOfWords(row)
    ensures Aliases(r) == row
  {
    WordsOfJoin(row);
  }

  /** Every row of the table consists of words. */
  lemma RowsAreWords(r: Role)
    ensures RowOfWords(RoleAliases(r))
  {
    RowsArePrintable(r);
    PrintableRowOfWords(RoleAliases(r));
  }

  /** Every name of a row is non-empty and made of characters above the
      space character, none of which is whitespace. */
  predicate RowIsPrintable(row: seq<string>) {
    forall k :: 0 <= k < |row| ==> |row[k]| > 0 && forall i :: 0 <= i < |row[k]| ==> row[k][i] > ' '
  }

  /** Characters above the space character are not whitespace. */
  lemma PrintableRowOfWords(row: seq<string>)
    requires RowIsPrintable(row)
    ensures RowOfWords(row)
  {
  }

  /** Every row of the table is printable, row by row. */
  lemma RowsArePrintable(r: Role)
    ensures RowIsPrintable(RoleAliases(r))
  {
    match r
    case Alternate => AlternateRowIsPrintable();
    case Busy => BusyRowIsPrintable();
    case Cross => CrossRowIsPrintable();
    case Default => DefaultRowIsPrintable();
    case Dgn1 => Dgn1RowIsPrintable();
    case Dgn2 => Dgn2RowIsPrintable();
    case Hand => HandRowIsPrintable();
    case Help => HelpRowIsPrintable();
    case Horizontal => HorizontalRowIsPrintable();
    case Link => LinkRowIsPrintable();
    case Move => MoveRowIsPrintable();
    case Text => TextRowIsPrintable();
    case Unavailable => UnavailableRowIsPrintable();
    case Vertical => VerticalRowIsPrintable();
    case Work => WorkRowIsPrintable();
  }

  // Each literal row is printable.
  lemma AlternateRowIsPrintable() ensures RowIsPrintable(AlternateAliases) {}
  lemma BusyRowIsPrintable() ensures RowIsPrintable(BusyAliases) {}
  lemma CrossRowIsPrintable() ensures RowIsPrintable(CrossAliases) {}
  lemma DefaultRowIsPrintable() ensures RowIsPrintable(DefaultAliases) {}
  lemma Dgn1RowIsPrintable() ensures RowIsPrintable(Dgn1Aliases) {}
  lemma Dgn2RowIsPrintable() ensures RowIsPrintable(Dgn2Aliases) {}
  lemma HandRowIsPrintable() ensures RowIsPrintable(HandAliases) {}
  lemma HelpRowIsPrintable() ensures RowIsPrintable(HelpAliases) {}
  lemma HorizontalRowIsPrintable() ensures RowIsPrintable(HorizontalAliases) {}
  lemma LinkRowIsPrintable() ensures RowIsPrintable(LinkAliases) {}
  lemma MoveRowIsPrintable() ensures RowIsPrintable(MoveAliases) {}
  lemma TextRowIsPrintable() ensures RowIsPrintable(TextAliases) {}
  lemma UnavailableRowIsPrintable() ensures RowIsPrintable(UnavailableAliases) {}
  lemma VerticalRowIsPrintable() ensures RowIsPrintable(VerticalAliases) {}
  lemma WorkRowIsPrintable() ensures RowIsPrintable(WorkAliases) {}

  /** Every row of the table starts with a name that starts with a letter. */
  lemma RowStartsWithLetter(r: Role)
    ensures |RoleAliases(r)| > 0 && |RoleAliases(r)[0]| > 0
    ensures 'a' <= RoleAliases(r)[0][0] <= 'z'
  {
    match r
    case Alternate => assert AlternateAliases[0][0] == 'b';
    case Busy => assert BusyAliases[0][0] == 'h';
    case Cross => assert CrossAliases[0][0] == 'c';
    case Default => assert DefaultAliases[0][0] == 'a';
    case Dgn1 => assert Dgn1Aliases[0][0] == 'n';
    case Dgn2 => assert Dgn2Aliases[0][0] == 'n';
    case Hand => assert HandAliases[0][0] == 'd';
    case Help => assert HelpAliases[0][0] == 'h';
    case Horizontal => assert HorizontalAliases[0][0] == 'c';
    case Link => assert LinkAliases[0][0] == 'g';
    case Move => assert MoveAliases[0][0] == 'a';
    case Text => assert TextAliases[0][0] == 'i';
    case Unavailable => assert UnavailableAliases[0][0] == 'c';
    case Vertical => assert VerticalAliases[0][0] == 'n';
    case Work => assert WorkAliases[0][0] == 'l';
  }

  /** The "no mapping found" branch of the source cannot be taken: every role
      has an entry, its alias string is non-empty, and splitting it gives at
      least one name. */
  lemma EveryRoleMapped(r: Role)
    ensures r in CursorMappings
    ensures LinuxNames(r) != ""
    ensures |Aliases(r)| > 0
  {
    RowStartsWithLetter(r);
    JoinedNamesNonEmpty(CursorMappings[r]);
  }
}
