/**
 * The cursor role resolver (`CursorConverter.get_cursor_name_from_inf`):
 * first the `.inf` descriptor of the theme, then a chain of keyword tests on
 * the file's lower-cased stem.
 */
module Resolver {
  import opened Wrappers
  import opened TextUtil
  import opened CursorTable

  // ---------------------------------------------------------------------
  // Step 1: the descriptor

  /** Descriptor variable name -> role (the `mapping` table of the source). */
  const VariableRoles: map<string, Role> := map[
    "pointer" := Default,
    "help" := Help,
    "working" := Work,
    "busy" := Busy,
    "precision" := Cross,
    "text" := Text,
    "hand" := Hand,
    "unavailable" := Unavailable,
    "vert" := Vertical,
    "horz" := Horizontal,
    "dgn1" := Dgn1,
    "dgn2" := Dgn2,
    "move" := Move,
    "alternate" := Alternate,
    "link" := Link
  ]

  /** `mapping.get(name)`. */
  function VariableRole(name: string): Option<Role> {
    if name in VariableRoles then Some(VariableRoles[name]) else None
  }

  /** The text a descriptor line must contain to describe `fileName`:
      `= "<fileName>"`, matched exactly (case-sensitively). */
  function Needle(fileName: string): string {
    "= \"" + fileName + "\""
  }

  /** `line.split('=')[0].strip().lower()`: the variable a line assigns. */
  function VariableOf(line: string): string {
    Lower(Strip(SplitOn(line, '=')[0]))
  }

  /** Outcome of scanning the descriptor: no line names the file, or the first
      line that does gives this (possibly absent) role. */
  datatype Lookup = NoHit | Hit(role: Option<Role>)

  /** The `for line in content.split('\n')` loop: the first line holding the
      needle decides, and its variable is looked up in `VariableRoles`. */
  function ScanLines(lines: seq<string>, fileName: string): Lookup
    decreases |lines|
  {
    if lines == [] then NoHit
    else if IsSubstring(Needle(fileName), lines[0]) then Hit(VariableRole(VariableOf(lines[0])))
    else ScanLines(lines[1..], fileName)
  }

  /** Line `i` is the first line that names `fileName`. */
  predicate FirstHitAt(lines: seq<string>, fileName: string, i: nat) {
    && i < |lines|
    && IsSubstring(Needle(fileName), lines[i])
    && forall j :: 0 <= j < i ==> !IsSubstring(Needle(fileName), lines[j])
  }

  /** The scan returns the lookup of the first line holding the needle. */
  lemma {:induction false} ScanLinesFirstHit(lines: seq<string>, fileName: string, i: nat)
    requires FirstHitAt(lines, fileName, i)
    ensures ScanLines(lines, fileName) == Hit(VariableRole(VariableOf(lines[i])))
    decreases i
  {
    if i > 0 {
      assert FirstHitAt(lines[1..], fileName, i - 1) by {
        forall j | 0 <= j < i - 1
          ensures !IsSubstring(Needle(fileName), lines[1..][j])
        {
          assert lines[1..][j] == lines[j + 1];
        }
      }
      ScanLinesFirstHit(lines[1..], fileName, i - 1);
    }
  }

  /** The scan finds nothing exactly when no line holds the needle. */
  lemma {:induction false} ScanLinesNoHit(lines: seq<string>, fileName: string)
    ensures ScanLines(lines, fileName) == NoHit
        <==> forall j :: 0 <= j < |lines| ==> !IsSubstring(Needle(fileName), lines[j])
    decreases |lines|
  {
    if lines != [] {
      ScanLinesNoHit(lines[1..], fileName);
      if !IsSubstring(Needle(fileName), lines[0]) {
        forall j | 0 < j < |lines|
          ensures lines[j] == lines[1..][j - 1]
        {
        }
      }
    }
  }

  // ---------------------------------------------------------------------
  // Step 2: the keyword chain on the file stem

  /** `any(x in s for x in keywords)`. */
  predicate ContainsAny(s: string, keywords: seq<string>)
    decreases |keywords|
  {
    |keywords| > 0 && (IsSubstring(keywords[0], s) || ContainsAny(s, keywords[1..]))
  }

  /** `ContainsAny` holds exactly when one of the keywords occurs in `s`. */
  lemma {:induction false} ContainsAnyIff(s: string, keywords: seq<string>)
    ensures ContainsAny(s, keywords) <==> exists k :: 0 <= k < |keywords| && IsSubstring(keywords[k], s)
    decreases |keywords|
  {
    if |keywords| > 0 {
      ContainsAnyIff(s, keywords[1..]);
      if exists k :: 0 <= k < |keywords| && IsSubstring(keywords[k], s) {
        var k :| 0 <= k < |keywords| && IsSubstring(keywords[k], s);
        if k > 0 {
          assert keywords[1..][k - 1] == keywords[k];
        }
      }
      if ContainsAny(s, keywords[1..]) {
        var k :| 0 <= k < |keywords[1..]| && IsSubstring(keywords[1..][k], s);
        assert keywords[k + 1] == keywords[1..][k];
      }
    }
  }

  /** One test of the chain: its keywords and the role it gives. */
  datatype Rule = Rule(keywords: seq<string>, role: Role)

  /** The if/elif chain of the source as an ordered table, one test per
      branch and in the same order. */
  const FallbackRules: seq<Rule> := [
    Rule(["normal", "arrow", "default"], Default),
    Rule(["busy", "wait"], Busy),
    Rule(["text", "beam"], Text),
    Rule(["handwriting", "hand"], Hand),
    Rule(["link"], Link),
    Rule(["precision", "cross"], Cross),
    Rule(["move"], Move),
    Rule(["help"], Help),
    Rule(["unavailable", "no"], Unavailable),
    Rule(["vertical", "vert"], Vertical),
    Rule(["horizontal", "horz"], Horizontal),
    Rule(["diagonal1", "dgn1"], Dgn1),
    Rule(["diagonal2", "dgn2"], Dgn2),
    Rule(["working", "work", "progress"], Work),
    Rule(["alternate", "alt"], Alternate)
  ]

  predicate RuleMatches(rule: Rule, s: string) {
    ContainsAny(s, rule.keywords)
  }

  /** First-match-wins evaluation of an ordered table of tests. It gives
      nothing exactly when no test matches, and otherwise the role of a
      matching test that no earlier test precedes. */
  function FirstMatch(rules: seq<Rule>, s: string): (r: Option<Role>)
    ensures r.None? <==> forall i :: 0 <= i < |rules| ==> !RuleMatches(rules[i], s)
    ensures r.Some? ==> exists i :: FirstMatchAt(rules, s, i) && rules[i].role == r.value
    decreases |rules|
  {
    if rules == [] then None
    else if RuleMatches(rules[0], s) then
      assert FirstMatchAt(rules, s, 0);
      Some(rules[0].role)
    else
      var r := FirstMatch(rules[1..], s);
      assert forall i :: 0 < i < |rules| ==> rules[i] == rules[1..][i - 1];
      if r.Some? then
        var i :| FirstMatchAt(rules[1..], s, i) && rules[1..][i].role == r.value;
        assert FirstMatchAt(rules, s, i + 1);
        r
      else
        r
  }

  /** Test `i` matches and no earlier test does. */
  predicate FirstMatchAt(rules: seq<Rule>, s: string, i: int) {
    && 0 <= i < |rules|
    && RuleMatches(rules[i], s)
    && forall j :: 0 <= j < i ==> !RuleMatches(rules[j], s)
  }

  /** When test `i` is the first that matches, its role is the result. */
  lemma {:induction false} FirstMatchAtGives(rules: seq<Rule>, s: string, i: int)
    requires FirstMatchAt(rules, s, i)
    ensures FirstMatch(rules, s) == Some(rules[i].role)
    decreases i
  {
    if i > 0 {
      assert FirstMatchAt(rules[1..], s, i - 1) by {
        forall j | 0 <= j < i - 1 ensures !RuleMatches(rules[1..][j], s) {
          assert rules[1..][j] == rules[j + 1];
        }
      }
      FirstMatchAtGives(rules[1..], s, i - 1);
    }
  }

  /** The keyword chain applied to the lower-cased stem: the first branch
      whose keywords occur wins, and no match gives `None`. */
  function FallbackRole(baseName: string): Option<Role> {
    FirstMatch(FallbackRules, baseName)
  }

  /** Each role has one branch in the chain. */
  lemma FallbackRolesDistinct(i: int, j: int)
    requires 0 <= i < |FallbackRules| && 0 <= j < |FallbackRules| && i != j
    ensures FallbackRules[i].role != FallbackRules[j].role
  {
  }

  /** The chain gives the role of branch `i` exactly when branch `i` is the
      first whose keywords occur in the stem. */
  lemma FallbackRoleIff(baseName: string, i: int)
    requires 0 <= i < |FallbackRules|
    ensures FallbackRole(baseName) == Some(FallbackRules[i].role)
        <==> FirstMatchAt(FallbackRules, baseName, i)
  {
    if FallbackRole(baseName) == Some(FallbackRules[i].role) {
      var k :| FirstMatchAt(FallbackRules, baseName, k)
               && FallbackRules[k].role == FallbackRules[i].role;
      if k != i {
        FallbackRolesDistinct(k, i);
      }
    }
    if FirstMatchAt(FallbackRules, baseName, i) {
      FirstMatchAtGives(FallbackRules, baseName, i);
    }
  }

  /** A stem holding `normal`, `arrow` or `default` is `Default`, whatever
      later keywords it also holds. */
  lemma FallbackDefaultFirst(baseName: string)
    requires ContainsAny(baseName, ["normal", "arrow", "default"])
    ensures FallbackRole(baseName) == Some(Default)
  {
    FirstMatchAtGives(FallbackRules, baseName, 0);
  }

  /** `no` (or `unavailable`) gives `Unavailable` only when none of the eight
      earlier branches matched. */
  lemma FallbackUnavailableIff(baseName: string)
    ensures FallbackRules[8] == Rule(["unavailable", "no"], Unavailable)
    ensures FallbackRole(baseName) == Some(Unavailable)
        <==> RuleMatches(FallbackRules[8], baseName)
             && forall j :: 0 <= j < 8 ==> !RuleMatches(FallbackRules[j], baseName)
  {
    FallbackRoleIff(baseName, 8);
  }

  /** A stem with none of the keywords of any branch resolves to nothing. */
  lemma FallbackNoneIff(baseName: string)
    ensures FallbackRole(baseName) == None
        <==> forall i :: 0 <= i < |FallbackRules| ==> !RuleMatches(FallbackRules[i], baseName)
  {
  }

  // ---------------------------------------------------------------------
  // The resolver

  /** The index of the last `c` in `s`, or -1 (Python's `str.rfind`). */
  function RFind(s: string, c: char): (i: int)
    ensures -1 <= i < |s|
    ensures 0 <= i ==> s[i] == c
    ensures forall j :: i < j < |s| ==> s[j] != c
  {
    if s == [] then -1
    else if s[|s| - 1] == c then |s| - 1
    else RFind(s[..|s| - 1], c)
  }

  /** `Path(name).stem`: the name without its last suffix, where a leading dot
      or a trailing dot does not start a suffix. */
  function Stem(name: string): string {
    var i := RFind(name, '.');
    if 0 < i < |name| - 1 then name[..i] else name
  }

  /** For a name with a four-character suffix such as `.cur` or `.ani`, the
      stem is the name without those four characters. */
  lemma StemOfSuffixed(name: string, suffix: string)
    requires |suffix| == 4 && suffix[0] == '.' && '.' !in suffix[1..]
    requires EndsWith(name, suffix) && |name| > 4
    ensures Stem(name) == name[..|name| - 4]
  {
    var n := |name|;
    assert name[n - 4..] == suffix;
    assert name[n - 4] == '.';
    forall j | n - 4 < j < n ensures name[j] != '.' {
      assert name[j] == suffix[j - (n - 4)] == suffix[1..][j - (n - 3)];
    }
  }

  /** `get_cursor_name_from_inf(inf_file, cursor_file)`. `descriptor` is the
      text of the chosen `.inf` file, or `None` when the theme has none or it
      cannot be read; `fileName` is the cursor file's name. */
  function GetCursorNameFromInf(descriptor: Option<string>, fileName: string): Option<Role> {
    var fallback := FallbackRole(Lower(Stem(fileName)));
    match descriptor
    case None => fallback
    case Some(text) =>
      match ScanLines(SplitOn(text, '\n'), fileName)
      case Hit(r) => r
      case NoHit => fallback
  }

  // ---------------------------------------------------------------------
  // Properties of the resolver

  /** A descriptor hit is final: the first line naming the file decides, by
      the lookup of its variable alone, even when that lookup finds nothing. */
  lemma DescriptorHitIsFinal(text: string, fileName: string, i: nat)
    requires FirstHitAt(SplitOn(text, '\n'), fileName, i)
    ensures GetCursorNameFromInf(Some(text), fileName)
         == VariableRole(VariableOf(SplitOn(text, '\n')[i]))
  {
    ScanLinesFirstHit(SplitOn(text, '\n'), fileName, i);
  }

  /** Without a usable descriptor, or when no line of it names the file, the
      result is the keyword chain on the lower-cased stem. */
  lemma NoDescriptorHitFallsBack(descriptor: Option<string>, fileName: string)
    requires descriptor.Some? ==>
      forall j :: 0 <= j < |SplitOn(descriptor.value, '\n')| ==>
        !IsSubstring(Needle(fileName), SplitOn(descriptor.value, '\n')[j])
    ensures GetCursorNameFromInf(descriptor, fileName) == FallbackRole(Lower(Stem(fileName)))
  {
    if descriptor.Some? {
      ScanLinesNoHit(SplitOn(descriptor.value, '\n'), fileName);
    }
  }

  /** A line `v= "name"` names exactly the file `name`: the comparison of
      file names is exact, so it tells `Foo.cur` from `foo.cur`. */
  lemma LineNamesIff(v: string, name: string, fileName: string)
    requires '"' !in v && '"' !in name && '"' !in fileName
    ensures IsSubstring(Needle(fileName), v + Needle(name)) <==> fileName == name
  {
    var line := v + Needle(name);
    var n := Needle(fileName);
    IsSubstringIff(n, line);
    if IsSubstring(n, line) {
      var i :| OccursAt(n, line, i);
      OccurrenceInLine(v, name, fileName, i);
    }
    if fileName == name {
      assert line[|v|..|v| + |n|] == n;
      assert OccursAt(n, line, |v|);
    }
  }

  /** Where the needle of `fileName` occurs in the line `v= "name"`, the
      quotes line up and `fileName` is `name`. */
  lemma OccurrenceInLine(v: string, name: string, fileName: string, i: int)
    requires '"' !in v && '"' !in name && '"' !in fileName
    requires OccursAt(Needle(fileName), v + Needle(name), i)
    ensures fileName == name
  {
    var line := v + Needle(name);
    var n := Needle(fileName);
    QuotesOfLine(v, name);
    assert line[i + 2] == n[2] == '"';
    assert line[i + 3 + |fileName|] == n[3 + |fileName|] == '"';
    assert i == |v| && |fileName| == |name|;
    assert fileName == n[3..3 + |fileName|] == line[|v| + 3..|v| + 3 + |name|] == name;
  }

  /** The only quotes of `v= "name"` are the two around `name`. */
  lemma QuotesOfLine(v: string, name: string)
    requires '"' !in v && '"' !in name
    ensures forall k :: 0 <= k < |v + Needle(name)| && (v + Needle(name))[k] == '"'
              ==> k == |v| + 2 || k == |v + Needle(name)| - 1
  {
  }

  /** A descriptor made of one line `v= "name"` (with no `=` in `v`)
      resolves `name` to the role of the variable `v`, stripped and
      lower-cased, and leaves every other file to the keyword chain. */
  lemma OneLineDescriptor(v: string, name: string, fileName: string)
    requires '"' !in v && '"' !in name && '"' !in fileName
    requires '=' !in v && '\n' !in v && '\n' !in name
    ensures GetCursorNameFromInf(Some(v + Needle(name)), fileName)
         == if fileName == name then VariableRole(Lower(Strip(v)))
            else FallbackRole(Lower(Stem(fileName)))
  {
    var line := v + Needle(name);
    assert '\n' !in line by {
      assert forall k :: 0 <= k < |line| ==> line[k] == (if k < |v| then v[k] else Needle(name)[k - |v|]);
    }
    SplitOnJoin([line], '\n');
    assert SplitOn(line, '\n') == [line];
    LineNamesIff(v, name, fileName);
    if fileName == name {
      assert FirstHitAt(SplitOn(line, '\n'), fileName, 0);
      DescriptorHitIsFinal(line, fileName, 0);
      assert line[|v|] == '=';
      assert IndexOf(line, '=') == |v| by {
        assert forall k :: 0 <= k < |v| ==> line[k] == v[k];
      }
      SplitOnHead(line, '=');
      assert line[..|v|] == v;
    } else {
      NoDescriptorHitFallsBack(Some(line), fileName);
    }
  }

  /** The variable of a line does not depend on the letter case of the line:
      two lines equal up to ASCII case assign the same variable. */
  lemma VariableOfIgnoresCase(line1: string, line2: string)
    requires Lower(line1) == Lower(line2)
    ensures VariableOf(line1) == VariableOf(line2)
  {
    VariableOfLower(line1);
    VariableOfLower(line2);
  }

  /** `VariableOf(line)` is determined by `Lower(line)`. */
  lemma VariableOfLower(line: string)
    ensures VariableOf(line) == Strip(Lower(line)[..IndexOf(Lower(line), '=')])
  {
    var k := IndexOf(line, '=');
    IndexOfLower(line, '=');
    SplitOnHead(line, '=');
    var head := SplitOn(line, '=')[0];
    assert head == line[..k];
    LowerPrefix(line, k);
    LowerStrip(head);
  }

  lemma LowerPrefix(s: string, k: nat)
    requires k <= |s|
    ensures Lower(s[..k]) == Lower(s)[..k]
  {
  }

  /** Lower-casing keeps every non-letter where it is. */
  lemma IndexOfLower(s: string, c: char)
    requires !IsUpper(c) && !('a' <= c <= 'z')
    ensures IndexOf(Lower(s), c) == IndexOf(s, c)
  {
  }

  /** Lower-casing and stripping commute: ASCII letters are not whitespace. */
  lemma {:induction false} LowerStrip(s: string)
    ensures Lower(Strip(s)) == Strip(Lower(s))
  {
    LowerTrimLeft(s);
    LowerTrimRight(TrimLeft(s));
  }

  lemma {:induction false} LowerTrimLeft(s: string)
    ensures Lower(TrimLeft(s)) == TrimLeft(Lower(s))
    decreases |s|
  {
    if s != [] {
      var l := Lower(s);
      assert l[0] == LowerChar(s[0]);
      assert IsSpace(l[0]) == IsSpace(s[0]);
      assert l[1..] == Lower(s[1..]);
      if IsSpace(s[0]) {
        assert TrimLeft(s) == TrimLeft(s[1..]);
        assert TrimLeft(l) == TrimLeft(l[1..]);
        LowerTrimLeft(s[1..]);
      } else {
        assert TrimLeft(s) == s;
        assert TrimLeft(l) == l;
      }
    }
  }

  lemma {:induction false} LowerTrimRight(s: string)
    ensures Lower(TrimRight(s)) == TrimRight(Lower(s))
    decreases |s|
  {
    if s != [] {
      var n := |s|;
      var l := Lower(s);
      assert l[n - 1] == LowerChar(s[n - 1]);
      assert IsSpace(l[n - 1]) == IsSpace(s[n - 1]);
      assert l[..n - 1] == Lower(s[..n - 1]);
      if IsSpace(s[n - 1]) {
        LowerTrimRight(s[..n - 1]);
      }
    }
  }

  /** Every role the resolver returns has a non-empty alias list, so the
      orchestrator's "no mapping" branch is never taken. */
  lemma ResolvedRoleIsMapped(descriptor: Option<string>, fileName: string)
    requires GetCursorNameFromInf(descriptor, fileName).Some?
    ensures GetCursorNameFromInf(descriptor, fileName).value in CursorMappings
    ensures LinuxNames(GetCursorNameFromInf(descriptor, fileName).value) != ""
    ensures |Aliases(GetCursorNameFromInf(descriptor, fileName).value)| > 0
  {
    EveryRoleMapped(GetCursorNameFromInf(descriptor, fileName).value);
  }
}
