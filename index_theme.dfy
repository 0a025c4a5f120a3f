/**
 * The `index.theme` text that `CursorConverter.create_index_theme` writes for
 * a converted theme.
 */
module IndexTheme {
  import opened TextUtil

  const Header: string := "[Icon Theme]"
  const NameKey: string := "Name="
  const CommentKey: string := "Comment=Converted Windows cursor theme: "
  const InheritsLine: string := "Inherits=core"

  /** The file's text for the theme `themeName`: the header, the name, a
      comment naming the theme and the inherited theme, each line ended by a
      newline. */
  function IndexThemeContent(themeName: string): string {
    Header + "\n" + NameKey + themeName + "\n" + CommentKey + themeName + "\n" + InheritsLine + "\n"
  }

  /** The lines of the file, the last one being the empty text after the
      final newline. */
  function IndexThemeLines(themeName: string): seq<string> {
    [Header, NameKey + themeName, CommentKey + themeName, InheritsLine, ""]
  }

  /** Four lines joined by newlines, with a newline after the last. */
  lemma JoinFourLines(a: string, b: string, c: string, d: string)
    ensures JoinWith([a, b, c, d, ""], "\n") == a + "\n" + b + "\n" + c + "\n" + d + "\n"
  {
    var ls := [a, b, c, d, ""];
    assert ls[1..] == [b, c, d, ""] && ls[1..][1..] == [c, d, ""];
    assert ls[1..][1..][1..] == [d, ""] && ls[1..][1..][1..][1..] == [""];
    assert JoinWith([d, ""], "\n") == d + "\n" + "" == d + "\n";
    assert JoinWith([c, d, ""], "\n") == c + "\n" + (d + "\n");
    assert JoinWith([b, c, d, ""], "\n") == b + "\n" + (c + "\n" + (d + "\n"));
  }

  /** A key followed by a newline-free value holds no newline. */
  lemma NoNewlineIn(key: string, value: string)
    requires '\n' !in key && '\n' !in value
    ensures '\n' !in key + value
  {
  }

  lemma ConstantsHaveNoNewline()
    ensures '\n' !in Header && '\n' !in NameKey && '\n' !in CommentKey && '\n' !in InheritsLine
  {
  }

  /** The file is its lines joined by newlines. */
  lemma ContentIsJoin(themeName: string)
    ensures IndexThemeContent(themeName) == JoinWith(IndexThemeLines(themeName), ['\n'])
  {
    JoinFourLines(Header, NameKey + themeName, CommentKey + themeName, InheritsLine);
  }

  /** No line of the file holds a newline when the theme name holds none. */
  lemma LinesHaveNoNewline(themeName: string)
    requires '\n' !in themeName
    ensures forall k :: 0 <= k < |IndexThemeLines(themeName)| ==> '\n' !in IndexThemeLines(themeName)[k]
  {
    ConstantsHaveNoNewline();
    NoNewlineIn(NameKey, themeName);
    NoNewlineIn(CommentKey, themeName);
  }

  /** For a theme name without a newline, splitting the file at its newlines
      gives exactly the four lines `[Icon Theme]`, `Name=<t>`,
      `Comment=Converted Windows cursor theme: <t>`, `Inherits=core`, and
      the file ends with a newline. */
  lemma IndexThemeSplit(themeName: string)
    requires '\n' !in themeName
    ensures SplitOn(IndexThemeContent(themeName), '\n') == IndexThemeLines(themeName)
  {
    ContentIsJoin(themeName);
    LinesHaveNoNewline(themeName);
    SplitOnJoin(IndexThemeLines(themeName), '\n');
  }
}
