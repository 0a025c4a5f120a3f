# Windows-to-Linux cursor theme converter, modelled in Dafny

This project models the core of `convert_cursors.py`, the `CursorConverter` of
win-cursor-2-linux. The converter takes a directory of Windows cursor files
(`.cur`/`.ani`, usually with an `install.inf` descriptor). It turns it into a
Linux cursor theme: a `cursors/` directory and an `index.theme` file.

For each cursor file the converter does four things:

- It works out the file's *role* (Default, Busy, Text, ...). The first
  descriptor line that names the file decides. Otherwise a chain of keyword
  tests on the file's lower-cased stem decides.
- It converts the file once, with the external `win2xcur` tool.
- It copies the result under every Linux cursor name listed for that role in
  `CURSOR_MAPPINGS`.
- It keeps a tally. Once the files are done it writes `index.theme`.

The modules follow the structure of the program:

- `wrappers.dfy` — `Option`.
- `text.dfy` (`TextUtil`) — the Python string operations the converter
  uses, restricted to ASCII: `str.isspace`, `str.lower`, `str.strip`,
  `str.split(sep)`, `str.split()`, `sep.join`, `sub in s`, `str.endswith`.
- `cursor_table.dfy` (`CursorTable`) — the fifteen roles and
  `CURSOR_MAPPINGS`.
- `resolver.dfy` (`Resolver`) — `get_cursor_name_from_inf`, in two parts:
  - the descriptor scan, with its variable table;
  - the keyword chain, as an ordered table of tests where the first match
    wins.
- `resolver_examples.dfy` (`ResolverExamples`) — worked one-line
  descriptors, derived from the general lemmas.
- `discovery.dfy` (`Discovery`) — `find_cursor_files` and the choice of
  the `.inf` descriptor.
- `index_theme.dfy` (`IndexTheme`) — the `index.theme` text.
- `conversion.dfy` (`Conversion`) — the class `ThemeOutput`. It holds the
  output theme directory (`cursors/` as a map from file name to artifact,
  and `index.theme`), and its methods are `convert_cursor_file`,
  `create_index_theme` and `process_cursor_theme`.

The loop of `process_cursor_theme` is specified by two functions over the
list of *jobs* (each cursor file with its resolved role and Linux names):

- `AfterJobs`: the output directory after the loop.
- `ConvertedCount`: the tally.

The lemmas about these functions give the properties of a whole theme run:

- which names exist afterwards;
- that the last writer wins;
- that untouched names are kept;
- that the tally equals the total exactly when every file converted;
- that a failing converter changes nothing.

Inputs from outside the program are parameters:

- The `win2xcur` converter is a function from a cursor file's name to
  `Option<Artifact>`. `None` stands for a non-zero exit status, no output
  file, or an exception.
- A theme directory is a value (`ThemeDir`): its name, its entries in listing
  order, and the text of each readable entry.

Some behaviour of the code that the model keeps as written:

- A theme without cursor files gets no `index.theme`: the method returns
  before writing it (`convert_cursors.py:207-209`).
- Every alias receives its own copy of the artifact, overwriting whatever
  the name held before (`convert_cursors.py:170-171`). Nothing is linked and
  nothing is skipped.
- The descriptor matches the file name case-sensitively
  (`convert_cursors.py:92`), while the variable lookup ignores case
  (`convert_cursors.py:113`).
- The keyword chain runs on the lower-cased stem
  (`convert_cursors.py:118`), and it is the only fallback.

## Model

| member | source | states |
|---|---|---|
| CursorTable.RoleAliases | convert_cursors.py:25-41 | defines the table's row for each role: the names of the source's string, in order (`CursorMappings` is the map from every role to its row) |
| CursorTable.LinuxNames | convert_cursors.py:221 | defines `CURSOR_MAPPINGS.get(role, "")`: the row joined by single spaces, or empty for a role without an entry |
| CursorTable.Aliases | convert_cursors.py:170 | defines `linux_names.split()` for a role |
| CursorTable.AliasesAreRow | convert_cursors.py:25-41 | every role is a key of the table, and `CURSOR_MAPPINGS[role].split()` gives exactly the role's listed names, in order |
| CursorTable.RowsAreWords | convert_cursors.py:25-41 | every name of every row is non-empty and free of whitespace |
| CursorTable.RowStartsWithLetter | convert_cursors.py:25-41 | each row is non-empty and its first name starts with a lower-case letter |
| CursorTable.JoinedNamesNonEmpty | convert_cursors.py:221-223 | a space-joined name list whose first name starts with a letter is a non-empty (truthy) string that splits into at least one name |
| CursorTable.EveryRoleMapped | convert_cursors.py:221-229 | every role has an entry, its `linux_names` string is non-empty and `split()` gives at least one name, so the "No mapping found" branch is never taken |
| TextUtil.Lower | convert_cursors.py:118 | `lower()` keeps the length, lower-cases each character in place and leaves no upper-case letter |
| TextUtil.LowerIdempotent | convert_cursors.py:113 | lower-casing twice is lower-casing once |
| TextUtil.TrimLeft | convert_cursors.py:93 | the result is a suffix of the input, only whitespace was removed, and it does not start with whitespace |
| TextUtil.TrimRight | convert_cursors.py:93 | the result is a prefix of the input, only whitespace was removed, and it does not end with whitespace |
| TextUtil.Strip | convert_cursors.py:93 | `strip()` gives a slice of the input with only whitespace outside it, neither starting nor ending with whitespace |
| TextUtil.TrimLeftPadded | convert_cursors.py:93 | trimming a whitespace prefix off a text that starts with a non-space gives that text back |
| TextUtil.TrimRightPadded | convert_cursors.py:93 | trimming a whitespace suffix off a text that ends with a non-space gives that text back |
| TextUtil.StripPadded | convert_cursors.py:93 | stripping a word padded by whitespace gives the word |
| TextUtil.IndexOf | convert_cursors.py:93 | `find` gives the first occurrence of the character, or the length when there is none |
| TextUtil.SplitOn | convert_cursors.py:91 | `split(c)` gives at least one piece, no piece contains `c`, and joining the pieces with `c` restores the text |
| TextUtil.SplitOnHead | convert_cursors.py:93 | `split('=')[0]` is the text before the first `=` |
| TextUtil.SplitOnJoin | convert_cursors.py:91 | splitting on `c` undoes joining with `c` when no piece contains `c` |
| TextUtil.JoinWithHead | convert_cursors.py:223 | a join starts with the first character of its first part |
| TextUtil.IsSubstringIff | convert_cursors.py:92 | the scanning `sub in s` holds exactly when `sub` occurs at some position of `s` |
| TextUtil.TakeWord | convert_cursors.py:170 | the longest whitespace-free prefix, followed by whitespace or by the end |
| TextUtil.Words | convert_cursors.py:170 | `split()` gives only non-empty whitespace-free words, and no word at all exactly when the text is all whitespace |
| TextUtil.TakeWordOf | convert_cursors.py:170 | a word followed by whitespace or by nothing is taken whole |
| TextUtil.WordsOfJoin | convert_cursors.py:170 | `" ".join(ws).split() == ws` for every list of words (`CursorTable.AliasesAreRow` applies it to each row of the table) |
| Discovery.Glob | convert_cursors.py:78-79 | a glob keeps exactly the entries with the suffix, in listing order |
| Discovery.GlobOne | convert_cursors.py:78-79 | a one-entry listing globs to the entry exactly when it has the suffix |
| Discovery.GlobAppend | convert_cursors.py:78-79 | globbing two listings in turn gives their globs in turn, so the glob keeps listing order |
| Discovery.CursorFiles | convert_cursors.py:76-80 | defines the cursor files as the `.cur` glob followed by the `.ani` glob |
| Discovery.InfFiles | convert_cursors.py:202 | defines `inf_files`: `install.inf` when present, then every `.inf` entry in listing order |
| Discovery.GlobFirst | convert_cursors.py:202-203 | the first entry in listing order with the suffix is the first match of the glob |
| Discovery.FindCursorFiles | convert_cursors.py:76-80 | the loop over the patterns gives the `.cur` glob followed by the `.ani` glob |
| Discovery.CursorFilesMembers | convert_cursors.py:76-80 | a name is a cursor file exactly when it is an entry ending with `.cur` or `.ani` |
| Discovery.CurBeforeAni | convert_cursors.py:78-79 | every `.cur` file comes before every `.ani` file |
| Discovery.ChooseDescriptor | convert_cursors.py:202-203 | a chosen descriptor is an entry ending with `.inf` |
| Discovery.InstallInfPreferred | convert_cursors.py:202-203 | an `install.inf` present in the directory is chosen |
| Discovery.FirstInfChosen | convert_cursors.py:202-203 | without `install.inf`, the first `.inf` entry in listing order is chosen |
| Discovery.NoDescriptorIff | convert_cursors.py:202-203 | no descriptor is chosen exactly when no entry ends with `.inf` |
| IndexTheme.IndexThemeContent | convert_cursors.py:182-186 | defines the text written to `index.theme` for a theme name |
| IndexTheme.JoinFourLines | convert_cursors.py:182-186 | four lines, each ended by a newline, are their join with a trailing empty line |
| IndexTheme.ContentIsJoin | convert_cursors.py:182-186 | the content is its lines joined by newlines |
| IndexTheme.LinesHaveNoNewline | convert_cursors.py:182-186 | for a newline-free theme name, no line holds a newline |
| IndexTheme.IndexThemeSplit | convert_cursors.py:182-186 | for a newline-free theme name, the file consists of exactly `[Icon Theme]`, `Name=<t>`, `Comment=Converted Windows cursor theme: <t>` and `Inherits=core`, and ends with a newline |
| Resolver.GetCursorNameFromInf | convert_cursors.py:82-151 | defines the resolver: with a descriptor text, the scan's hit decides; with no text or no hit, the keyword chain on the lower-cased stem |
| Resolver.VariableRole | convert_cursors.py:95-113 | defines `mapping.get(name)` over the fifteen-entry variable table `VariableRoles` |
| Resolver.VariableOf | convert_cursors.py:93 | defines the variable of a line: `line.split('=')[0].strip().lower()` |
| Resolver.Needle | convert_cursors.py:92 | defines the text `= "<file name>"` a naming line holds |
| Resolver.ScanLines | convert_cursors.py:91-113 | defines the scan of the descriptor's lines: the first line holding the needle gives its variable's lookup, and no such line gives no hit |
| Resolver.FallbackRole | convert_cursors.py:117-151 | defines the keyword chain as the first match over the ordered table `FallbackRules`, one entry per branch |
| Resolver.Stem | convert_cursors.py:118 | defines `Path(name).stem`: the name without its last suffix, where a leading or trailing dot starts none |
| Resolver.ScanLinesFirstHit | convert_cursors.py:91-113 | the scan returns the variable lookup of the first line holding `= "<name>"` |
| Resolver.ScanLinesNoHit | convert_cursors.py:91-92 | the scan finds nothing exactly when no line holds the needle |
| Resolver.ContainsAnyIff | convert_cursors.py:120 | `any(x in s for x in kws)` holds exactly when some keyword occurs in `s` |
| Resolver.FirstMatch | convert_cursors.py:120-151 | an ordered chain gives nothing exactly when no test matches, else the role of a matching test preceded by no matching test |
| Resolver.FirstMatchAtGives | convert_cursors.py:120-151 | when test `i` is the first to match, its role is the result |
| Resolver.FallbackRolesDistinct | convert_cursors.py:120-149 | the fifteen branches give fifteen different roles |
| Resolver.FallbackRoleIff | convert_cursors.py:120-151 | the chain gives branch `i`'s role if and only if branch `i` is the first whose keywords occur in the stem |
| Resolver.FallbackDefaultFirst | convert_cursors.py:120-121 | a stem holding `normal`, `arrow` or `default` is Default whatever else it holds |
| Resolver.FallbackUnavailableIff | convert_cursors.py:136-137 | `unavailable`/`no` gives Unavailable if and only if none of the eight earlier branches matches |
| Resolver.FallbackNoneIff | convert_cursors.py:150-151 | the chain gives nothing if and only if no branch matches |
| Resolver.RFind | convert_cursors.py:118 | the last occurrence of the character, or -1 |
| Resolver.StemOfSuffixed | convert_cursors.py:118 | the stem of `x.cur`/`x.ani` is `x` |
| Resolver.DescriptorHitIsFinal | convert_cursors.py:90-113 | the first line naming the file decides by its variable's lookup alone, even when the lookup finds nothing (no fallback) |
| Resolver.NoDescriptorHitFallsBack | convert_cursors.py:84-118 | without a descriptor, or when no line names the file, the result is the keyword chain on the lower-cased stem |
| Resolver.LineNamesIff | convert_cursors.py:92 | the line `v= "name"` names the file if and only if the file name equals `name` exactly (case-sensitive) |
| Resolver.OccurrenceInLine | convert_cursors.py:92 | an occurrence of the needle in `v= "name"` forces the file name to be `name` |
| Resolver.QuotesOfLine | convert_cursors.py:92 | the only quotes of `v= "name"` are the two around `name` |
| Resolver.OneLineDescriptor | convert_cursors.py:84-118 | a one-line descriptor gives its stripped, lower-cased variable's role to the file it names, and the keyword chain to every other file |
| Resolver.VariableOfIgnoresCase | convert_cursors.py:93-113 | lines equal up to ASCII case assign the same variable (the lookup is case-insensitive) |
| Resolver.VariableOfLower | convert_cursors.py:93-113 | the variable read from a line is determined by its lower-cased form |
| Resolver.LowerPrefix | convert_cursors.py:113 | lower-casing commutes with taking a prefix |
| Resolver.IndexOfLower | convert_cursors.py:93 | lower-casing moves no non-letter, so the first `=` stays where it is |
| Resolver.LowerStrip | convert_cursors.py:93-113 | `strip().lower()` equals `lower().strip()` |
| Resolver.LowerTrimLeft | convert_cursors.py:93-113 | left trimming commutes with lower-casing |
| Resolver.LowerTrimRight | convert_cursors.py:93-113 | right trimming commutes with lower-casing |
| Resolver.ResolvedRoleIsMapped | convert_cursors.py:215-223 | every role the resolver returns has a non-empty `linux_names` and at least one alias |
| ResolverExamples.PointerVariable | convert_cursors.py:93-113 | `"Pointer ".strip().lower()` maps to Default |
| ResolverExamples.DescriptorNamesBusyFile | convert_cursors.py:90-113 | with `Pointer = "Busy.cur"`, the file `Busy.cur` is Default: the descriptor beats the keyword `busy` |
| ResolverExamples.DescriptorMissesLowerCaseFile | convert_cursors.py:92-123 | the same descriptor does not name `busy.cur`, which falls through to the chain and is Busy |
| ResolverExamples.CursorVariable | convert_cursors.py:93-113 | the variable `Cursor` is not in the variable table |
| ResolverExamples.UnknownVariableIsFinal | convert_cursors.py:113-121 | with `Cursor = "Normal.cur"` the file `Normal.cur` gets no role, although the keyword chain alone gives it Default |
| ResolverExamples.StripTrailingSpace | convert_cursors.py:93 | stripping a word followed by a space gives the word |
| ResolverExamples.StemBusy | convert_cursors.py:118 | the stem of `busy.cur` is `busy` |
| ResolverExamples.StemNormal | convert_cursors.py:118 | the stem of `Normal.cur` is `Normal` |
| ResolverExamples.BusyIsRuleOne | convert_cursors.py:120-123 | `busy` skips the Default branch and is caught by the Busy branch |
| Conversion.DescriptorText | convert_cursors.py:84-87 | defines the descriptor text the resolver reads: that of the chosen `.inf` entry, or none when there is none or it cannot be read |
| Conversion.ResolveWith | convert_cursors.py:215 | defines the resolver with the theme's descriptor fixed, as the loop calls it |
| Conversion.JobOf | convert_cursors.py:215-221 | defines one file's job: the file, its resolved role and `CURSOR_MAPPINGS.get(role, "")` |
| Conversion.Converts | convert_cursors.py:217-225 | defines when the tally goes up: a role, a non-empty name string and a successful conversion |
| Conversion.AfterJobs | convert_cursors.py:214-230 | defines the output directory after the loop: each converting job in turn copies its artifact to its aliases |
| Conversion.ThemeJobs | convert_cursors.py:202-215 | defines a theme's jobs: its discovered cursor files, resolved with its chosen descriptor |
| Conversion.CopyAll | convert_cursors.py:170-171 | after copying to each name, every name holds the artifact and every other entry is unchanged |
| Conversion.Jobs | convert_cursors.py:214-221 | one job per cursor file, in order, each with the file's resolved role and that role's `linux_names` |
| Conversion.ConvertedCount | convert_cursors.py:211-225 | the tally never exceeds the number of files handled |
| Conversion.ThemeOutput.ConvertCursorFile | convert_cursors.py:153-177 | the result is true exactly when the converter produces an artifact. The artifact is then copied to every name of `linux_names.split()`, overwriting, and nothing else changes. On failure the output is unchanged |
| Conversion.ThemeOutput.CreateIndexTheme | convert_cursors.py:179-191 | `index.theme` then holds the theme's text |
| Conversion.ThemeOutput.ProcessCursorFile | convert_cursors.py:214-229 | one loop pass: counted exactly when the file has a role with Linux names and the converter succeeds, and then its artifact is copied to those names |
| Conversion.ThemeOutput.ConvertCursorFiles | convert_cursors.py:211-230 | the loop leaves the output and the tally given by `AfterJobs` and `ConvertedCount` of the file list |
| Conversion.ThemeOutput.ProcessCursorTheme | convert_cursors.py:193-233 | creates `cursors/`. `total` is the number of discovered cursor files and `converted <= total`. The output and the tally are those of the theme's jobs. `index.theme` is written exactly when cursor files exist |
| Conversion.ConvertsIff | convert_cursors.py:215-229 | a file is counted if and only if the resolver gives it a role and the converter succeeds, and it is then copied to at least one name |
| Conversion.JobOfMapped | convert_cursors.py:221-223 | a resolved job always carries a non-empty name string with at least one alias |
| Conversion.AfterJobsKeys | convert_cursors.py:214-230 | after the loop, a name exists exactly when it existed before or is an alias of some converted file |
| Conversion.LastWriterWins | convert_cursors.py:170-171 | a name holds the artifact of the last converted file among whose aliases it is |
| Conversion.UntouchedName | convert_cursors.py:170-171 | a name that no converted file is copied to keeps its old content |
| Conversion.AllConvertedIff | convert_cursors.py:211-231 | `converted == total` if and only if every file converted |
| Conversion.FailingConverterChangesNothing | convert_cursors.py:211-231 | with a converter that always fails, the tally is 0 and the output is unchanged |

## Left out

- Running `win2xcur` (the subprocess and its temporary directory) is an
  oracle parameter. Picking `converted_files[0]` from the tool's output
  directory is part of that oracle.
- Exceptions raised while running `win2xcur` or listing its output count as
  a converter failure (`None`).
- Conversion.ThemeOutput.ConvertCursorFile: an error raised by
  `shutil.copy2` part-way through the alias loop is not modelled. The source
  then returns `False` with the aliases copied so far already overwritten;
  in the model copying cannot fail.
- The filesystem is modelled by values:
  - the theme directory is a `ThemeDir`;
  - the output is a map from file name to artifact;
  - `mkdir` sets a flag;
  - the metadata that `shutil.copy2` preserves is not modelled.
- Paths are plain file names. `cursor_file.name` and the path handed to the
  converter are the same string here.
- `convert_cursor_file` takes `output_dir` and `cursor_name` in the source.
  Its model leaves them out: the output is the object's own map, and
  `cursor_name` is only printed.
- The glob order is taken as the listing order of `ThemeDir.entries`. The
  order pathlib really yields depends on the operating system.
- The glob matches case-sensitively, as on POSIX.
- Reading the descriptor:
  - `encoding='utf-8', errors='ignore'` is not modelled;
  - a descriptor that cannot be read (including any exception in the `try`)
    is a missing text, and resolution falls back to the keyword chain;
  - line endings are taken as already translated to `\n`.
- String operations are ASCII only. `lower`, `strip`, `isspace` and
  `split()` ignore Unicode case mappings and Unicode whitespace.
- Console output, colours, `check_win2xcur`, `create_directories`, `run`,
  the command line and the exit codes are not part of this model. Neither
  is the loop over themes.
- `Conversion.ThemeOutput.ProcessCursorTheme`: the loop body is split into
  two methods, `ConvertCursorFiles` and `ProcessCursorFile`. They receive
  `get_cursor_name_from_inf` with the descriptor already fixed, as a
  function value (`ResolveWith`).
- `CursorTable.RoleAliases`: each row of `CURSOR_MAPPINGS` is kept as a list
  of names, and the Python string is their space-joined form
  (`LinuxNames`). `CursorTable.AliasesAreRow` proves that this string splits
  back into the list.
- `Resolver.Stem`: `PurePath.stem` is modelled for a single file name. Names
  with directory separators are not considered.
- The descriptor's `[Strings]` section is not treated specially. Like the
  code, the model scans every line.
