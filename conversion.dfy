/**
 * The per-theme orchestration of `CursorConverter`: `convert_cursor_file`
 * (one artifact copied under every Linux alias), `create_index_theme` and
 * `process_cursor_theme` (discovery, resolution, conversion and the tally).
 *
 * The external converter `win2xcur` is a parameter: a function from a cursor
 * file's name to the artifact it produces, or `None` when it exits with an
 * error, produces no file or raises. The output `cursors/` directory is a map
 * from file name to artifact, held by a `ThemeOutput` object.
 */
module Conversion {
  import opened Wrappers
  import opened TextUtil
  import opened CursorTable
  import opened Resolver
  import opened Discovery
  import opened IndexTheme

  /** The bytes of one converted X cursor file. */
  datatype Artifact = Artifact(bytes: seq<bv8>)

  /** A Windows theme directory: its name, the names of its entries in
      listing order, and the text of each entry that can be read. */
  datatype ThemeDir = ThemeDir(name: string, entries: seq<string>, texts: map<string, string>)

  /** The descriptor text the resolver sees: that of the chosen `.inf`
      file, or `None` when there is none or it cannot be read. */
  function DescriptorText(theme: ThemeDir): Option<string> {
    match ChooseDescriptor(theme.entries)
    case None => None
    case Some(inf) => if inf in theme.texts then Some(theme.texts[inf]) else None
  }

  /** The directory after `shutil.copy2(artifact, dir / name)` for each of
      `names` in turn: every name holds the artifact, every other entry is
      kept. */
  function CopyAll(dir: map<string, Artifact>, names: seq<string>, a: Artifact): (r: map<string, Artifact>)
    ensures forall n :: n in r <==> n in dir || n in names
    ensures forall n :: n in names ==> r[n] == a
    ensures forall n :: n in dir && n !in names ==> r[n] == dir[n]
    decreases |names|
  {
    if names == [] then dir
    else CopyAll(dir, names[..|names| - 1], a)[names[|names| - 1] := a]
  }

  // ---------------------------------------------------------------------
  // What the loop of `process_cursor_theme` computes

  /** One cursor file with the role the resolver gives it and the Linux
      names of that role (`CURSOR_MAPPINGS.get(role, "")`, empty when the
      file has no role). */
  datatype Job = Job(file: string, role: Option<Role>, linuxNames: string)

  /** `get_cursor_name_from_inf(inf_file, ·)`: the resolver with the
      theme's descriptor fixed, as the loop uses it. */
  function ResolveWith(descriptor: Option<string>): string -> Option<Role> {
    file => GetCursorNameFromInf(descriptor, file)
  }

  /** The job of one file, for the resolver `resolve`. */
  function JobOf(resolve: string -> Option<Role>, file: string): Job {
    var role := resolve(file);
    Job(file, role, if role.Some? then LinuxNames(role.value) else "")
  }

  /** The files of a theme, each with its resolved role, in loop order. */
  function Jobs(resolve: string -> Option<Role>, files: seq<string>): (js: seq<Job>)
    ensures |js| == |files|
    ensures forall i :: 0 <= i < |files| ==> js[i] == JobOf(resolve, files[i])
    decreases |files|
  {
    if files == [] then []
    else
      var init := files[..|files| - 1];
      assert forall i :: 0 <= i < |init| ==> init[i] == files[i];
      Jobs(resolve, init) + [JobOf(resolve, files[|files| - 1])]
  }

  /** The Linux names a job's file is copied to: the aliases of its role,
      or none when it has no role. */
  function JobAliases(job: Job): seq<string> {
    Words(job.linuxNames)
  }

  /** The file is resolved, its role has aliases and the converter
      succeeds: the cases where `converted_count` goes up. */
  predicate Converts(job: Job, convert: string -> Option<Artifact>) {
    job.role.Some? && job.linuxNames != "" && convert(job.file).Some?
  }

  /** The output directory after the loop has handled `jobs`. */
  function AfterJobs(dir: map<string, Artifact>, jobs: seq<Job>, convert: string -> Option<Artifact>)
    : map<string, Artifact>
    decreases |jobs|
  {
    if jobs == [] then dir
    else
      var before := AfterJobs(dir, jobs[..|jobs| - 1], convert);
      var job := jobs[|jobs| - 1];
      if Converts(job, convert) then CopyAll(before, JobAliases(job), convert(job.file).value) else before
  }

  /** `converted_count` after the loop has handled `jobs`. */
  function ConvertedCount(jobs: seq<Job>, convert: string -> Option<Artifact>): (n: nat)
    ensures n <= |jobs|
    decreases |jobs|
  {
    if jobs == [] then 0
    else ConvertedCount(jobs[..|jobs| - 1], convert) + (if Converts(jobs[|jobs| - 1], convert) then 1 else 0)
  }

  // ---------------------------------------------------------------------
  // The output of one theme

  class ThemeOutput {
    /** Whether `cursors/` has been created. */
    var hasCursorsDir: bool
    /** The files of `cursors/`. */
    var cursors: map<string, Artifact>
    /** The text of `index.theme`, once written. */
    var indexTheme: Option<string>

    /** An output theme directory that does not exist yet. */
    constructor ()
      ensures !hasCursorsDir && cursors == map[] && indexTheme == None
    {
      hasCursorsDir := false;
      cursors := map[];
      indexTheme := None;
    }

    /** `convert_cursor_file`: on success, the one artifact is copied to
        every name of `linuxNames.split()`, overwriting what was there, and
        the result is true; on failure nothing changes and the result is
        false. */
    method ConvertCursorFile(inputFile: string, linuxNames: string, convert: string -> Option<Artifact>)
      returns (ok: bool)
      modifies this`cursors
      ensures ok == convert(inputFile).Some?
      ensures cursors == if ok then CopyAll(old(cursors), Words(linuxNames), convert(inputFile).value)
                         else old(cursors)
    {
      var out := convert(inputFile);
      if out.None? {
        return false;
      }
      var names := Words(linuxNames);
      var i := 0;
      while i < |names|
        invariant 0 <= i <= |names|
        invariant cursors == CopyAll(old(cursors), names[..i], out.value)
      {
        assert names[..i + 1][..i] == names[..i];
        cursors := cursors[names[i] := out.value];
        i := i + 1;
      }
      assert names[..i] == names;
      return true;
    }

    /** `create_index_theme`: writes (or overwrites) `index.theme`. */
    method CreateIndexTheme(themeName: string)
      modifies this`indexTheme
      ensures indexTheme == Some(IndexThemeContent(themeName))
    {
      indexTheme := Some(IndexThemeContent(themeName));
    }

    /** One pass of the loop of `process_cursor_theme`: resolve the file,
        skip it when it has no role or its role no Linux names, and
        otherwise convert it. The result is whether the tally goes up. */
    method ProcessCursorFile(resolve: string -> Option<Role>, file: string, convert: string -> Option<Artifact>)
      returns (ok: bool)
      modifies this`cursors
      ensures ok == Converts(JobOf(resolve, file), convert)
      ensures cursors == if ok then CopyAll(old(cursors), JobAliases(JobOf(resolve, file)), convert(file).value)
                         else old(cursors)
    {
      var cursorName := resolve(file);
      if cursorName.None? {
        return false;
      }
      var linuxNames := LinuxNames(cursorName.value);
      if linuxNames == "" {
        return false;
      }
      ok := ConvertCursorFile(file, linuxNames, convert);
    }

    /** The loop of `process_cursor_theme` over the discovered files: each
        file is resolved and, when it has a role with Linux names, converted;
        the result is `converted_count`. */
    method ConvertCursorFiles(resolve: string -> Option<Role>, files: seq<string>,
                              convert: string -> Option<Artifact>)
      returns (converted: nat)
      modifies this`cursors
      ensures converted == ConvertedCount(Jobs(resolve, files), convert)
      ensures cursors == AfterJobs(old(cursors), Jobs(resolve, files), convert)
    {
      ghost var jobs := Jobs(resolve, files);
      converted := 0;
      for i := 0 to |files|
        invariant cursors == AfterJobs(old(cursors), jobs[..i], convert)
        invariant converted == ConvertedCount(jobs[..i], convert)
        invariant converted <= i
      {
        assert jobs[..i + 1][..i] == jobs[..i];
        var ok := ProcessCursorFile(resolve, files[i], convert);
        if ok {
          converted := converted + 1;
        }
      }
      assert jobs[..|files|] == jobs;
    }

    /** `process_cursor_theme`: creates `cursors/`, picks the descriptor,
        discovers the cursor files and returns early when there are none;
        otherwise converts each file in turn, tallies the successes and
        writes `index.theme`. The result is the reported tally
        `converted/total`. */
    method ProcessCursorTheme(theme: ThemeDir, convert: string -> Option<Artifact>)
      returns (converted: nat, total: nat)
      modifies this
      ensures hasCursorsDir
      ensures total == |CursorFiles(theme.entries)|
      ensures converted == ConvertedCount(ThemeJobs(theme), convert)
      ensures converted <= total
      ensures cursors == AfterJobs(old(cursors), ThemeJobs(theme), convert)
      ensures indexTheme == if total == 0 then old(indexTheme) else Some(IndexThemeContent(theme.name))
    {
      hasCursorsDir := true;
      var descriptor := DescriptorText(theme);
      var files := FindCursorFiles(theme.entries);
      if files == [] {
        return 0, 0;
      }
      total := |files|;
      converted := ConvertCursorFiles(ResolveWith(descriptor), files, convert);
      CreateIndexTheme(theme.name);
    }
  }

  /** The jobs of a theme: its cursor files, each with the role the
      theme's descriptor or its name gives it. */
  function ThemeJobs(theme: ThemeDir): seq<Job> {
    Jobs(ResolveWith(DescriptorText(theme)), CursorFiles(theme.entries))
  }

  // ---------------------------------------------------------------------
  // Properties of the loop

  /** The "no mapping" branch is dead: a file converts exactly when it is
      resolved and the converter succeeds, and it is then copied to at least
      one name. */
  lemma ConvertsIff(descriptor: Option<string>, file: string, convert: string -> Option<Artifact>)
    ensures Converts(JobOf(ResolveWith(descriptor), file), convert)
        <==> GetCursorNameFromInf(descriptor, file).Some? && convert(file).Some?
    ensures Converts(JobOf(ResolveWith(descriptor), file), convert)
        ==> |JobAliases(JobOf(ResolveWith(descriptor), file))| > 0
  {
    JobOfMapped(ResolveWith(descriptor), file);
  }

  /** A resolved job always carries the non-empty Linux names of its role. */
  lemma JobOfMapped(resolve: string -> Option<Role>, file: string)
    ensures JobOf(resolve, file).role.Some? ==>
      JobOf(resolve, file).linuxNames != "" && |JobAliases(JobOf(resolve, file))| > 0
  {
    var role := resolve(file);
    if role.Some? {
      EveryRoleMapped(role.value);
    }
  }

  /** After the loop, the output holds exactly the names it held before and
      the aliases of the files that converted. */
  lemma {:induction false} AfterJobsKeys(dir: map<string, Artifact>, jobs: seq<Job>,
                                         convert: string -> Option<Artifact>, n: string)
    ensures n in AfterJobs(dir, jobs, convert)
        <==> n in dir || exists i :: 0 <= i < |jobs| && Converts(jobs[i], convert) && n in JobAliases(jobs[i])
    decreases |jobs|
  {
    if jobs != [] {
      var init := jobs[..|jobs| - 1];
      AfterJobsKeys(dir, init, convert, n);
      assert forall i :: 0 <= i < |init| ==> init[i] == jobs[i];
    }
  }

  /** Last writer wins: a name holds the artifact of the last converted file
      among whose aliases it is. */
  lemma {:induction false} LastWriterWins(dir: map<string, Artifact>, jobs: seq<Job>,
                                          convert: string -> Option<Artifact>, i: nat, n: string)
    requires i < |jobs| && Converts(jobs[i], convert) && n in JobAliases(jobs[i])
    requires forall j :: i < j < |jobs| && Converts(jobs[j], convert) ==> n !in JobAliases(jobs[j])
    ensures n in AfterJobs(dir, jobs, convert)
    ensures AfterJobs(dir, jobs, convert)[n] == convert(jobs[i].file).value
    decreases |jobs|
  {
    if i < |jobs| - 1 {
      var init := jobs[..|jobs| - 1];
      assert forall j :: 0 <= j < |init| ==> init[j] == jobs[j];
      LastWriterWins(dir, init, convert, i, n);
    }
  }

  /** A name no converted file is copied to keeps its old content. */
  lemma {:induction false} UntouchedName(dir: map<string, Artifact>, jobs: seq<Job>,
                                         convert: string -> Option<Artifact>, n: string)
    requires n in dir
    requires forall j :: 0 <= j < |jobs| && Converts(jobs[j], convert) ==> n !in JobAliases(jobs[j])
    ensures n in AfterJobs(dir, jobs, convert) && AfterJobs(dir, jobs, convert)[n] == dir[n]
    decreases |jobs|
  {
    if jobs != [] {
      var init := jobs[..|jobs| - 1];
      assert forall j :: 0 <= j < |init| ==> init[j] == jobs[j];
      UntouchedName(dir, init, convert, n);
    }
  }

  /** The tally reaches the total exactly when every file converted. */
  lemma {:induction false} AllConvertedIff(jobs: seq<Job>, convert: string -> Option<Artifact>)
    ensures ConvertedCount(jobs, convert) == |jobs| <==> forall i :: 0 <= i < |jobs| ==> Converts(jobs[i], convert)
    decreases |jobs|
  {
    if jobs != [] {
      var init := jobs[..|jobs| - 1];
      AllConvertedIff(init, convert);
      assert forall i :: 0 <= i < |init| ==> init[i] == jobs[i];
    }
  }

  /** With a converter that always fails, nothing is converted and the
      output directory is left as it was. */
  lemma {:induction false} FailingConverterChangesNothing(dir: map<string, Artifact>, jobs: seq<Job>,
                                                          convert: string -> Option<Artifact>)
    requires forall f :: convert(f) == None
    ensures ConvertedCount(jobs, convert) == 0 && AfterJobs(dir, jobs, convert) == dir
    decreases |jobs|
  {
    if jobs != [] {
      FailingConverterChangesNothing(dir, jobs[..|jobs| - 1], convert);
    }
  }
}
