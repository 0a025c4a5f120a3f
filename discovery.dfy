/**
 * What the converter finds in one theme directory: its cursor files
 * (`CursorConverter.find_cursor_files`) and the `.inf` descriptor that
 * `process_cursor_theme` hands to the resolver. A directory is given by the
 * names of its entries in listing order.
 */
module Discovery {
  import opened Wrappers
  import opened TextUtil

  /** `directory.glob("*" + suffix)`: the entries ending with `suffix`, in
      listing order. The glob patterns used here are `*.cur`, `*.ani` and
      `*.inf`, whose `*` matches any name, dot files included. */
  function Glob(entries: seq<string>, suffix: string): (r: seq<string>)
    ensures forall x :: x in r <==> x in entries && EndsWith(x, suffix)
    ensures |r| <= |entries|
  {
    if entries == [] then []
    else (if EndsWith(entries[0], suffix) then [entries[0]] else []) + Glob(entries[1..], suffix)
  }

  /** The glob of a one-entry listing: the entry if it has the suffix. */
  lemma GlobOne(x: string, suffix: string)
    ensures Glob([x], suffix) == if EndsWith(x, suffix) then [x] else []
  {
    assert [x][1..] == [];
  }

  /** The glob keeps listing order: globbing two listings one after the
      other gives the two globs one after the other. Together with
      `GlobOne` this fixes the glob as the in-order filter. */
  lemma {:induction false} GlobAppend(a: seq<string>, b: seq<string>, suffix: string)
    ensures Glob(a + b, suffix) == Glob(a, suffix) + Glob(b, suffix)
    decreases |a|
  {
    if a == [] {
      assert a + b == b;
    } else {
      assert (a + b)[0] == a[0];
      assert (a + b)[1..] == a[1..] + b;
      GlobAppend(a[1..], b, suffix);
    }
  }

  /** When `entries[i]` is the first entry ending with `suffix`, it is the
      first match of the glob. */
  lemma {:induction false} GlobFirst(entries: seq<string>, suffix: string, i: nat)
    requires i < |entries| && EndsWith(entries[i], suffix)
    requires forall j :: 0 <= j < i ==> !EndsWith(entries[j], suffix)
    ensures |Glob(entries, suffix)| > 0 && Glob(entries, suffix)[0] == entries[i]
    decreases i
  {
    if i > 0 {
      forall j | 0 <= j < i - 1 ensures !EndsWith(entries[1..][j], suffix) {
        assert entries[1..][j] == entries[j + 1];
      }
      GlobFirst(entries[1..], suffix, i - 1);
    }
  }

  /** The patterns `find_cursor_files` tries, in order. */
  const CursorPatterns: seq<string> := [".cur", ".ani"]

  /** The concatenation of the globs of `patterns`, in pattern order. */
  function GlobAll(entries: seq<string>, patterns: seq<string>): seq<string>
    decreases |patterns|
  {
    if patterns == [] then []
    else GlobAll(entries, patterns[..|patterns| - 1]) + Glob(entries, patterns[|patterns| - 1])
  }

  /** The cursor files of a directory: its `.cur` entries, then its `.ani`
      entries, each group in listing order. */
  function CursorFiles(entries: seq<string>): seq<string> {
    Glob(entries, ".cur") + Glob(entries, ".ani")
  }

  /** `find_cursor_files`: extend the list with the glob of each pattern. */
  method FindCursorFiles(entries: seq<string>) returns (files: seq<string>)
    ensures files == CursorFiles(entries)
  {
    files := [];
    var k := 0;
    while k < |CursorPatterns|
      invariant 0 <= k <= |CursorPatterns|
      invariant files == GlobAll(entries, CursorPatterns[..k])
    {
      assert CursorPatterns[..k + 1][..k] == CursorPatterns[..k];
      files := files + Glob(entries, CursorPatterns[k]);
      k := k + 1;
    }
    assert CursorPatterns[..2] == CursorPatterns;
    assert CursorPatterns[..1] == [".cur"];
  }

  /** A name ends with at most one of `.cur` and `.ani`. */
  lemma SuffixesExclusive(x: string)
    ensures !(EndsWith(x, ".cur") && EndsWith(x, ".ani"))
  {
  }

  /** Discovery keeps exactly the entries with suffix `.cur` or `.ani`. */
  lemma CursorFilesMembers(entries: seq<string>, x: string)
    ensures x in CursorFiles(entries)
        <==> x in entries && (EndsWith(x, ".cur") || EndsWith(x, ".ani"))
  {
  }

  /** Every `.cur` file is listed before every `.ani` file. */
  lemma CurBeforeAni(entries: seq<string>, i: int, j: int)
    requires 0 <= i < |CursorFiles(entries)| && 0 <= j < |CursorFiles(entries)|
    requires EndsWith(CursorFiles(entries)[i], ".cur") && EndsWith(CursorFiles(entries)[j], ".ani")
    ensures i < j
  {
    var files := CursorFiles(entries);
    var n := |Glob(entries, ".cur")|;
    if i >= n {
      assert files[i] in Glob(entries, ".ani");
      SuffixesExclusive(files[i]);
    }
    if j < n {
      assert files[j] in Glob(entries, ".cur");
      SuffixesExclusive(files[j]);
    }
  }

  // ---------------------------------------------------------------------
  // The descriptor

  /** The name `process_cursor_theme` looks for first. */
  const InstallInf: string := "install.inf"

  /** `glob("install.inf") + glob("*.inf")`: `install.inf` when present, then
      every `.inf` entry in listing order (so `install.inf` may appear twice). */
  function InfFiles(entries: seq<string>): seq<string> {
    (if InstallInf in entries then [InstallInf] else []) + Glob(entries, ".inf")
  }

  /** `inf_files[0] if inf_files else None`. */
  function ChooseDescriptor(entries: seq<string>): (r: Option<string>)
    ensures r.Some? ==> r.value in entries && EndsWith(r.value, ".inf")
  {
    var infs := InfFiles(entries);
    if infs == [] then None
    else
      assert infs[0] in entries && EndsWith(infs[0], ".inf");
      Some(infs[0])
  }

  /** An `install.inf` is chosen ahead of any other `.inf` entry. */
  lemma InstallInfPreferred(entries: seq<string>)
    requires InstallInf in entries
    ensures ChooseDescriptor(entries) == Some(InstallInf)
  {
  }

  /** Without `install.inf`, the first `.inf` entry in listing order is
      chosen. Names compare exactly: `Install.inf` is not preferred. */
  lemma FirstInfChosen(entries: seq<string>, i: nat)
    requires InstallInf !in entries
    requires i < |entries| && EndsWith(entries[i], ".inf")
    requires forall j :: 0 <= j < i ==> !EndsWith(entries[j], ".inf")
    ensures ChooseDescriptor(entries) == Some(entries[i])
  {
    GlobFirst(entries, ".inf", i);
    assert InfFiles(entries) == Glob(entries, ".inf");
  }

  /** No descriptor is chosen exactly when no entry ends with `.inf`. */
  lemma NoDescriptorIff(entries: seq<string>)
    ensures ChooseDescriptor(entries) == None
        <==> forall x :: x in entries ==> !EndsWith(x, ".inf")
  {
    if InstallInf in entries {
      assert EndsWith(InstallInf, ".inf");
    }
    if Glob(entries, ".inf") != [] {
      assert Glob(entries, ".inf")[0] in Glob(entries, ".inf");
    }
  }
}
