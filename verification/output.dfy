/** File names: the stem `os.path.splitext` gives (data/clean.py:55), the
    names `output` writes under (lines 56-63), the predicates `main` uses
    to pick its inputs and the files it combines (lines 25-37, 43), and the
    loop that cleans them (lines 33-39). */
module Output {
  import opened Wrappers
  import opened Text
  import opened Seqs

  /** `s.rfind(c)`: the last position of `c`, or -1. */
  function RFind(s: string, c: char): (k: int)
    ensures -1 <= k < |s|
    ensures k >= 0 ==> s[k] == c
    ensures forall j :: k < j < |s| ==> s[j] != c
    decreases |s|
  {
    if |s| == 0 then -1
    else if s[|s| - 1] == c then |s| - 1
    else RFind(s[..|s| - 1], c)
  }

  /** Some character of `s[from..to]` is not a dot. */
  predicate HasNonDot(s: string, from: nat, to: nat)
    requires from <= to <= |s|
  {
    exists j :: from <= j < to && s[j] != '.'
  }

  /** `os.path.splitext(p)[0]` on a POSIX system: `p` loses the part from
      its last dot on, provided that dot is in the last path component and
      is not one of the dots that component starts with. */
  function Stem(p: string): (stem: string)
    ensures |stem| <= |p| && stem == p[..|stem|]
    ensures stem == p <==> !(RFind(p, '.') > RFind(p, '/') && HasNonDot(p, RFind(p, '/') + 1, RFind(p, '.')))
    ensures stem != p ==> p[|stem|] == '.' && '.' !in p[|stem| + 1..] && '/' !in p[|stem|..]
  {
    var sep := RFind(p, '/');
    var dot := RFind(p, '.');
    if dot > sep && HasNonDot(p, sep + 1, dot) then
      assert forall j :: dot < j < |p| ==> p[dot + 1..][j - dot - 1] == p[j];
      assert forall j :: dot <= j < |p| ==> p[dot..][j - dot] == p[j];
      p[..dot]
    else p
  }

  /** Which pandas writer `output` uses. */
  datatype Writer = CsvWriter | ExcelWriter

  /** The file `output(suffix)` writes: its name and the writer used. */
  datatype Target = Target(name: string, writer: Writer)

  /** `output(suffix)`. In "only final" mode only a suffix containing
      `FINAL` is written, always under a `.csv` name but with the writer the
      format chose; otherwise every suffix is written, `.csv` for the `csv`
      format and `.xlsx` for any other. */
  function OutputTarget(stem: string, format: string, onlyFinal: bool, suffix: string): (t: Option<Target>)
    ensures t.Some? <==> !onlyFinal || Contains(suffix, "FINAL")
    ensures t.Some? ==> t.value.name == stem + "_" + suffix + "." + (if onlyFinal || format == "csv" then "csv" else "xlsx")
    ensures t.Some? ==> (t.value.writer == CsvWriter <==> format == "csv")
  {
    var writer := if format == "csv" then CsvWriter else ExcelWriter;
    if onlyFinal then
      if Contains(suffix, "FINAL") then Some(Target(stem + "_" + suffix + ".csv", writer)) else None
    else Some(Target(stem + "_" + suffix + "." + (if format == "csv" then "csv" else "xlsx"), writer))
  }

  /** Line 27: a name given on the command line gets `.xlsx` unless it
      already ends with it. */
  function WithXlsx(name: string): (r: string)
    ensures EndsWith(r, ".xlsx")
    ensures EndsWith(name, ".xlsx") ==> r == name
    ensures !EndsWith(name, ".xlsx") ==> r == name + ".xlsx"
  {
    if EndsWith(name, ".xlsx") then name
    else
      var r := name + ".xlsx";
      assert r[|r| - 5..] == ".xlsx";
      r
  }

  /** Line 31: in a directory run, the inputs are the `.xlsx` files without
      an underscore in their name. */
  predicate IsBatchInput(name: string) {
    EndsWith(name, ".xlsx") && '_' !in name
  }

  /** Line 35: `~$...` files are Excel's lock files and are skipped. */
  predicate IsLockFile(name: string) {
    StartsWith(name, "~$")
  }

  /** `filter(p, names)`: the names that satisfy `p`, in order. */
  function FilterNames(names: seq<string>, p: string -> bool): (r: seq<string>)
    ensures IsSubseq(r, names)
    ensures forall f :: f in r <==> f in names && p(f)
    decreases |names|
  {
    if |names| == 0 then []
    else
      var rest := FilterNames(names[1..], p);
      SubseqBounds(rest, names[1..]);
      SubseqCons(names[0], rest, names[1..]);
      SubseqBothCons(names[0], rest, names[1..]);
      assert names == [names[0]] + names[1..];
      if p(names[0]) then [names[0]] + rest else rest
  }

  /** Line 25: `if args.filename:` takes a name only when one is given
      and it is not empty; Python counts the empty string as false, so an
      empty name means a directory run. */
  predicate NameGiven(arg: Option<string>) {
    arg.Some? && arg.value != ""
  }

  /** Lines 24-37: the files the loop visits and does not skip, in order.
      With a name on the command line it is that name completed with
      `.xlsx`; otherwise it is the batch inputs of the directory listing.
      Excel's lock files are skipped in both cases. */
  function FilesToClean(arg: Option<string>, listing: seq<string>): (r: seq<string>)
    ensures !NameGiven(arg) ==> IsSubseq(r, listing)
    ensures forall f :: f in r <==>
      && !IsLockFile(f)
      && (if NameGiven(arg) then f == WithXlsx(arg.value) else f in listing && IsBatchInput(f))
  {
    var files := if NameGiven(arg) then [WithXlsx(arg.value)] else FilterNames(listing, IsBatchInput);
    var r := FilterNames(files, f => !IsLockFile(f));
    assert !NameGiven(arg) ==> IsSubseq(r, listing) by {
      if !NameGiven(arg) {
        SubseqTrans(r, files, listing);
      }
    }
    r
  }

  /** An empty name on the command line lists the directory, as no name
      does. */
  lemma EmptyNameListsDirectory(listing: seq<string>)
    ensures FilesToClean(Some(""), listing) == FilesToClean(None, listing)
  {
  }

  /** Lines 33-39: the loop calls `clean` on each file in turn, and the
      first call that raises ends the script, so the later files are not
      cleaned; `fails(f)` says whether cleaning `f` raises. The result is
      the files `clean` is called on: a prefix of `files` in which only the
      last one may fail, all of `files` unless one fails. */
  function Cleaned(files: seq<string>, fails: string -> bool): (r: seq<string>)
    ensures |r| <= |files| && r == files[..|r|]
    ensures forall i :: 0 <= i < |r| - 1 ==> !fails(r[i])
    ensures |r| < |files| ==> |r| > 0 && fails(r[|r| - 1])
    decreases |files|
  {
    if |files| == 0 then []
    else if fails(files[0]) then [files[0]]
    else
      var rest := Cleaned(files[1..], fails);
      assert [files[0]] + rest == files[..|rest| + 1] by {
        assert rest == files[1..][..|rest|];
      }
      [files[0]] + rest
  }

  /** `clean` is called on every file exactly when no file but possibly
      the last one fails. (The `FINAL` files are combined, lines 41-51, only
      when not even the last one fails.) */
  lemma {:induction false} CleanedAll(files: seq<string>, fails: string -> bool)
    ensures Cleaned(files, fails) == files <==> forall i :: 0 <= i < |files| - 1 ==> !fails(files[i])
    decreases |files|
  {
    if |files| > 0 && !fails(files[0]) {
      CleanedAll(files[1..], fails);
      assert forall i :: 0 <= i < |files| - 2 ==> files[1..][i] == files[i + 1];
    }
  }

  /** The files cleaned end at the first one that fails. */
  lemma {:induction false} CleanedStopsAtFirstFailure(files: seq<string>, fails: string -> bool, k: nat)
    requires k < |files| && fails(files[k])
    requires forall i :: 0 <= i < k ==> !fails(files[i])
    ensures Cleaned(files, fails) == files[..k + 1]
    decreases k
  {
    if k > 0 {
      CleanedStopsAtFirstFailure(files[1..], fails, k - 1);
      assert files[..k + 1] == [files[0]] + files[1..][..k];
    }
  }

  /** Line 43: the files combined at the end of a "final" run. */
  predicate IsFinalArtifact(name: string) {
    Contains(name, "FINAL")
  }

  /** Adding `.xlsx` is idempotent. */
  lemma WithXlsxIdempotent(name: string)
    ensures WithXlsx(WithXlsx(name)) == WithXlsx(name)
  {
  }

  /** Every file `output` writes has an underscore in its name, so a later
      directory run never takes an output for an input. */
  lemma OutputIsNeverInput(stem: string, format: string, onlyFinal: bool, suffix: string)
    requires OutputTarget(stem, format, onlyFinal, suffix).Some?
    ensures !IsBatchInput(OutputTarget(stem, format, onlyFinal, suffix).value.name)
  {
    var name := OutputTarget(stem, format, onlyFinal, suffix).value.name;
    assert name[|stem|] == '_';
  }

  /** A string containing `p` still contains it with anything around it. */
  lemma {:induction false} ContainsInside(a: string, p: string, b: string)
    ensures Contains(a + p + b, p)
    decreases |a|
  {
    if |a| == 0 {
      assert a + p + b == p + b;
      assert (p + b)[..|p|] == p;
    } else {
      ContainsInside(a[1..], p, b);
      assert (a + p + b)[1..] == a[1..] + p + b;
    }
  }

  /** The file written for the `FINAL` suffix is written in both modes and
      is among the files the final combination collects. */
  lemma FinalIsCollected(stem: string, format: string, onlyFinal: bool)
    ensures OutputTarget(stem, format, onlyFinal, "FINAL").Some?
    ensures IsFinalArtifact(OutputTarget(stem, format, onlyFinal, "FINAL").value.name)
  {
    assert Contains("FINAL", "FINAL") by {
      assert "FINAL"[..5] == "FINAL";
    }
    var ext := if onlyFinal || format == "csv" then "csv" else "xlsx";
    ContainsInside(stem + "_", "FINAL", "." + ext);
    assert stem + "_" + "FINAL" + "." + ext == stem + "_" + "FINAL" + ("." + ext);
  }

  /** In "only final" mode with a format other than `csv`, the file is
      named `.csv` but written by the Excel writer. */
  lemma FinalModeExcelUnderCsvName(stem: string, format: string)
    requires format != "csv"
    ensures var t := OutputTarget(stem, format, true, "FINAL");
      t.Some? && EndsWith(t.value.name, ".csv") && t.value.writer == ExcelWriter
  {
    FinalIsCollected(stem, format, true);
    var name := OutputTarget(stem, format, true, "FINAL").value.name;
    assert name[|name| - 4..] == ".csv";
  }

  /** Whether the writer can write the target at all. pandas' Excel writer
      picks its engine from the file's extension and has none for `csv`, so
      `to_excel` of a `.csv` name raises before writing anything. */
  predicate Writable(t: Target) {
    t.writer == CsvWriter || !EndsWith(t.name, ".csv")
  }

  /** The `FINAL` file can be written exactly outside "only final" mode or
      with the `csv` format: in "only final" mode with any other format it
      is a `.csv` name for the Excel writer. */
  lemma FinalWritable(stem: string, format: string, onlyFinal: bool)
    ensures OutputTarget(stem, format, onlyFinal, "FINAL").Some?
    ensures Writable(OutputTarget(stem, format, onlyFinal, "FINAL").value) <==> !onlyFinal || format == "csv"
  {
    FinalIsCollected(stem, format, onlyFinal);
    if onlyFinal && format != "csv" {
      FinalModeExcelUnderCsvName(stem, format);
    } else if format != "csv" {
      var name := OutputTarget(stem, format, onlyFinal, "FINAL").value.name;
      assert name[|name| - 4..] == "xlsx";
      assert name[|name| - 4..] != ".csv" by {
        assert name[|name| - 4] == 'x';
      }
    }
  }

  /** After appending a dot and an extension without dots, the last dot is
      the appended one. */
  lemma LastDotBeforeExtension(base: string, ext: string)
    requires '.' !in ext
    ensures RFind(base + "." + ext, '.') == |base|
  {
    RFindAppend(base + ".", ext, '.');
    var withDot := base + ".";
    assert withDot[..|withDot| - 1] == base;
  }

  /** Appending text does not change what a range of the original holds. */
  lemma HasNonDotAppend(a: string, b: string, from: nat, to: nat)
    requires from <= to <= |a|
    ensures HasNonDot(a + b, from, to) <==> HasNonDot(a, from, to)
  {
    assert forall j :: from <= j < to ==> (a + b)[j] == a[j];
  }

  /** The stem of `base + "." + ext`, for an extension without dots or
      slashes, is `base` whenever the last path component of `base` has a
      character other than a dot. */
  lemma StemOfExtension(base: string, ext: string)
    requires '.' !in ext && '/' !in ext
    requires HasNonDot(base, RFind(base, '/') + 1, |base|)
    ensures Stem(base + "." + ext) == base
  {
    var withDot := base + ".";
    var p := withDot + ext;
    var sep := RFind(base, '/');
    LastDotBeforeExtension(base, ext);
    RFindAppend(withDot, ext, '/');
    RFindAppend(base, ".", '/');
    HasNonDotAppend(withDot, ext, sep + 1, |base|);
    HasNonDotAppend(base, ".", sep + 1, |base|);
    StemCut(p, |base|);
    assert p[..|base|] == base;
  }

  /** The stem cuts at the last dot when that dot qualifies. */
  lemma StemCut(p: string, i: nat)
    requires RFind(p, '.') == i && RFind(p, '/') < i && HasNonDot(p, RFind(p, '/') + 1, i)
    ensures Stem(p) == p[..i]
  {
  }

  lemma ConcatAssoc(a: string, b: string, c: string)
    ensures a + b + c == a + (b + c)
  {
  }

  /** `.xlsx` is a dot and an extension with neither dots nor slashes. */
  lemma XlsxExtension()
    ensures ".xlsx" == "." + "xlsx" && '.' !in "xlsx" && '/' !in "xlsx"
  {
    var ext := "xlsx";
    assert |ext| == 4 && ext[0] == 'x' && ext[1] == 'l' && ext[2] == 's' && ext[3] == 'x';
  }

  /** The stem of `base + ".xlsx"` is `base` under the same condition: the
      stem of a name `WithXlsx` completed is the name typed. */
  lemma StemOfXlsx(base: string)
    requires HasNonDot(base, RFind(base, '/') + 1, |base|)
    ensures Stem(base + ".xlsx") == base
  {
    XlsxExtension();
    StemOfExtension(base, "xlsx");
    ConcatAssoc(base, ".", "xlsx");
  }

  /** Appending text without `c` leaves the last `c` where it was. */
  lemma RFindAppend(a: string, b: string, c: char)
    requires c !in b
    ensures RFind(a + b, c) == RFind(a, c)
    decreases |b|
  {
    if |b| > 0 {
      var ab := a + b;
      assert ab[..|ab| - 1] == a + b[..|b| - 1];
      RFindAppend(a, b[..|b| - 1], c);
    } else {
      assert a + b == a;
    }
  }
}
