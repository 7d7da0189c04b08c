/**
 The pure front half of `run_one` in compcomp.py: filling a row's command
 template with the file being compressed and working out the name of the
 output file whose size is measured afterwards.
 */
module Templating {
  import opened Wrappers
  import opened Text
  import opened Table

  /** A command ready to run, and the file it is expected to produce. */
  datatype Invocation = Invocation(argv: seq<string>, output: string)

  /** The two assertions `run_one` makes about a row's suffix. */
  datatype TemplateError = EmptySuffix | SuffixWithoutDot

  /** `arg.replace("FILE_OR_DIR", filename).replace("FILE", filename)`: the
      second replacement also rescans the text the first one put in. */
  function FillFile(arg: string, filename: string): string {
    ReplaceAll(ReplaceAll(arg, "FILE_OR_DIR", filename), "FILE", filename)
  }

  function FillFileAll(argv: seq<string>, filename: string): (r: seq<string>)
    ensures |r| == |argv|
    ensures forall i :: 0 <= i < |argv| ==> r[i] == FillFile(argv[i], filename)
  {
    seq(|argv|, i requires 0 <= i < |argv| => FillFile(argv[i], filename))
  }

  function FillBaseAll(argv: seq<string>, base: string): (r: seq<string>)
    ensures |r| == |argv|
    ensures forall i :: 0 <= i < |argv| ==> r[i] == ReplaceAll(argv[i], "BASE", base)
  {
    seq(|argv|, i requires 0 <= i < |argv| => ReplaceAll(argv[i], "BASE", base))
  }

  /** `any("BASE" in arg for arg in command)`. */
  predicate MentionsBase(argv: seq<string>) {
    exists i :: 0 <= i < |argv| && Contains(argv[i], "BASE")
  }

  /** `f"{filename}_output_{key}"`, the stem of a named archive. */
  function OutputBase(filename: string, key: string): string {
    filename + "_output_" + key
  }

  /** The command and expected output of running row `c` on `filename`, or
      the assertion about the suffix that fails. */
  function Instantiate(filename: string, c: Comp): (r: Result<Invocation, TemplateError>)
    ensures r.Failure? <==> |c.suffix| == 0 || c.suffix[0] != '.'
    ensures r.Success? ==> |r.value.argv| == |c.argv|
    ensures r.Success? ==>
              (r.value.output == filename + c.suffix || r.value.output == OutputBase(filename, c.key) + c.suffix)
  {
    var argv := FillFileAll(c.argv, filename);
    if |c.suffix| == 0 then Failure(EmptySuffix)
    else if c.suffix[0] != '.' then Failure(SuffixWithoutDot)
    else if MentionsBase(argv) then
      var base := OutputBase(filename, c.key);
      Success(Invocation(FillBaseAll(argv, base), base + c.suffix))
    else
      Success(Invocation(argv, filename + c.suffix))
  }

  // ------------------------------------------------------------- properties

  /** A file name in which no placeholder occurs. */
  predicate Clean(s: string) {
    !Contains(s, "FILE") && !Contains(s, "BASE")
  }

  /** Applying the `BASE` replacement only when some argument mentions `BASE`
      is the same as always applying it: every argument is the full chain of
      three replacements. */
  lemma InstantiateArgument(filename: string, c: Comp, i: int)
    requires Instantiate(filename, c).Success?
    requires 0 <= i < |c.argv|
    ensures Instantiate(filename, c).value.argv[i]
         == ReplaceAll(FillFile(c.argv[i], filename), "BASE", OutputBase(filename, c.key))
  {
    var filled := FillFileAll(c.argv, filename);
    if !MentionsBase(filled) {
      assert !Contains(filled[i], "BASE");
      ReplaceAbsent(filled[i], "BASE", OutputBase(filename, c.key));
    }
  }

  /** The output is the archive stem plus suffix exactly when an argument
      still mentions `BASE` after the file substitution, and the file name
      plus suffix otherwise; the two names never coincide. */
  lemma OutputName(filename: string, c: Comp)
    requires Instantiate(filename, c).Success?
    ensures var out := Instantiate(filename, c).value.output;
            (out == OutputBase(filename, c.key) + c.suffix <==> MentionsBase(FillFileAll(c.argv, filename)))
            && (out == filename + c.suffix <==> !MentionsBase(FillFileAll(c.argv, filename)))
  {
    var plain := filename + c.suffix;
    var named := OutputBase(filename, c.key) + c.suffix;
    assert |named| > |plain|;
  }

  /** A string shorter than the pattern cannot contain it. */
  lemma ShorterNoMatch(s: string, pat: string)
    requires |s| < |pat|
    ensures !Contains(s, pat)
  {
    ContainsIff(s, pat);
  }

  /** Placeholder-free text: every character is one of those of keys, or `_`. */
  lemma KeyTextIsClean(t: string)
    requires forall k :: 0 <= k < |t| ==> IsKeyChar(t[k]) || t[k] == '_'
    ensures Clean(t)
  {
    assert 'F' !in t;
    assert 'B' !in t;
    WithoutHeadNoMatch(t, "FILE");
    WithoutHeadNoMatch(t, "BASE");
  }

  /** The archive stem holds no placeholder when the file name holds none. */
  lemma OutputBaseClean(filename: string, key: string)
    requires Clean(filename) && IsKey(key)
    ensures Clean(OutputBase(filename, key))
  {
    var t := "_output_" + key;
    KeyTextIsClean(t);
    NoMatchAcrossSeparator(filename, t, "FILE");
    NoMatchAcrossSeparator(filename, t, "BASE");
    assert OutputBase(filename, key) == filename + t;
  }

  /** A clean name followed by an extension is still clean. */
  lemma ExtendedClean(s: string, ext: string)
    requires Clean(s) && IsExtension(ext)
    ensures Clean(s + ext)
  {
    WithoutHeadNoMatch(ext, "FILE");
    WithoutHeadNoMatch(ext, "BASE");
    NoMatchAcrossSeparator(s, ext, "FILE");
    NoMatchAcrossSeparator(s, ext, "BASE");
  }

  lemma LiteralUntouched(a: string, f: string, base: string)
    requires IsLiteral(a)
    ensures FillFile(a, f) == a
    ensures ReplaceAll(a, "BASE", base) == a
    ensures Clean(a)
  {
    WithoutHeadNoMatch(a, "FILE_OR_DIR");
    WithoutHeadNoMatch(a, "FILE");
    WithoutHeadNoMatch(a, "BASE");
    ReplaceAbsent(a, "FILE_OR_DIR", f);
    ReplaceAbsent(a, "FILE", f);
    ReplaceAbsent(a, "BASE", base);
  }

  /** `FILE` and `FILE_OR_DIR` alone become the file name. */
  lemma BareArgFilled(a: string, f: string, base: string)
    requires a == "FILE" || a == "FILE_OR_DIR"
    requires Clean(f)
    ensures FillFile(a, f) == f
    ensures ReplaceAll(f, "BASE", base) == f
  {
    if a == "FILE_OR_DIR" {
      ReplaceWhole("FILE_OR_DIR", f);
      ReplaceAbsent(f, "FILE", f);
    } else {
      ShorterNoMatch("FILE", "FILE_OR_DIR");
      ReplaceAbsent("FILE", "FILE_OR_DIR", f);
      ReplaceWhole("FILE", f);
    }
    ReplaceAbsent(f, "BASE", base);
  }

  /** `FILE.ext` becomes the file name with the extension. */
  lemma FileArgFilled(ext: string, f: string, base: string)
    requires IsExtension(ext) && Clean(f)
    ensures FillFile("FILE" + ext, f) == f + ext
    ensures Clean(f + ext)
    ensures ReplaceAll(f + ext, "BASE", base) == f + ext
  {
    var a := "FILE" + ext;
    WithoutHeadNoMatch(ext, "FILE_OR_DIR");
    WithoutHeadNoMatch(ext, "FILE");
    ShorterNoMatch("FILE", "FILE_OR_DIR");
    NoMatchAcrossSeparator("FILE", ext, "FILE_OR_DIR");
    ReplaceAbsent(a, "FILE_OR_DIR", f);
    ReplaceAbsent(ext, "FILE", f);
    assert IsPrefix("FILE", a);
    assert a[4..] == ext;
    assert ReplaceAll(a, "FILE", f) == f + ext;
    ExtendedClean(f, ext);
    ReplaceAbsent(f + ext, "BASE", base);
  }

  /** `BASE.ext` survives the file substitution and then becomes the archive
      stem with the extension. */
  lemma BaseArgFilled(ext: string, f: string, base: string)
    requires IsExtension(ext) && Clean(base)
    ensures FillFile("BASE" + ext, f) == "BASE" + ext
    ensures Contains("BASE" + ext, "BASE")
    ensures ReplaceAll("BASE" + ext, "BASE", base) == base + ext
    ensures Clean(base + ext)
  {
    var a := "BASE" + ext;
    assert 'F' !in a by {
      assert forall k :: 0 <= k < |a| ==> a[k] == if k < 4 then "BASE"[k] else ext[k - 4];
    }
    WithoutHeadNoMatch(a, "FILE_OR_DIR");
    WithoutHeadNoMatch(a, "FILE");
    ReplaceAbsent(a, "FILE_OR_DIR", f);
    ReplaceAbsent(a, "FILE", f);
    WithoutHeadNoMatch(ext, "BASE");
    ReplaceAbsent(ext, "BASE", base);
    assert IsPrefix("BASE", a);
    assert a[4..] == ext;
    assert ReplaceAll(a, "BASE", base) == base + ext;
    ExtendedClean(base, ext);
  }

  /** How each form of template argument comes out of the two substitution
      steps, for a file name and archive stem that hold no placeholder. */
  lemma TemplateArgFilled(a: string, f: string, base: string)
    requires IsTemplateArg(a) && Clean(f) && Clean(base)
    ensures Contains(FillFile(a, f), "BASE") <==> NamesFile(a) && a[0] == 'B'
    ensures Clean(ReplaceAll(FillFile(a, f), "BASE", base))
    ensures NamesFile(a) && a[0] == 'F' ==> ReplaceAll(FillFile(a, f), "BASE", base) == f + a[4..]
    ensures NamesFile(a) && a[0] == 'B' ==> ReplaceAll(FillFile(a, f), "BASE", base) == base + a[4..]
  {
    if IsLiteral(a) {
      LiteralUntouched(a, f, base);
    } else if a == "FILE" || a == "FILE_OR_DIR" {
      BareArgFilled(a, f, base);
    } else {
      assert a == a[..4] + a[4..];
      if a[..4] == "FILE" {
        FileArgFilled(a[4..], f, base);
      } else {
        BaseArgFilled(a[4..], f, base);
      }
    }
  }

  /** For a well-formed row and a clean file name, instantiation succeeds,
      the archive stem is chosen exactly when the template has a `BASE.ext`
      argument, and no placeholder is left in any argument. */
  lemma InstantiateLeavesNoPlaceholder(filename: string, c: Comp)
    requires WellFormed(c) && Clean(filename)
    ensures Instantiate(filename, c).Success?
    ensures MentionsBase(FillFileAll(c.argv, filename)) <==> UsesBase(c)
    ensures forall i :: 0 <= i < |c.argv| ==> Clean(Instantiate(filename, c).value.argv[i])
  {
    var base := OutputBase(filename, c.key);
    OutputBaseClean(filename, c.key);
    var filled := FillFileAll(c.argv, filename);
    forall i | 0 <= i < |c.argv|
      ensures Contains(filled[i], "BASE") <==> NamesFile(c.argv[i]) && c.argv[i][0] == 'B'
      ensures Clean(Instantiate(filename, c).value.argv[i])
    {
      TemplateArgFilled(c.argv[i], filename, base);
      InstantiateArgument(filename, c, i);
    }
  }

  /** A template argument that is exactly `FILE` or `FILE_OR_DIR` becomes
      exactly the file name. */
  lemma PlaceholderBecomesFileName(filename: string, c: Comp, i: int)
    requires WellFormed(c) && Clean(filename)
    requires 0 <= i < |c.argv| && (c.argv[i] == "FILE" || c.argv[i] == "FILE_OR_DIR")
    ensures Instantiate(filename, c).Success?
    ensures Instantiate(filename, c).value.argv[i] == filename
  {
    BareArgFilled(c.argv[i], filename, OutputBase(filename, c.key));
    InstantiateArgument(filename, c, i);
  }

  /** When a row names its own output, the file `run_one` measures is one
      the command itself was told to write. */
  lemma OutputIsAnArgument(filename: string, c: Comp, i: int)
    requires WellFormed(c) && NamesItsOutput(c) && Clean(filename)
    requires 0 <= i < |c.argv| && NamesFile(c.argv[i])
    ensures Instantiate(filename, c).Success?
    ensures Instantiate(filename, c).value.output == Instantiate(filename, c).value.argv[i]
  {
    var base := OutputBase(filename, c.key);
    OutputBaseClean(filename, c.key);
    InstantiateLeavesNoPlaceholder(filename, c);
    InstantiateArgument(filename, c, i);
    TemplateArgFilled(c.argv[i], filename, base);
    OutputName(filename, c);
  }

  /** Over the whole table (rar corrected), with a clean file name: every row
      instantiates, no placeholder survives, and every argument naming a
      file after a placeholder is the output that is measured. */
  lemma CompsInstantiate(filename: string)
    requires Clean(filename)
    ensures forall c :: c in Comps() ==> Instantiate(filename, c).Success?
    ensures forall c, i :: c in Comps() && 0 <= i < |c.argv| ==>
              Clean(Instantiate(filename, c).value.argv[i])
    ensures forall c, i :: c in Comps() && 0 <= i < |c.argv| && NamesFile(c.argv[i]) ==>
              Instantiate(filename, c).value.output == Instantiate(filename, c).value.argv[i]
  {
    CompsWellFormed();
    CompsNameTheirOutputs();
    RowsInstantiate(filename, Comps());
  }

  /** What holds of every row of a table holds of each of them. */
  lemma RowsInstantiate(filename: string, rows: seq<Comp>)
    requires Clean(filename)
    requires forall c :: c in rows ==> WellFormed(c) && NamesItsOutput(c)
    ensures forall c :: c in rows ==> Instantiate(filename, c).Success?
    ensures forall c, i :: c in rows && 0 <= i < |c.argv| ==>
              Clean(Instantiate(filename, c).value.argv[i])
    ensures forall c, i :: c in rows && 0 <= i < |c.argv| && NamesFile(c.argv[i]) ==>
              Instantiate(filename, c).value.output == Instantiate(filename, c).value.argv[i]
  {
    forall c | c in rows
      ensures Instantiate(filename, c).Success?
      ensures forall i :: 0 <= i < |c.argv| ==> Clean(Instantiate(filename, c).value.argv[i])
    {
      InstantiateLeavesNoPlaceholder(filename, c);
    }
    forall c, i | c in rows && 0 <= i < |c.argv| && NamesFile(c.argv[i])
      ensures Instantiate(filename, c).value.output == Instantiate(filename, c).value.argv[i]
    {
      OutputIsAnArgument(filename, c, i);
    }
  }


  /** What a template argument stands for once filled in: `FILE` and
      `FILE_OR_DIR` the file name, `FILE.ext` and `BASE.ext` the file name or
      archive stem with the extension, anything else itself. */
  function Filled(a: string, filename: string, base: string): string {
    if NamesFile(a) then (if a[0] == 'B' then base else filename) + a[4..]
    else if a == "FILE" || a == "FILE_OR_DIR" then filename
    else a
  }

  /** The three replacements turn each form of template argument into what
      it stands for. */
  lemma ArgClosedForm(a: string, f: string, base: string)
    requires IsTemplateArg(a) && Clean(f) && Clean(base)
    ensures ReplaceAll(FillFile(a, f), "BASE", base) == Filled(a, f, base)
  {
    if IsLiteral(a) {
      LiteralUntouched(a, f, base);
    } else if a == "FILE" || a == "FILE_OR_DIR" {
      BareArgFilled(a, f, base);
    } else {
      assert a == a[..4] + a[4..];
      if a[..4] == "FILE" {
        FileArgFilled(a[4..], f, base);
      } else {
        BaseArgFilled(a[4..], f, base);
      }
    }
  }

  /** For a well-formed row and a clean file name, every argument is what its
      template stands for and the output is the stem (archive stem or file
      name) the template writes to, plus the row's suffix. */
  lemma InstantiateClosedForm(filename: string, c: Comp)
    requires WellFormed(c) && Clean(filename)
    ensures var r := Instantiate(filename, c);
            && r.Success?
            && (forall i :: 0 <= i < |c.argv| ==>
                  r.value.argv[i] == Filled(c.argv[i], filename, OutputBase(filename, c.key)))
            && r.value.output == (if UsesBase(c) then OutputBase(filename, c.key) else filename) + c.suffix
  {
    var base := OutputBase(filename, c.key);
    OutputBaseClean(filename, c.key);
    InstantiateLeavesNoPlaceholder(filename, c);
    OutputName(filename, c);
    forall i | 0 <= i < |c.argv|
      ensures Instantiate(filename, c).value.argv[i] == Filled(c.argv[i], filename, base)
    {
      InstantiateArgument(filename, c, i);
      ArgClosedForm(c.argv[i], filename, base);
    }
  }

  /** As written, the rar row asks `rar` for `<stem>.zip` while `run_one`
      measures `<stem>.rar`, which the command never names. */
  lemma RarOutputNotWritten(filename: string)
    requires Clean(filename)
    ensures var r := Instantiate(filename, Rar("BASE.zip"));
            && r.Success?
            && r.value.output == OutputBase(filename, "rar") + ".rar"
            && r.value.argv == ["rar", "a", "-inul", OutputBase(filename, "rar") + ".zip", filename]
            && r.value.output !in r.value.argv
  {
    assert "BASE" + ".zip" == "BASE.zip";
    RarWithArchive(filename, ".zip");
  }

  /** The rar row with archive `BASE.ext`: the command writes `<stem>.ext`,
      and the measured output `<stem>.rar` is among the arguments only when
      the extension is `.rar`. */
  lemma RarWithArchive(filename: string, ext: string)
    requires Clean(filename) && IsExtension(ext)
    ensures var r := Instantiate(filename, Rar("BASE" + ext));
            && r.Success?
            && r.value.output == OutputBase(filename, "rar") + ".rar"
            && r.value.argv == ["rar", "a", "-inul", OutputBase(filename, "rar") + ext, filename]
            && (r.value.output in r.value.argv <==> ext == ".rar")
  {
    var base := OutputBase(filename, "rar");
    var out := base + ".rar";
    RarCommand(filename, ext);
    assert |filename| < |out|;
    if base + ext == out {
      assert ext == out[|base|..];
    }
  }

  lemma RarCommand(filename: string, ext: string)
    requires Clean(filename) && IsExtension(ext)
    ensures var r := Instantiate(filename, Rar("BASE" + ext));
            && r.Success?
            && r.value.output == OutputBase(filename, "rar") + ".rar"
            && r.value.argv == ["rar", "a", "-inul", OutputBase(filename, "rar") + ext, filename]
  {
    var c := Rar("BASE" + ext);
    var words := ["rar", "a", "-inul"];
    assert c.argv == words + ["BASE" + ext, "FILE"];
    ArchiveRow(filename, c, words, ext);
  }

  /** A row whose command is literal words, an archive `BASE.ext` and the
      input `FILE` runs those words on the archive stem with that extension
      and the file name, and is measured by the archive stem with the row's
      own suffix, whatever `ext` is. */
  lemma ArchiveRow(filename: string, c: Comp, words: seq<string>, ext: string)
    requires Clean(filename) && WellFormed(c)
    requires AllLiteral(words) && IsExtension(ext)
    requires c.argv == words + ["BASE" + ext, "FILE"]
    ensures var r := Instantiate(filename, c);
            var base := OutputBase(filename, c.key);
            && r.Success?
            && r.value.argv == words + [base + ext, filename]
            && r.value.output == base + c.suffix
  {
    var base := OutputBase(filename, c.key);
    var expected := words + [base + ext, filename];
    InstantiateClosedForm(filename, c);
    var argv := Instantiate(filename, c).value.argv;
    forall i | 0 <= i < |argv|
      ensures argv[i] == expected[i]
    {
      ArchiveRowArgument(filename, c, words, ext, i);
    }
    assert UsesBase(c) by {
      ArchiveNamesFile(ext);
      assert c.argv[|words|] == "BASE" + ext;
    }
  }

  lemma ArchiveRowArgument(filename: string, c: Comp, words: seq<string>, ext: string, i: int)
    requires Clean(filename) && WellFormed(c)
    requires AllLiteral(words) && IsExtension(ext)
    requires c.argv == words + ["BASE" + ext, "FILE"]
    requires 0 <= i < |c.argv|
    ensures Filled(c.argv[i], filename, OutputBase(filename, c.key))
            == (words + [OutputBase(filename, c.key) + ext, filename])[i]
  {
    var base := OutputBase(filename, c.key);
    if i < |words| {
      assert c.argv[i] == words[i];
      LiteralStandsForItself(c.argv[i], filename, base);
    } else if i == |words| {
      ArchiveNamesFile(ext);
    }
  }

  lemma ArchiveNamesFile(ext: string)
    requires IsExtension(ext)
    ensures NamesFile("BASE" + ext) && ("BASE" + ext)[0] == 'B' && ("BASE" + ext)[4..] == ext
  {
    assert ("BASE" + ext)[0] == 'B';
  }

  lemma LiteralStandsForItself(a: string, filename: string, base: string)
    requires IsLiteral(a)
    ensures Filled(a, filename, base) == a
  {
  }

  /** The second replacement rescans the file name the first one put in, so
      a `FILE_OR_DIR` argument whose file name contains `FILE` is mangled. */
  lemma FileNameRescanned()
    ensures FillFile("FILE_OR_DIR", "xFILE") == "xxFILE"
  {
    ReplaceWhole("FILE_OR_DIR", "xFILE");
  }

  /** In general a `FILE_OR_DIR` argument comes out different from the file
      name exactly when the name contains `FILE` and is not `FILE` itself. */
  lemma FileOrDirMangledIff(f: string)
    ensures FillFile("FILE_OR_DIR", f) != f <==> Contains(f, "FILE") && f != "FILE"
  {
    ReplaceWhole("FILE_OR_DIR", f);
    ReplaceUnchangedIff(f, "FILE", f);
  }

  /** The mangled text can even contain `BASE` where the file name did not:
      the 7z row then looks for its archive under the wrong name. */
  lemma RescanCreatesBase()
    ensures !Contains("SEBAFILE", "BASE")
    ensures FillFile("FILE_OR_DIR", "SEBAFILE") == "SEBASEBAFILE"
    ensures Contains("SEBASEBAFILE", "BASE")
  {
    assert "SEBAFILE"[1..] == "EBAFILE";
    SOnlyFirst("SEBAFILE");
    RescanSteps();
    BaseAfterRescan();
  }

  lemma BaseAfterRescan()
    ensures Contains("SEBASEBAFILE", "BASE")
  {
    assert OccursAt("SEBASEBAFILE", "BASE", 2);
    ContainsIff("SEBASEBAFILE", "BASE");
  }

  lemma RescanSteps()
    ensures FillFile("FILE_OR_DIR", "SEBAFILE") == "SEBASEBAFILE"
  {
    ReplaceWhole("FILE_OR_DIR", "SEBAFILE");
    SecondPass();
  }

  lemma SecondPass()
    ensures ReplaceAll("SEBAFILE", "FILE", "SEBAFILE") == "SEBASEBAFILE"
  {
    assert "SEBAFILE" == "SEBA" + "FILE";
    ReplaceAfterHeadFree("SEBA", "FILE", "SEBAFILE");
  }

  /** Keeping the file name and the archive stem free of `BASE` is not
      enough either: on 7z, whose last argument is `FILE_OR_DIR`, the file name
      `SEBABAFILE` is rescanned into `SEBABASEBABAFILE`, and the `BASE` the
      rescan creates is replaced by the stem, leaving `BASE` in the command. */
  lemma BaseSurvivesCleanStem()
    ensures !Contains("SEBABAFILE", "BASE")
    ensures !Contains(OutputBase("SEBABAFILE", "7z-ultra"), "BASE")
    ensures Instantiate("SEBABAFILE", SevenZip()).Success?
    ensures 12 < |Instantiate("SEBABAFILE", SevenZip()).value.argv|
    ensures Contains(Instantiate("SEBABAFILE", SevenZip()).value.argv[12], "BASE")
  {
    NameAndStemClean();
    SevenZipShape();
    RescanLeavesBase(SevenZip(), 12);
  }

  lemma NameAndStemClean()
    ensures !Contains("SEBABAFILE", "BASE")
    ensures !Contains(OutputBase("SEBABAFILE", "7z-ultra"), "BASE")
  {
    NameClean();
    StemClean();
  }

  lemma NameClean()
    ensures !Contains("SEBABAFILE", "BASE")
  {
    assert "SEBABAFILE"[1..] == "EBABAFILE";
    SOnlyFirst("SEBABAFILE");
  }

  lemma StemClean()
    ensures !Contains(OutputBase("SEBABAFILE", "7z-ultra"), "BASE")
  {
    var t := OutputBase("SEBABAFILE", "7z-ultra");
    assert t[1..] == "EBABAFILE" + "_output_" + "7z-ultra";
    SOnlyFirst(t);
  }

  lemma SevenZipShape()
    ensures |SevenZip().suffix| > 0 && SevenZip().suffix[0] == '.'
    ensures |SevenZip().argv| == 13 && SevenZip().argv[12] == "FILE_OR_DIR"
  {
  }

  /** Any row with a `FILE_OR_DIR` argument leaves `BASE` in it for `SEBABAFILE`. */
  lemma RescanLeavesBase(c: Comp, i: int)
    requires |c.suffix| > 0 && c.suffix[0] == '.'
    requires 0 <= i < |c.argv| && c.argv[i] == "FILE_OR_DIR"
    ensures Instantiate("SEBABAFILE", c).Success?
    ensures Contains(Instantiate("SEBABAFILE", c).value.argv[i], "BASE")
  {
    var f := "SEBABAFILE";
    var base := OutputBase(f, c.key);
    var filled := FillFile(c.argv[i], f);
    assert filled == "SEBA" + "BASE" + "BABAFILE" by { SebaRescan(); }
    var out := ReplaceAll(filled, "BASE", base);
    assert out == "SEBA" + base + "BABAFILE" by { StemReplaced(base); }
    assert Contains(out, "BASE") by { BaseAtTwo(c.key, "BABAFILE"); }
    InstantiateArgument(f, c, i);
  }

  lemma SebaRescan()
    ensures FillFile("FILE_OR_DIR", "SEBABAFILE") == "SEBA" + "BASE" + "BABAFILE"
  {
    RescanOnce();
    SplitAtBase();
  }

  lemma RescanOnce()
    ensures FillFile("FILE_OR_DIR", "SEBABAFILE") == "SEBABA" + "SEBABAFILE"
  {
    var f := "SEBABAFILE";
    assert f == "SEBABA" + "FILE";
    FileOrDirRescan(f, "SEBABA");
  }

  lemma SplitAtBase()
    ensures "SEBABA" + "SEBABAFILE" == "SEBA" + "BASE" + "BABAFILE"
  {
  }

  /** A file name ending in its only `F`, where `FILE` starts, gets its head
      written in front of it again. */
  lemma FileOrDirRescan(f: string, h: string)
    requires f == h + "FILE" && 'F' !in h
    ensures FillFile("FILE_OR_DIR", f) == h + f
  {
    ReplaceWhole("FILE_OR_DIR", f);
    ReplaceAfterHeadFree(h, "FILE", f);
  }

  lemma StemReplaced(base: string)
    ensures ReplaceAll("SEBA" + "BASE" + "BABAFILE", "BASE", base) == "SEBA" + base + "BABAFILE"
  {
    SebaBasFree();
    ReplaceFirstMatch("SEBA", "BASE", base, "BABAFILE");
    BabaFileUnchanged(base);
  }

  lemma SebaBasFree()
    ensures !Contains("SEBA" + "BASE"[..3], "BASE")
  {
    var head := "SEBA" + "BASE"[..3];
    assert head == "SEBABAS";
    forall i | 0 <= i && i + 4 <= |head|
      ensures !OccursAt(head, "BASE", i)
    {
      assert head[i..i + 4][3] == head[i + 3] != 'E';
    }
    ContainsIff(head, "BASE");
  }

  lemma BabaFileUnchanged(base: string)
    ensures ReplaceAll("BABAFILE", "BASE", base) == "BABAFILE"
  {
    MissingCharNoMatch("BABAFILE", "BASE", 2);
    ReplaceAbsent("BABAFILE", "BASE", base);
  }

  lemma BaseAtTwo(key: string, rest: string)
    ensures Contains("SEBA" + OutputBase("SEBABAFILE", key) + rest, "BASE")
  {
    var t := "SEBA" + OutputBase("SEBABAFILE", key) + rest;
    assert t[2..6] == "BASE";
    assert OccursAt(t, "BASE", 2);
    ContainsIff(t, "BASE");
  }

  /** No match of `BASE` fits in a string whose only `S` comes first. */
  lemma SOnlyFirst(f: string)
    requires |f| > 0 && 'S' !in f[1..]
    ensures !Contains(f, "BASE")
  {
    forall i | 0 <= i && i + 4 <= |f|
      ensures !OccursAt(f, "BASE", i)
    {
      assert f[i..i + 4][2] == f[1..][i + 1];
    }
    ContainsIff(f, "BASE");
  }
}
