/**
 The `comps` table of compcomp.py: one row per compression method, giving the
 method's name (the key of every report line), the file-name suffix its output
 gets, and the command line to run, in which `FILE`, `FILE_OR_DIR` and `BASE`
 are placeholders filled in per input file. Rows generated by a list
 comprehension over levels are modelled by one function per comprehension.
 */
module Table {
  import opened Text

  /** A row of the table: `(key, suffix, argv-template)`. */
  datatype Comp = Comp(key: string, suffix: string, argv: seq<string>)

  // ---------------------------------------------------------------- decimals

  function Digit(d: nat): char
    requires d < 10
  {
    "0123456789"[d]
  }

  predicate IsDigit(c: char) {
    '0' <= c <= '9'
  }

  /** Python's `f"{n}"` for a non-negative integer: its decimal digits. */
  function Decimal(n: nat): (s: string)
    ensures |s| > 0
    ensures forall k :: 0 <= k < |s| ==> IsDigit(s[k])
    decreases n
  {
    if n < 10 then [Digit(n)] else Decimal(n / 10) + [Digit(n % 10)]
  }

  /** The value of a string of decimal digits. */
  function DecimalValue(s: string): nat
    requires forall k :: 0 <= k < |s| ==> IsDigit(s[k])
    decreases |s|
  {
    if |s| == 0 then 0
    else
      var last := s[|s| - 1];
      assert IsDigit(last);
      10 * DecimalValue(s[..|s| - 1]) + (last as int - '0' as int)
  }

  /** Reading back the rendered level gives the level: two different levels
      of one comprehension never produce the same key. */
  lemma {:induction false} DecimalRoundTrip(n: nat)
    ensures DecimalValue(Decimal(n)) == n
    decreases n
  {
    var s := Decimal(n);
    if n >= 10 {
      DecimalRoundTrip(n / 10);
      assert s[..|s| - 1] == Decimal(n / 10);
    }
  }

  // -------------------------------------------------------- well-formedness

  /** The characters method names are written in: lower-case letters,
      digits and `-`. None of them occurs in a placeholder. */
  predicate IsKeyChar(c: char) {
    ('a' <= c <= 'z') || IsDigit(c) || c == '-'
  }

  predicate IsKey(key: string) {
    forall k :: 0 <= k < |key| ==> IsKeyChar(key[k])
  }

  /** Text that no placeholder can start in: it holds no `F` and no `B`. */
  predicate IsLiteral(t: string) {
    'F' !in t && 'B' !in t
  }

  /** Literal text following a placeholder, starting with `.`, which no
      placeholder contains, so no placeholder spans the join. */
  predicate IsExtension(t: string) {
    |t| > 0 && t[0] == '.' && IsLiteral(t)
  }

  /** The forms a template argument takes in the table: plain literal text,
      the bare `FILE_OR_DIR` or `FILE`, or `FILE` / `BASE` followed by an
      extension such as `.copy` or `.7z`. */
  predicate IsTemplateArg(a: string) {
    || IsLiteral(a)
    || a == "FILE_OR_DIR"
    || a == "FILE"
    || (|a| > 4 && a[..4] == "FILE" && IsExtension(a[4..]))
    || (|a| > 4 && a[..4] == "BASE" && IsExtension(a[4..]))
  }

  /** What `run_one` asserts of a row (a non-empty suffix starting with `.`),
      what `main` relies on when it looks up `comp[2][0]` (a non-empty
      command line), and the shape of keys and arguments. */
  predicate WellFormed(c: Comp) {
    && |c.suffix| > 0 && c.suffix[0] == '.'
    && |c.argv| > 0
    && IsKey(c.key)
    && forall i :: 0 <= i < |c.argv| ==> IsTemplateArg(c.argv[i])
  }

  /** Every argument that names a file after a placeholder names the file
      the row's suffix promises, so the output measured afterwards is the
      one the command was told to write. */
  predicate NamesItsOutput(c: Comp) {
    forall i :: 0 <= i < |c.argv| && NamesFile(c.argv[i]) ==>
      c.argv[i] == (if UsesBase(c) then "BASE" else "FILE") + c.suffix
  }

  /** The row's template has a `BASE.ext` argument. */
  predicate UsesBase(c: Comp) {
    exists j :: 0 <= j < |c.argv| && NamesFile(c.argv[j]) && c.argv[j][0] == 'B'
  }

  /** A template argument of the form `FILE.ext` or `BASE.ext`. */
  predicate NamesFile(a: string) {
    |a| > 4 && !IsLiteral(a) && a != "FILE_OR_DIR"
  }

  // --------------------------------------------------------------- the rows

  /** The rows a comprehension `[... for level in levels]` produces. */
  function Family(levels: seq<nat>, row: nat -> Comp): (r: seq<Comp>)
    ensures |r| == |levels|
    ensures forall i :: 0 <= i < |levels| ==> r[i] == row(levels[i])
  {
    seq(|levels|, i requires 0 <= i < |levels| => row(levels[i]))
  }

  /** `"-" + level`, the usual level switch. */
  function LevelFlag(level: nat): (s: string)
    ensures IsLiteral(s)
  {
    "-" + Decimal(level)
  }

  /** Each element of `words` is literal text. */
  predicate AllLiteral(words: seq<string>) {
    forall i :: 0 <= i < |words| ==> IsLiteral(words[i])
  }

  /** The file arguments that end a row's command line, after its literal
      words: the input alone (the tool writes `FILE` + suffix next to it),
      the input and its output, or an archive named after the row's suffix
      and what goes into it. */
  predicate IsFileTail(tail: seq<string>, suffix: string) {
    || tail == ["FILE"]
    || tail == ["FILE", "FILE" + suffix]
    || tail == ["BASE" + suffix, "FILE"]
    || tail == ["BASE" + suffix, "FILE_OR_DIR"]
  }

  /** A row whose command line is literal words followed by file arguments
      is well formed and names the output its suffix promises. */
  function Row(key: string, suffix: string, words: seq<string>, tail: seq<string>): (c: Comp)
    requires IsKey(key) && IsExtension(suffix)
    requires AllLiteral(words) && IsFileTail(tail, suffix)
    ensures WellFormed(c) && NamesItsOutput(c)
  {
    var c := Comp(key, suffix, words + tail);
    RowShape(c, |words|);
    c
  }

  lemma RowShape(c: Comp, n: nat)
    requires IsKey(c.key) && IsExtension(c.suffix)
    requires n <= |c.argv|
    requires AllLiteral(c.argv[..n]) && IsFileTail(c.argv[n..], c.suffix)
    ensures WellFormed(c) && NamesItsOutput(c)
  {
    var tail, ext := c.argv[n..], c.suffix;
    assert forall i :: 0 <= i < n ==> c.argv[i] == c.argv[..n][i];
    assert forall i :: n <= i < |c.argv| ==> c.argv[i] == tail[i - n];
    assert IsTemplateArg("FILE" + ext) && IsTemplateArg("BASE" + ext) by {
      assert ("FILE" + ext)[..4] == "FILE" && ("FILE" + ext)[4..] == ext;
      assert ("BASE" + ext)[..4] == "BASE" && ("BASE" + ext)[4..] == ext;
    }
    assert !NamesFile("FILE") && ("FILE" + ext)[0] == 'F' && ("BASE" + ext)[0] == 'B';
    assert NamesFile("BASE" + ext) by {
      assert ("BASE" + ext)[0] == 'B';
    }
    if tail[0] == "BASE" + ext {
      assert UsesBase(c) by {
        assert NamesFile(c.argv[n]) && c.argv[n][0] == 'B';
      }
    } else {
      assert !UsesBase(c);
    }
  }

  function Copy(): (c: Comp)
    ensures WellFormed(c) && NamesItsOutput(c)
    ensures c.suffix == ".copy"
  {
    assert "FILE.copy" == "FILE" + ".copy";
    Row("cp", ".copy", ["cp"], ["FILE", "FILE.copy"])
  }

  function Gzip(level: nat): (c: Comp)
    ensures WellFormed(c) && NamesItsOutput(c)
    ensures c.suffix == ".gz"
  {
    Row("gzip-" + Decimal(level), ".gz", ["gzip", "--keep", LevelFlag(level)], ["FILE"])
  }

  function Zopfli(iters: nat): (c: Comp)
    ensures WellFormed(c) && NamesItsOutput(c)
    ensures c.suffix == ".gz"
  {
    Row("zopfli-i" + Decimal(iters), ".gz", ["zopfli", "--i" + Decimal(iters)], ["FILE"])
  }

  function Bzip2(level: nat): (c: Comp)
    ensures WellFormed(c) && NamesItsOutput(c)
    ensures c.suffix == ".bz2"
  {
    Row("bz2-" + Decimal(level), ".bz2", ["bzip2", "--keep", LevelFlag(level)], ["FILE"])
  }

  function Xz(level: nat): (c: Comp)
    ensures WellFormed(c) && NamesItsOutput(c)
    ensures c.suffix == ".xz"
  {
    Row("xz-" + Decimal(level), ".xz", ["xz", "--keep", LevelFlag(level)], ["FILE"])
  }

  function Lzma(level: nat): (c: Comp)
    ensures WellFormed(c) && NamesItsOutput(c)
    ensures c.suffix == ".lzma"
  {
    Row("lzma-" + Decimal(level), ".lzma", ["lzma", "--keep", LevelFlag(level)], ["FILE"])
  }

  function Zstd(level: nat): (c: Comp)
    ensures WellFormed(c) && NamesItsOutput(c)
    ensures c.suffix == ".zst"
  {
    Row("zstd-" + Decimal(level), ".zst", ["zstd", "--quiet", "--keep", LevelFlag(level)], ["FILE"])
  }

  function Lz4(level: nat): (c: Comp)
    ensures WellFormed(c) && NamesItsOutput(c)
    ensures c.suffix == ".lz4"
  {
    assert "FILE.lz4" == "FILE" + ".lz4";
    Row("lz4-" + Decimal(level), ".lz4", ["lz4", "--quiet", "--keep", LevelFlag(level)], ["FILE", "FILE.lz4"])
  }

  function Lzop(level: nat): (c: Comp)
    ensures WellFormed(c) && NamesItsOutput(c)
    ensures c.suffix == ".lzo"
  {
    Row("lzop-" + Decimal(level), ".lzo", ["lzop", "--keep", LevelFlag(level)], ["FILE"])
  }

  function Brotli(level: nat): (c: Comp)
    ensures WellFormed(c) && NamesItsOutput(c)
    ensures c.suffix == ".br"
  {
    Row("br-" + Decimal(level), ".br", ["brotli", "--keep", LevelFlag(level)], ["FILE"])
  }

  function BrotliBest(): (c: Comp)
    ensures WellFormed(c) && NamesItsOutput(c)
    ensures c.suffix == ".br"
  {
    Row("br-best", ".br", ["brotli", "--keep", "--best"], ["FILE"])
  }

  function SevenZip(): (c: Comp)
    ensures WellFormed(c) && NamesItsOutput(c)
    ensures c.suffix == ".7z"
  {
    assert "BASE.7z" == "BASE" + ".7z";
    Row("7z-ultra", ".7z", ["7z", "a"] + UltraSwitches(), ["BASE.7z", "FILE_OR_DIR"])
  }

  /** The 7z switches for a quiet, solid, maximum-compression LZMA archive. */
  function UltraSwitches(): (s: seq<string>)
    ensures AllLiteral(s)
  {
    ["-bd", "-bb0", "-bso0", "-t7z", "-m0=lzma", "-mx=9", "-mfb=64", "-md=32m", "-ms=on"]
  }

  function Zip(): (c: Comp)
    ensures WellFormed(c) && NamesItsOutput(c)
    ensures c.suffix == ".zip"
  {
    assert "BASE.zip" == "BASE" + ".zip";
    Row("zip", ".zip", ["zip", "--quiet"], ["BASE.zip", "FILE"])
  }

  /** The rar row, with the archive argument given: compcomp.py passes
      `BASE.zip` although the row's suffix is `.rar`. */
  function Rar(archive: string): (c: Comp)
    requires IsTemplateArg(archive)
    ensures WellFormed(c)
  {
    Comp("rar", ".rar", ["rar", "a", "-inul", archive, "FILE"])
  }

  /** An arj row for one compression mode (`m1`, `jm`). */
  function Arj(mode: string): (c: Comp)
    requires IsKey(mode) && IsLiteral(mode)
    ensures WellFormed(c) && NamesItsOutput(c)
    ensures c.suffix == ".arj"
  {
    assert "BASE.arj" == "BASE" + ".arj";
    Row("arj-" + mode, ".arj", ["arj", "a", "-i", "-" + mode], ["BASE.arj", "FILE"])
  }

  /** An lrzip row: the level and one back end, named `tag` in the key and
      selected by the switch `--backend` on the command line. */
  function Lrzip(tag: string, backend: string, level: nat): (c: Comp)
    requires IsKey(tag) && IsLiteral(backend)
    ensures WellFormed(c) && NamesItsOutput(c)
    ensures c.suffix == ".lrz"
  {
    Row("lrzip-" + Decimal(level) + "-" + tag, ".lrz",
        ["lrzip", "--quiet", "-p", "1", "-L", Decimal(level), "-N", "0", "--" + backend], ["FILE"])
  }

  function LrzipBzip2(level: nat): Comp {
    Lrzip("bz2", "bzip2", level)
  }

  function LrzipLzo(level: nat): Comp {
    Lrzip("lzo", "lzo", level)
  }

  function LrzipZpaq(level: nat): Comp {
    Lrzip("zpaq", "zpaq", level)
  }

  /** The level only names the row: `snzip` is run the same way for all. */
  function Snappy(level: nat): (c: Comp)
    ensures WellFormed(c) && NamesItsOutput(c)
    ensures c.suffix == ".sz"
  {
    Row("snappy-" + Decimal(level), ".sz", ["snzip", "-k"], ["FILE"])
  }

  function Dact(): (c: Comp)
    ensures WellFormed(c) && NamesItsOutput(c)
    ensures c.suffix == ".dct"
  {
    Row("dact", ".dct", ["dact"], ["FILE"])
  }

  /** The table in its order, with the rar row supplied. */
  function Table(rar: Comp): seq<Comp> {
    RowsBeforeRar() + [rar] + RowsAfterRar()
  }

  /** The rows from `cp` to `zip`. */
  function RowsBeforeRar(): seq<Comp> {
    [Copy()]
    + Family([1, 3, 6, 9], Gzip)
    + Family([15, 50], Zopfli)
    + Family([4, 6, 9], Bzip2)
    + Family([1, 3, 6, 9], Xz)
    + Family([6, 9], Lzma)
    + Family([1, 3, 14, 16, 19], Zstd)
    + Family([1, 4, 9, 12], Lz4)
    + Family([1, 3, 7, 9], Lzop)
    + Family([1, 3, 9], Brotli)
    + [BrotliBest(), SevenZip(), Zip()]
  }

  /** The rows from `arj-m1` to `dact`. */
  function RowsAfterRar(): seq<Comp> {
    [Arj("m1"), Arj("jm")]
    + Family([1, 9], LrzipBzip2)
    + Family([1, 9], LrzipLzo)
    + Family([1, 9], LrzipZpaq)
    + Family([1, 6, 9], Snappy)
    + [Dact()]
  }

  /** The table exactly as compcomp.py writes it. */
  function CompsAsWritten(): seq<Comp> {
    Table(Rar("BASE.zip"))
  }

  /** The table with the rar archive named after the rar suffix; the rest of
      the model uses this one. */
  function Comps(): seq<Comp> {
    Table(Rar("BASE.rar"))
  }

  /** Every row of the table, with either rar archive name, is well formed:
      the assertions of `run_one` never fail and `comp[2][0]` always exists. */
  lemma TableWellFormed(rar: Comp)
    requires WellFormed(rar)
    ensures |Table(rar)| == 48
    ensures forall c :: c in Table(rar) ==> WellFormed(c)
  {
    BeforeRarSound();
    AfterRarSound();
  }

  lemma CompsWellFormed()
    ensures forall c :: c in CompsAsWritten() ==> WellFormed(c)
    ensures forall c :: c in Comps() ==> WellFormed(c)
  {
    AsWrittenWellFormed();
    CorrectedWellFormed();
  }

  lemma AsWrittenWellFormed()
    ensures forall c :: c in CompsAsWritten() ==> WellFormed(c)
  {
    ArchiveIsTemplateArg(".zip");
    TableWellFormed(Rar("BASE.zip"));
  }

  lemma CorrectedWellFormed()
    ensures forall c :: c in Comps() ==> WellFormed(c)
  {
    ArchiveIsTemplateArg(".rar");
    TableWellFormed(Rar("BASE.rar"));
  }

  lemma ArchiveIsTemplateArg(ext: string)
    requires IsExtension(ext)
    ensures IsTemplateArg("BASE" + ext)
  {
    var a := "BASE" + ext;
    assert a[..4] == "BASE" && a[4..] == ext;
  }

  /** With the rar archive corrected, every row names its own output. */
  lemma CompsNameTheirOutputs()
    ensures forall c :: c in Comps() ==> NamesItsOutput(c)
  {
    BeforeRarSound();
    AfterRarSound();
    assert "BASE.rar" == "BASE" + ".rar";
    RarNamesItsOutput(".rar");
  }

  /** The rar row names the archive it is measured by exactly when its
      archive extension is `.rar`. */
  lemma RarNamesItsOutput(ext: string)
    requires IsExtension(ext)
    ensures IsTemplateArg("BASE" + ext)
    ensures NamesItsOutput(Rar("BASE" + ext)) <==> ext == ".rar"
  {
    var a := "BASE" + ext;
    ArchiveIsTemplateArg(ext);
    var c := Rar(a);
    assert NamesFile(a) && a[0] == 'B' by {
      assert a[0] == 'B';
    }
    assert c.argv[3] == a;
    assert UsesBase(c);
    forall i | 0 <= i < |c.argv| && i != 3
      ensures !NamesFile(c.argv[i])
    {
    }
    if a == "BASE" + c.suffix {
      assert ext == a[4..];
    }
  }

  lemma BeforeRarSound()
    ensures |RowsBeforeRar()| == 35
    ensures forall c :: c in RowsBeforeRar() ==> WellFormed(c) && NamesItsOutput(c)
  {
  }

  lemma AfterRarSound()
    ensures |RowsAfterRar()| == 12
    ensures forall c :: c in RowsAfterRar() ==> WellFormed(c) && NamesItsOutput(c)
  {
  }

  /** As written, the rar row tells `rar` to write `BASE.zip` while the
      output it measures is `BASE.rar`. */
  lemma RarRowAsWritten()
    ensures Rar("BASE.zip") in CompsAsWritten()
    ensures !NamesItsOutput(Rar("BASE.zip"))
  {
    RarInTable(Rar("BASE.zip"));
    assert "BASE.zip" == "BASE" + ".zip";
    RarNamesItsOutput(".zip");
  }

  lemma RarInTable(rar: Comp)
    ensures Table(rar)[35] == rar
  {
    BeforeRarSound();
  }

}
