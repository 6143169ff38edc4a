/**
 * The emitting half of psl2c: after the rule vectors pass the consistency
 * check, they are written out as two C arrays followed by four provenance
 * definitions (file time, compile time, SHA-1 checksum, file name).
 *
 * The generated file is a sequence of `Line`s, each holding what one
 * `fprintf` writes, not its characters. The file system, the environment, the
 * clock and the `sha1sum` pipe are not modelled: what they return is passed in
 * as a `Provenance`.
 */
module PslEmit {
  import opened PslCheck
  import opened Optional

  // ---------------------------------------------------------------------------
  // C integer conversions used by the printf formats

  const ShortModulus := 0x1_0000
  const ULongModulus := 0x1_0000_0000_0000_0000

  /** The value `%hd` prints: the argument converted to a 16-bit signed short. */
  function AsShort(x: int): (r: int)
    ensures -0x8000 <= r < 0x8000
    ensures (x - r) % ShortModulus == 0
    ensures -0x8000 <= x < 0x8000 ==> r == x
  {
    (x + 0x8000) % ShortModulus - 0x8000
  }

  /** The value `%lu` prints: the argument reduced modulo 2^64. */
  function AsULong(x: int): (r: nat)
    ensures r < ULongModulus
    ensures (x - r) % ULongModulus == 0
    ensures 0 <= x < ULongModulus ==> r == x
  {
    x % ULongModulus
  }

  // ---------------------------------------------------------------------------
  // The generated file

  datatype Line =
    | Banner                                   // "/* automatically generated by psl2c ... */"
    | ArrayOpen(name: string)                  // "static _psl_entry_t <name>[] = {"
    | Record(text: string, length: int, nlabels: int, wildcard: bool)
    | ArrayClose                               // "};"
    | FileTime(seconds: nat)                   // _psl_file_time
    | CompileTime(seconds: nat)                // _psl_compile_time
    | Checksum(digest: string)                 // _psl_sha1_checksum
    | FileName(path: string)                   // _psl_filename

  /** The record line of one entry: text, length as a short, labels, flag. */
  function RecordOf(e: Entry): Line {
    Record(e.suffix, AsShort(e.length), e.nlabels, e.wildcard)
  }

  /** The record lines of the entries, in vector order. */
  function Records(v: seq<Entry>): seq<Line> {
    seq(|v|, i requires 0 <= i < |v| => RecordOf(v[i]))
  }

  /** What `_print_psl_entries` writes for vector `v` under array name `name`. */
  function EntriesBlock(v: seq<Entry>, name: string): seq<Line> {
    [Banner, ArrayOpen(name)] + Records(v) + [ArrayClose]
  }

  /** Reading a block back: the array name and the entries, if `lines` is one block. */
  function ParseEntriesBlock(lines: seq<Line>): (r: Option<(string, seq<Entry>)>)
    ensures r.Some? ==> |r.value.1| == |lines| - 3
  {
    if |lines| >= 3 && lines[0] == Banner && lines[1].ArrayOpen?
       && lines[|lines| - 1] == ArrayClose
       && (forall i :: 2 <= i < |lines| - 1 ==> lines[i].Record? && -0x8000 <= lines[i].length < 0x8000)
    then
      Some((lines[1].name,
            seq(|lines| - 3, i requires 0 <= i < |lines| - 3 =>
              Entry(lines[i + 2].text, lines[i + 2].length, lines[i + 2].nlabels, lines[i + 2].wildcard))))
    else None
  }

  /** Every entry's length fits the `%hd` conversion. */
  predicate ShortLengths(v: seq<Entry>) {
    forall i :: 0 <= i < |v| ==> -0x8000 <= v[i].length < 0x8000
  }

  /** A block gives back its array name and entries, in vector order. */
  lemma {:induction false} ParseEntriesBlockRoundTrip(v: seq<Entry>, name: string)
    requires ShortLengths(v)
    ensures ParseEntriesBlock(EntriesBlock(v, name)) == Some((name, v))
  {
    var lines := EntriesBlock(v, name);
    assert forall i :: 2 <= i < |lines| - 1 ==> lines[i] == RecordOf(v[i - 2]);
    var r := ParseEntriesBlock(lines);
    assert r.Some?;
    assert r.value.1 == v;
  }

  /** Whatever parses as a block is the block of what it parses to. */
  lemma {:induction false} ParseEntriesBlockExact(lines: seq<Line>)
    requires ParseEntriesBlock(lines).Some?
    ensures ShortLengths(ParseEntriesBlock(lines).value.1)
    ensures lines == EntriesBlock(ParseEntriesBlock(lines).value.1, ParseEntriesBlock(lines).value.0)
  {
    var r := ParseEntriesBlock(lines).value;
    var b := EntriesBlock(r.1, r.0);
    assert |b| == |lines|;
    forall i | 0 <= i < |lines| ensures b[i] == lines[i] {
      if 2 <= i < |lines| - 1 {
        assert b[i] == RecordOf(r.1[i - 2]);
      }
    }
  }

  /** The output file: the lines written so far. */
  class OutFile {
    var lines: seq<Line>

    constructor ()
      ensures lines == []
    {
      lines := [];
    }

    /** One `fprintf` to the file. */
    method Put(l: Line)
      modifies this
      ensures lines == old(lines) + [l]
    {
      lines := lines + [l];
    }
  }

  /** `_print_psl_entries`: banner, array header, one record per entry in vector order, `};`. */
  method PrintEntries(out: OutFile, v: seq<Entry>, name: string)
    modifies out
    ensures out.lines == old(out.lines) + EntriesBlock(v, name)
  {
    out.Put(Banner);
    out.Put(ArrayOpen(name));
    var it := 0;
    while it < |v|
      invariant 0 <= it <= |v|
      invariant out.lines == old(out.lines) + [Banner, ArrayOpen(name)] + Records(v[..it])
    {
      assert Records(v[..it + 1]) == Records(v[..it]) + [RecordOf(v[it])];
      out.Put(RecordOf(v[it]));
      it := it + 1;
    }
    assert v[..it] == v;
    out.Put(ArrayClose);
  }

  // ---------------------------------------------------------------------------
  // Provenance

  predicate IsAlnum(c: char) {
    '0' <= c <= '9' || 'a' <= c <= 'z' || 'A' <= c <= 'Z'
  }

  /** `fscanf("%63[0-9a-zA-Z]")`: the longest run of letters and digits at the
      start of `s`, at most `max` characters (no whitespace is skipped). */
  function AlnumPrefix(s: string, max: nat): (r: string)
    ensures |r| <= max && r <= s
    ensures forall i :: 0 <= i < |r| ==> IsAlnum(r[i])
    ensures |r| == max || |r| == |s| || !IsAlnum(s[|r|])
  {
    if max == 0 || s == [] || !IsAlnum(s[0]) then []
    else [s[0]] + AlnumPrefix(s[1..], max - 1)
  }

  /** The checksum that ends up in the file: empty when the pipe could not be
      opened or the scan matched nothing. */
  function ScanChecksum(pipeOutput: Option<string>): string {
    if pipeOutput.None? then [] else AlnumPrefix(pipeOutput.value, 63)
  }

  predicate IsSpace(c: char) {
    c == ' ' || '\t' <= c <= '\r'
  }

  predicate IsDigit(c: char) {
    '0' <= c <= '9'
  }

  /** The number of whitespace characters at the start of `s`. */
  function SpaceRun(s: string): (n: nat)
    ensures n <= |s| && (n == |s| || !IsSpace(s[n]))
    ensures forall i :: 0 <= i < n ==> IsSpace(s[i])
  {
    if s != [] && IsSpace(s[0]) then 1 + SpaceRun(s[1..]) else 0
  }

  /** The number of decimal digits at the start of `s`. */
  function DigitRun(s: string): (n: nat)
    ensures n <= |s| && (n == |s| || !IsDigit(s[n]))
    ensures forall i :: 0 <= i < n ==> IsDigit(s[i])
  {
    if s != [] && IsDigit(s[0]) then 1 + DigitRun(s[1..]) else 0
  }

  /** The number a string of decimal digits denotes. */
  function DigitsValue(ds: string): nat
    requires forall i :: 0 <= i < |ds| ==> IsDigit(ds[i])
  {
    if ds == [] then 0
    else
      assert IsDigit(ds[|ds| - 1]);
      DigitsValue(ds[..|ds| - 1]) * 10 + (ds[|ds| - 1] as int - '0' as int)
  }

  /** `atol`: optional leading whitespace, an optional sign, then decimal digits;
      anything after the digits is ignored and no digits give 0. */
  function Atol(s: string): int {
    var t := s[SpaceRun(s)..];
    if t != [] && (t[0] == '-' || t[0] == '+') then
      var u := t[1..];
      var n: int := DigitsValue(u[..DigitRun(u)]);
      if t[0] == '-' then -n else n
    else DigitsValue(t[..DigitRun(t)])
  }

  /** The decimal text of a natural number, as `SOURCE_DATE_EPOCH` holds it. */
  function Decimal(n: nat): (r: string)
    ensures r != []
    ensures forall i :: 0 <= i < |r| ==> IsDigit(r[i])
  {
    if n < 10 then [('0' as int + n) as char]
    else Decimal(n / 10) + [('0' as int + n % 10) as char]
  }

  lemma {:induction false} DecimalValue(n: nat)
    ensures DigitsValue(Decimal(n)) == n
  {
    if n >= 10 {
      DecimalValue(n / 10);
      var d := Decimal(n);
      assert d[..|d| - 1] == Decimal(n / 10);
    }
  }

  lemma {:induction false} DigitRunAll(s: string)
    requires forall i :: 0 <= i < |s| ==> IsDigit(s[i])
    ensures DigitRun(s) == |s|
  {
    if s != [] {
      DigitRunAll(s[1..]);
    }
  }

  /** `atol` reads back the decimal text of a time stamp, with or without a sign. */
  lemma {:induction false} AtolDecimal(n: nat)
    ensures Atol(Decimal(n)) == n
    ensures Atol("-" + Decimal(n)) == -(n as int)
    ensures Atol("+" + Decimal(n)) == n
  {
    var d := Decimal(n);
    DecimalValue(n);
    AtolUnsigned(d);
    AtolSigned('-', d);
    AtolSigned('+', d);
  }

  lemma {:induction false} AtolUnsigned(d: string)
    requires d != [] && forall i :: 0 <= i < |d| ==> IsDigit(d[i])
    ensures Atol(d) == DigitsValue(d)
  {
    assert SpaceRun(d) == 0 && d[0..] == d;
    DigitRunAll(d);
    assert d[..|d|] == d;
  }

  lemma {:induction false} AtolSigned(sign: char, d: string)
    requires sign == '-' || sign == '+'
    requires d != [] && forall i :: 0 <= i < |d| ==> IsDigit(d[i])
    ensures Atol([sign] + d) == if sign == '-' then -(DigitsValue(d) as int) else DigitsValue(d)
  {
    var t := [sign] + d;
    assert SpaceRun(t) == 0 && t[0..] == t;
    assert t[1..] == d;
    DigitRunAll(d);
    assert d[..|d|] == d;
  }

  /** `atol` skips leading whitespace. */
  lemma {:induction false} AtolSkipsSpace(c: char, s: string)
    requires IsSpace(c)
    ensures Atol([c] + s) == Atol(s)
  {
    var t := [c] + s;
    assert t[1..] == s;
    assert SpaceRun(t) == 1 + SpaceRun(s);
    assert t[SpaceRun(t)..] == s[SpaceRun(s)..];
  }

  /** What the environment and the file system give `main`. */
  datatype Provenance = Provenance(
    path: string,                     // argv[1]
    mtime: Option<int>,               // st_mtime, None when stat() fails
    sourceDateEpoch: Option<string>,  // getenv("SOURCE_DATE_EPOCH")
    now: int,                         // time(NULL)
    sha1Output: Option<string>)       // what `sha1sum` prints, None when popen() fails

  /** The four provenance definitions that close the file. */
  function Trailer(p: Provenance): seq<Line> {
    [ FileTime(AsULong(if p.mtime.Some? then p.mtime.value else 0)),
      CompileTime(AsULong(if p.sourceDateEpoch.Some? then Atol(p.sourceDateEpoch.value) else p.now)),
      Checksum(ScanChecksum(p.sha1Output)),
      FileName(p.path) ]
  }

  /** The complete generated file. */
  function Artifact(suffixes: seq<Entry>, exceptions: seq<Entry>, p: Provenance): seq<Line> {
    EntriesBlock(suffixes, "suffixes") + EntriesBlock(exceptions, "suffix_exceptions") + Trailer(p)
  }

  /** A reproducible build: with `SOURCE_DATE_EPOCH` set to a decimal time, the
      file depends on the rules and on the input file alone, not on the clock. */
  lemma {:induction false} ReproducibleBuild(s: seq<Entry>, x: seq<Entry>, p: Provenance, q: Provenance, t: nat)
    requires p.sourceDateEpoch == q.sourceDateEpoch == Some(Decimal(t))
    requires p.path == q.path && p.mtime == q.mtime && p.sha1Output == q.sha1Output
    ensures Artifact(s, x, p) == Artifact(s, x, q)
    ensures Trailer(p)[1] == CompileTime(AsULong(t))
  {
    AtolDecimal(t);
  }

  /** Exit codes of `main`. */
  const ExitOk := 0
  const ExitUsage := 1
  const ExitLoad := 2
  const ExitOpen := 3
  const ExitClose := 4
  const ExitCheck := 5

  /**
   * `main` with the builtin generator: load the rule file (`loaded` is what
   * `psl_load_file` gives: both vectors sorted, or nothing), refuse it when the
   * consistency check fails, otherwise write the file. `canOpen` and `closeOk`
   * are the outcomes of `fopen` and `fclose`. `written` is what reaches the file.
   */
  method Compile(cmp: Comparator, argCount: int, loaded: Option<(seq<Entry>, seq<Entry>)>,
                 canOpen: bool, closeOk: bool, p: Provenance)
    returns (code: int, written: seq<Line>)
    requires IsKeyOrder(cmp)
    requires loaded.Some? ==> Sorted(cmp, loaded.value.0) && Sorted(cmp, loaded.value.1)
    ensures argCount != 3 ==> code == ExitUsage && written == []
    ensures argCount == 3 && loaded.None? ==> code == ExitLoad && written == []
    ensures (argCount == 3 && loaded.Some? && Violation(loaded.value.0, loaded.value.1))
              ==> code == ExitCheck && written == []
    ensures argCount == 3 && loaded.Some? && !Violation(loaded.value.0, loaded.value.1) ==>
              && (!canOpen ==> code == ExitOpen && written == [])
              && (canOpen ==> written == Artifact(loaded.value.0, loaded.value.1, p))
              && (canOpen ==> code == if closeOk then ExitOk else ExitClose)
  {
    if argCount != 3 {
      return ExitUsage, [];
    }
    if loaded.None? {
      return ExitLoad, [];
    }
    var (suffixes, exceptions) := loaded.value;
    var bad := CheckPsl(cmp, suffixes, exceptions);
    if bad {
      return ExitCheck, [];
    }
    if !canOpen {
      return ExitOpen, [];
    }
    var out := new OutFile();
    Emit(out, suffixes, exceptions, p);
    written := out.lines;
    code := if closeOk then ExitOk else ExitClose;
  }

  /** The writes between a successful `fopen` and the `fclose`. */
  method Emit(out: OutFile, suffixes: seq<Entry>, exceptions: seq<Entry>, p: Provenance)
    modifies out
    ensures out.lines == old(out.lines) + Artifact(suffixes, exceptions, p)
  {
    ghost var before := out.lines;
    PrintEntries(out, suffixes, "suffixes");
    PrintEntries(out, exceptions, "suffix_exceptions");
    ghost var blocks := out.lines;
    PrintTrailer(out, p);
    assert blocks == before + (EntriesBlock(suffixes, "suffixes") + EntriesBlock(exceptions, "suffix_exceptions"));
  }

  /** The four `fprintf`s of the provenance definitions. */
  method PrintTrailer(out: OutFile, p: Provenance)
    modifies out
    ensures out.lines == old(out.lines) + Trailer(p)
  {
    var mtime := if p.mtime.Some? then p.mtime.value else 0;
    var stamp := p.now;
    if p.sourceDateEpoch.Some? {
      stamp := Atol(p.sourceDateEpoch.value);
    }
    var fileTime, compileTime := FileTime(AsULong(mtime)), CompileTime(AsULong(stamp));
    var checksum, fileName := Checksum(ScanChecksum(p.sha1Output)), FileName(p.path);
    assert Trailer(p) == [fileTime, compileTime, checksum, fileName];
    out.Put(fileTime);
    out.Put(compileTime);
    out.Put(checksum);
    out.Put(fileName);
  }

  /** A successful run writes a file that reads back as the two checked vectors. */
  lemma {:induction false} ArtifactReadsBack(s: seq<Entry>, x: seq<Entry>, p: Provenance)
    requires ShortLengths(s) && ShortLengths(x)
    ensures var a := Artifact(s, x, p);
            && ParseEntriesBlock(a[..|s| + 3]) == Some(("suffixes", s))
            && ParseEntriesBlock(a[|s| + 3..|s| + |x| + 6]) == Some(("suffix_exceptions", x))
            && a[|s| + |x| + 6..] == Trailer(p)
  {
    var a := Artifact(s, x, p);
    assert a[..|s| + 3] == EntriesBlock(s, "suffixes");
    assert a[|s| + 3..|s| + |x| + 6] == EntriesBlock(x, "suffix_exceptions");
    ParseEntriesBlockRoundTrip(s, "suffixes");
    ParseEntriesBlockRoundTrip(x, "suffix_exceptions");
  }
}
