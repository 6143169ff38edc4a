/**
 * The front of the DAFSA builder: reading `domain, <digit>` lines of a gperf
 * file into words, and spelling each word out as a chain of one-character
 * nodes (`to_dafsa`). The last character of every word stands for the return
 * value; the chain keeps only its low four bits.
 */
module DafsaInput {
  import opened Bits
  import opened DafsaGraph

  // ---------------------------------------------------------------------------
  // parse_gperf

  /** The characters Python's `str.strip()` removes. */
  predicate PyWhitespace(c: char) {
    var n := c as int;
    n == 0x20 || 0x09 <= n <= 0x0D || 0x1C <= n <= 0x1F || n == 0x85 || n == 0xA0
    || n == 0x1680 || 0x2000 <= n <= 0x200A || n == 0x2028 || n == 0x2029
    || n == 0x202F || n == 0x205F || n == 0x3000
  }

  function StripLeft(s: string): string {
    if s != [] && PyWhitespace(s[0]) then StripLeft(s[1..]) else s
  }

  function StripRight(s: string): string {
    if s != [] && PyWhitespace(s[|s| - 1]) then StripRight(s[..|s| - 1]) else s
  }

  /** `line.strip()` */
  function Strip(s: string): string {
    StripRight(StripLeft(s))
  }

  /** `lstrip` drops the leading whitespace and nothing else. */
  lemma {:induction false} StripLeftSpec(s: string)
    ensures var r := StripLeft(s);
      && |r| <= |s| && r == s[|s| - |r|..]
      && (forall j :: 0 <= j < |s| - |r| ==> PyWhitespace(s[j]))
      && (r == [] || !PyWhitespace(r[0]))
  {
    if s != [] && PyWhitespace(s[0]) {
      StripLeftSpec(s[1..]);
      var r := StripLeft(s);
      assert s[1..][|s| - 1 - |r|..] == s[|s| - |r|..];
      forall j | 0 < j < |s| - |r| ensures PyWhitespace(s[j]) {
        assert s[1..][j - 1] == s[j];
      }
    }
  }

  /** `rstrip` drops the trailing whitespace and nothing else. */
  lemma {:induction false} StripRightSpec(s: string)
    ensures var r := StripRight(s);
      && |r| <= |s| && r == s[..|r|]
      && (forall j :: |r| <= j < |s| ==> PyWhitespace(s[j]))
      && (r == [] || !PyWhitespace(r[|r| - 1]))
  {
    if s != [] && PyWhitespace(s[|s| - 1]) {
      StripRightSpec(s[..|s| - 1]);
      var r := StripRight(s);
      assert s[..|s| - 1][..|r|] == s[..|r|];
      forall j | |r| <= j < |s| - 1 ensures PyWhitespace(s[j]) {
        assert s[..|s| - 1][j] == s[j];
      }
    }
  }

  /** `strip` keeps a slice `s[a..b]` of its input that neither starts nor ends
      with whitespace, and everything it drops is whitespace. */
  lemma {:induction false} StripSpec(s: string)
    ensures var r := Strip(s);
      && (r == [] || (!PyWhitespace(r[0]) && !PyWhitespace(r[|r| - 1])))
      && exists a, b :: 0 <= a <= b <= |s| && r == s[a..b]
           && (forall j :: 0 <= j < a ==> PyWhitespace(s[j]))
           && (forall j :: b <= j < |s| ==> PyWhitespace(s[j]))
  {
    var l := StripLeft(s);
    var r := Strip(s);
    StripLeftSpec(s);
    StripRightSpec(l);
    var a := |s| - |l|;
    assert r == l[..|r|];
    assert r == s[a..a + |r|];
    if r != [] {
      assert r[0] == l[0];
    }
    forall j | a + |r| <= j < |s| ensures PyWhitespace(s[j]) {
      assert s[j] == l[j - a];
    }
  }

  predicate IsHexDigit(c: char) {
    '0' <= c <= '9' || 'A' <= c <= 'F'
  }

  /** A stripped line of the form `domain, <digit>`: its slice `[-3:-1]` is ", "
      and its last character one of `0123456789ABCDEF`. */
  predicate GperfLine(line: string) {
    |line| >= 3 && line[|line| - 3..|line| - 1] == ", " && IsHexDigit(line[|line| - 1])
  }

  /** `line[:-3] + line[-1]` */
  function GperfWord(line: string): string
    requires GperfLine(line)
  {
    line[..|line| - 3] + [line[|line| - 1]]
  }

  /** `parse_gperf`: every stripped line must be `domain, <digit>`; the word is
      the domain with the digit appended. */
  function ParseGperf(lines: seq<string>): (r: Result<seq<string>>)
    ensures r.Err? ==> r.error == InputError
    ensures r.Ok? ==> |r.value| == |lines|
  {
    if lines == [] then Ok([])
    else if !GperfLine(Strip(lines[0])) then Err(InputError)
    else match ParseGperf(lines[1..])
      case Err(e) => Err(e)
      case Ok(ws) => Ok([GperfWord(Strip(lines[0]))] + ws)
  }

  /** `parse_gperf` accepts exactly the files whose every stripped line is
      `domain, <digit>`. */
  lemma {:induction false} ParseGperfAccepts(lines: seq<string>)
    ensures ParseGperf(lines).Ok? <==> forall i :: 0 <= i < |lines| ==> GperfLine(Strip(lines[i]))
  {
    if lines != [] {
      var rest := lines[1..];
      ParseGperfAccepts(rest);
      if ParseGperf(lines).Ok? {
        assert GperfLine(Strip(lines[0])) && ParseGperf(rest).Ok?;
        forall i | 0 <= i < |lines| ensures GperfLine(Strip(lines[i])) {
          if i > 0 {
            assert lines[i] == rest[i - 1];
            assert GperfLine(Strip(rest[i - 1]));
          }
        }
      } else if GperfLine(Strip(lines[0])) {
        var j :| 0 <= j < |rest| && !GperfLine(Strip(rest[j]));
        assert rest[j] == lines[j + 1];
      }
    }
  }

  /** ... and gives one word per line, in file order. */
  lemma {:induction false} ParseGperfWords(lines: seq<string>)
    requires forall i :: 0 <= i < |lines| ==> GperfLine(Strip(lines[i]))
    ensures ParseGperf(lines).Ok?
    ensures forall i :: 0 <= i < |lines| ==> ParseGperf(lines).value[i] == GperfWord(Strip(lines[i]))
  {
    if lines != [] {
      assert forall i :: 1 <= i < |lines| ==> lines[1..][i - 1] == lines[i];
      ParseGperfWords(lines[1..]);
    }
  }

  /** The gperf line of a word: the domain, ", " and the return digit. */
  function GperfFormat(word: string): string {
    if word == [] then [] else word[..|word| - 1] + ", " + [word[|word| - 1]]
  }

  /** A word whose line needs no stripping. */
  predicate Formattable(word: string) {
    word != [] && IsHexDigit(word[|word| - 1]) && !PyWhitespace(word[0])
  }

  lemma {:induction false} GperfFormatLine(word: string)
    requires Formattable(word)
    ensures Strip(GperfFormat(word)) == GperfFormat(word)
    ensures GperfLine(GperfFormat(word)) && GperfWord(GperfFormat(word)) == word
  {
    var line := GperfFormat(word);
    assert line[0] == (if |word| > 1 then word[0] else ',');
    assert StripLeft(line) == line;
    assert StripRight(line) == line;
    assert line[|line| - 3..|line| - 1] == ", ";
    assert line[..|line| - 3] == word[..|word| - 1];
  }

  /** Parsing the lines that format a word list gives the word list back. */
  lemma {:induction false} ParseGperfRoundTrip(words: seq<string>)
    requires forall i :: 0 <= i < |words| ==> Formattable(words[i])
    ensures ParseGperf(seq(|words|, i requires 0 <= i < |words| => GperfFormat(words[i]))) == Ok(words)
  {
    var lines := seq(|words|, i requires 0 <= i < |words| => GperfFormat(words[i]));
    forall i | 0 <= i < |words|
      ensures GperfLine(Strip(lines[i])) && GperfWord(Strip(lines[i])) == words[i]
    {
      GperfFormatLine(words[i]);
    }
    ParseGperfWords(lines);
    var r := ParseGperf(lines);
    assert r.value == words;
  }

  // ---------------------------------------------------------------------------
  // to_dafsa

  /** `0x1F < ord(c) < 0x80` */
  predicate Printable(c: char) {
    0x1F < c as int < 0x80
  }

  /** `chr(ord(c) & 0x0F)`: the return value the last character stands for. */
  function Mask(c: char): (r: char)
    ensures r as int == c as int % 16
  {
    AndLowMask(c as int, 4);
    And(c as int, 0x0F) as char
  }

  /** A word as its chain spells it: the last character masked. */
  function MaskLast(w: string): string {
    if w == [] then [] else w[..|w| - 1] + [Mask(w[|w| - 1])]
  }

  lemma {:induction false} MaskLastCons(w: string)
    requires |w| >= 2
    ensures MaskLast(w) == [w[0]] + MaskLast(w[1..])
  {
    var n := |w|;
    assert w[1..][..n - 2] == w[1..n - 1];
    assert w[..n - 1] == [w[0]] + w[1..n - 1];
    assert w[1..][n - 2] == w[n - 1];
  }

  /** A word `to_dafsa` accepts. */
  predicate ValidWord(w: string) {
    w != [] && forall i :: 0 <= i < |w| ==> Printable(w[i])
  }

  /** `ToNodes`: appends the chain of `word` to the arena, innermost node first
      (Python builds the tail before the tuple that holds it), and returns the
      head. An empty word fails on `word[0]`. */
  function ToNodes(ns: seq<Node>, word: string): Result<(seq<Node>, Target)>
    decreases |word|
  {
    if word == [] then Err(IndexError)
    else if !Printable(word[0]) then Err(InputError)
    else if |word| == 1 then Ok((ns + [Node([Mask(word[0])], [Sink])], At(|ns|)))
    else match ToNodes(ns, word[1..])
      case Err(e) => Err(e)
      case Ok((ms, t)) => Ok((ms + [Node([word[0]], [t])], At(|ms|)))
  }

  /** `[ToNodes(word) for word in words]`, threading the arena. */
  function Chains(ns: seq<Node>, words: seq<string>): Result<(seq<Node>, seq<Target>)>
    decreases |words|
  {
    if words == [] then Ok((ns, []))
    else match ToNodes(ns, words[0])
      case Err(e) => Err(e)
      case Ok((ms, t)) =>
        match Chains(ms, words[1..])
        case Err(e) => Err(e)
        case Ok((ks, ts)) => Ok((ks, [t] + ts))
  }

  /** `to_dafsa`: the source's children are the heads of the chains. */
  function ToDafsa(words: seq<string>): Result<Graph> {
    if words == [] then Err(InputError)
    else match Chains([], words)
      case Err(e) => Err(e)
      case Ok((ns, ts)) => Ok(Graph(ns, ts))
  }

  /** The error a word raises first: `IndexError` when empty, else `InputError`. */
  function WordError(w: string): Error {
    if w == [] then IndexError else InputError
  }

  lemma {:induction false} ToNodesError(ns: seq<Node>, word: string)
    ensures ToNodes(ns, word).Err? <==> !ValidWord(word)
    ensures ToNodes(ns, word).Err? ==> ToNodes(ns, word).error == WordError(word)
    decreases |word|
  {
    if word != [] && Printable(word[0]) && |word| > 1 {
      ToNodesError(ns, word[1..]);
      if !ValidWord(word) {
        var i :| 0 <= i < |word| && !Printable(word[i]);
        assert !Printable(word[1..][i - 1]);
      } else {
        forall i | 0 <= i < |word| - 1 ensures Printable(word[1..][i]) {
          assert word[1..][i] == word[i + 1];
        }
      }
    }
  }

  /** `t` spells exactly one word, `u`, both as `to_words` lists it and as a set. */
  predicate SpellsOne(ns: seq<Node>, t: Target, u: string) {
    Ordered(ns) && Below(t, |ns|) && ToWords(ns, t) == [u] && Lang(ns, t) == {u}
  }

  /** `ms` is `ns` with nodes appended. */
  predicate Extends(ns: seq<Node>, ms: seq<Node>) {
    |ns| <= |ms| && ms[..|ns|] == ns
  }

  lemma {:induction false} ExtendsTrans(ns: seq<Node>, ms: seq<Node>, ks: seq<Node>)
    requires Extends(ns, ms) && Extends(ms, ks)
    ensures Extends(ns, ks)
  {
    assert ks[..|ns|] == ks[..|ms|][..|ns|];
  }

  /** A target keeps the one word it spells when nodes are appended. */
  lemma {:induction false} SpellsOneExtend(ns: seq<Node>, ms: seq<Node>, t: Target, u: string)
    requires SpellsOne(ns, t, u) && Ordered(ms) && Extends(ns, ms)
    ensures SpellsOne(ms, t, u)
  {
    LangExtend(ns, ms, t);
    ToWordsExtend(ns, ms, t);
  }

  /** The chain of a valid word: appended after the arena, and spelling exactly
      that word with its last character masked. */
  lemma {:induction false} ToNodesChain(ns: seq<Node>, word: string)
    requires Ordered(ns) && ValidWord(word)
    ensures ToNodes(ns, word).Ok?
    ensures var ms := ToNodes(ns, word).value.0;
      && Ordered(ms) && Extends(ns, ms) && |ns| < |ms|
      && SpellsOne(ms, ToNodes(ns, word).value.1, MaskLast(word))
    decreases |word|
  {
    ToNodesError(ns, word);
    if |word| == 1 {
      assert [Mask(word[0])] + "" == MaskLast(word);
      OneWordNode(ns, [Mask(word[0])], Sink, "");
    } else {
      var tail := word[1..];
      assert ValidWord(tail) by {
        forall i | 0 <= i < |word| - 1 ensures Printable(tail[i]) {
          assert tail[i] == word[i + 1];
        }
      }
      ToNodesChain(ns, tail);
      var ms := ToNodes(ns, tail).value.0;
      var t := ToNodes(ns, tail).value.1;
      assert ToNodes(ns, word) == Ok((ms + [Node([word[0]], [t])], At(|ms|)));
      MaskLastCons(word);
      OneWordNode(ms, [word[0]], t, MaskLast(tail));
      ExtendsTrans(ns, ms, ms + [Node([word[0]], [t])]);
    }
  }

  /** A node with one child that spells one word spells that word behind its label. */
  lemma {:induction false} OneWordNode(ns: seq<Node>, text: string, t: Target, u: string)
    requires SpellsOne(ns, t, u)
    ensures Ordered(ns + [Node(text, [t])]) && Extends(ns, ns + [Node(text, [t])])
    ensures SpellsOne(ns + [Node(text, [t])], At(|ns|), text + u)
  {
    var ms := ns + [Node(text, [t])];
    AppendOrdered(ns, Node(text, [t]));
    SpellsOneExtend(ns, ms, t, u);
    LangOneChild(ms, |ns|, t, u);
    ToWordsOneChild(ms, |ns|, t, u);
  }

  /** `to_dafsa` fails exactly on an empty list or an invalid word, with the
      error the first invalid word raises. */
  lemma {:induction false} ToDafsaError(words: seq<string>)
    ensures ToDafsa(words).Err? <==> words == [] || exists i :: 0 <= i < |words| && !ValidWord(words[i])
    ensures words == [] ==> ToDafsa(words) == Err(InputError)
    ensures forall i :: 0 <= i < |words| && !ValidWord(words[i])
              && (forall j :: 0 <= j < i ==> ValidWord(words[j]))
              ==> ToDafsa(words) == Err(WordError(words[i]))
  {
    if words != [] {
      ChainsError([], words);
    }
  }

  lemma {:induction false} ChainsError(ns: seq<Node>, words: seq<string>)
    ensures Chains(ns, words).Err? <==> exists i :: 0 <= i < |words| && !ValidWord(words[i])
    ensures forall i :: 0 <= i < |words| && !ValidWord(words[i])
              && (forall j :: 0 <= j < i ==> ValidWord(words[j]))
              ==> Chains(ns, words) == Err(WordError(words[i]))
    decreases |words|
  {
    if words != [] {
      ToNodesError(ns, words[0]);
      if ToNodes(ns, words[0]).Ok? {
        var (ms, t) := ToNodes(ns, words[0]).value;
        ChainsError(ms, words[1..]);
        forall i | 1 <= i < |words| ensures words[1..][i - 1] == words[i] { }
      }
    }
  }

  /** Each head in `ts` spells the masked word at its place in `words`. */
  predicate AllSpell(ns: seq<Node>, ts: seq<Target>, words: seq<string>) {
    |ts| == |words| && forall i :: 0 <= i < |words| ==> SpellsOne(ns, ts[i], MaskLast(words[i]))
  }

  /** A head spelling the first word, put before heads spelling the rest. */
  lemma {:induction false} AllSpellCons(ns: seq<Node>, t: Target, ts: seq<Target>, words: seq<string>)
    requires words != [] && SpellsOne(ns, t, MaskLast(words[0]))
    requires AllSpell(ns, ts, words[1..]) && AllBelow(ts, |ns|)
    ensures AllSpell(ns, [t] + ts, words) && AllBelow([t] + ts, |ns|)
  {
    var all := [t] + ts;
    forall i | 0 <= i < |words| ensures SpellsOne(ns, all[i], MaskLast(words[i])) {
      if i > 0 {
        assert all[i] == ts[i - 1] && words[i] == words[1..][i - 1];
      }
    }
    forall c | c in all ensures Below(c, |ns|) {
      if c != t {
        assert c in ts;
      }
    }
  }

  /** The chains of valid words: one head per word, each spelling its word. */
  lemma {:induction false} ChainsSpell(ns: seq<Node>, words: seq<string>)
    requires Ordered(ns)
    requires forall i :: 0 <= i < |words| ==> ValidWord(words[i])
    ensures Chains(ns, words).Ok?
    ensures var (ms, ts) := Chains(ns, words).value;
      Ordered(ms) && Extends(ns, ms) && AllBelow(ts, |ms|) && AllSpell(ms, ts, words)
    decreases |words|
  {
    if words != [] {
      ToNodesChain(ns, words[0]);
      var (ms, t) := ToNodes(ns, words[0]).value;
      ChainsSpell(ms, words[1..]);
      var (ks, ts) := Chains(ms, words[1..]).value;
      ExtendsTrans(ns, ms, ks);
      SpellsOneExtend(ms, ks, t, MaskLast(words[0]));
      AllSpellCons(ks, t, ts, words);
    }
  }

  /** The words of a list with their last characters masked. */
  function Masked(words: seq<string>): seq<string> {
    seq(|words|, i requires 0 <= i < |words| => MaskLast(words[i]))
  }

  /** `to_dafsa` of valid words: a well-formed graph with one chain per word,
      whose words are the input words with their last characters masked. */
  lemma {:induction false} ToDafsaWords(words: seq<string>)
    requires words != [] && forall i :: 0 <= i < |words| ==> ValidWord(words[i])
    ensures ToDafsa(words).Ok?
    ensures var g := ToDafsa(words).value;
      && WellFormed(g) && |g.source| == |words|
      && (forall i :: 0 <= i < |words| ==> ToWords(g.nodes, g.source[i]) == [MaskLast(words[i])])
      && Words(g) == Elems(Masked(words))
  {
    ChainsSpell([], words);
    var g := ToDafsa(words).value;
    var masked := Masked(words);
    forall i | 0 <= i < |words| ensures Lang(g.nodes, g.source[i]) == {masked[i]} {
      assert SpellsOne(g.nodes, g.source[i], MaskLast(words[i]));
    }
    LangOfSingletons(g.nodes, g.source, masked);
  }
}
