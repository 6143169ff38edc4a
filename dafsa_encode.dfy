/**
 * `encode`: the DAFSA as the byte array of the grammar at the head of
 * make_dafsa.py, and a reader of that grammar that gives the words back.
 *
 * `encode` writes the nodes children first, each one reversed, into
 * `output`, and reverses the whole at the end. After a node is written,
 * `offsets[id(node)]` is the length of `output`; in the final array the node
 * therefore starts that many bytes before the end. The reader below follows
 * the grammar:
 * - a byte below 0x80 is a character of a label, and the node goes on;
 * - a byte at or above 0x80 ends the label: with its low seven bits below
 *   0x20 it is a return value and ends the word, otherwise it is the
 *   label's last character and the node's offsets follow it.
 */
module DafsaEncode {
  import opened Bits
  import opened DafsaGraph
  import opened DafsaLinks
  import opened DafsaTopSort
  import opened Optional

  // ---------------------------------------------------------------------------
  // Labels

  /** `[ord(c) for c in s]`. */
  function Codes(s: string): (r: seq<nat>)
    ensures |r| == |s| && forall k :: 0 <= k < |s| ==> r[k] == s[k] as nat
  {
    if s == [] then [] else [s[0] as nat] + Codes(s[1..])
  }

  /** Every character fits in seven bits. */
  predicate Ascii(s: string) {
    forall k :: 0 <= k < |s| ==> s[k] as nat < 0x80
  }

  /** A label as the grammar spells it: its characters, the last one with
      bit 7 set. */
  function Marked(s: string): seq<nat>
    requires s != []
  {
    Codes(s[..|s| - 1]) + [s[|s| - 1] as nat + 0x80]
  }

  /** `encode_prefix(label)`: a non-empty label's character codes, last
      character first. */
  function EncodePrefix(text: string): (r: Result<seq<nat>>)
    ensures r.Err? <==> text == []
    ensures r.Err? ==> r.error == AssertionError
    ensures r.Ok? ==> Rev(r.value) == Codes(text)
  {
    if text == [] then Err(AssertionError)
    else
      RevRev(Codes(text));
      Ok(Rev(Codes(text)))
  }

  /** `encode_label(label)`: the prefix with bit 7 set on its first byte,
      the label's last character. */
  function EncodeLabel(text: string): (r: Result<seq<nat>>)
    ensures r.Err? <==> text == []
    ensures r.Err? ==> r.error == AssertionError
    ensures r.Ok? ==> |r.value| == |text|
  {
    match EncodePrefix(text)
    case Err(e) => Err(e)
    case Ok(buf) => Ok(buf[0 := Or(buf[0], 0x80)])
  }

  /** For a label in seven-bit characters, `encode_label` is the marked
      label, reversed. */
  lemma {:induction false} EncodeLabelMarked(text: string)
    requires text != [] && Ascii(text)
    ensures EncodeLabel(text).Ok? && Rev(EncodeLabel(text).value) == Marked(text)
  {
    var n := |text|;
    var codes := Codes(text);
    var buf := Rev(codes);
    assert EncodePrefix(text) == Ok(buf);
    SetHighBit(text[n - 1] as nat);
    var out := buf[0 := Or(buf[0], 0x80)];
    assert |out| == n && out[0] == codes[n - 1] + 0x80;
    assert forall j :: 0 < j < n ==> out[j] == codes[n - 1 - j];
    var r := Rev(out);
    forall k | 0 <= k < n ensures r[k] == Marked(text)[k] {
      MarkedAt(text, k);
    }
  }

  /** The `k`-th byte of a marked label. */
  lemma {:induction false} MarkedAt(text: string, k: nat)
    requires text != [] && k < |text|
    ensures Marked(text)[k] == text[k] as nat + (if k == |text| - 1 then 0x80 else 0)
  {
    var init := text[..|text| - 1];
    if k < |text| - 1 {
      assert Marked(text)[k] == Codes(init)[k] && init[k] == text[k];
    }
  }

  // ---------------------------------------------------------------------------
  // Reading the grammar

  /** The words spelled by the node that starts at `p` in `A`. */
  function NodeWords(A: seq<nat>, p: nat): set<string>
    decreases |A| - p, 1
  {
    if p >= |A| then {}
    else if A[p] < 0x80 then Prefix([A[p] as char], NodeWords(A, p + 1))
    else
      var c := A[p] % 0x80;
      if c < 0x20 then {[c as char]}
      else match ReadLinks(A, p + 1)
        case None => {}
        case Some(ds) => Prefix([c as char], TargetWords(A, p + 1, p + 1, ds))
  }

  /** The words of the nodes that the distances `ds` lead to, the first one
      measured from `pos`, each further one from the node before it; `lo` is
      where the list of offsets starts. */
  function TargetWords(A: seq<nat>, lo: nat, pos: nat, ds: seq<nat>): set<string>
    requires lo <= pos
    decreases |A| + 1 - lo, 0, |ds|
  {
    if ds == [] then {}
    else
      var t := pos + ds[0];
      (if t < |A| then NodeWords(A, t) else {}) + TargetWords(A, lo, t, ds[1..])
  }

  /** The words of a whole array: the source's offsets start it. */
  function DafsaWords(A: seq<nat>): set<string> {
    match ReadLinks(A, 0)
    case None => {}
    case Some(ds) => TargetWords(A, 0, 0, ds)
  }

  /** A node reads the same whatever precedes it. */
  lemma {:induction false} NodeWordsShift(P: seq<nat>, A: seq<nat>, p: nat)
    ensures NodeWords(P + A, |P| + p) == NodeWords(A, p)
    decreases |A| - p, 1
  {
    if p < |A| {
      assert (P + A)[|P| + p] == A[p];
      if A[p] < 0x80 {
        NodeWordsShift(P, A, p + 1);
      } else if A[p] % 0x80 >= 0x20 {
        ReadLinksShift(P, A, p + 1);
        match ReadLinks(A, p + 1)
        case None =>
        case Some(ds) => TargetWordsShift(P, A, p + 1, p + 1, ds);
      }
    }
  }

  lemma {:induction false} TargetWordsShift(P: seq<nat>, A: seq<nat>, lo: nat, pos: nat, ds: seq<nat>)
    requires lo <= pos
    ensures TargetWords(P + A, |P| + lo, |P| + pos, ds) == TargetWords(A, lo, pos, ds)
    decreases |A| + 1 - lo, 0, |ds|
  {
    if ds != [] {
      var t := pos + ds[0];
      if t < |A| {
        NodeWordsShift(P, A, t);
      }
      TargetWordsShift(P, A, lo, t, ds[1..]);
    }
  }

  lemma {:induction false} PrefixEmpty(ws: set<string>)
    ensures Prefix([], ws) == ws
  {
    forall w | w in ws ensures "" + w in Prefix([], ws) && "" + w == w {
    }
  }

  /** Characters below 0x80 read as the front of the node that follows them. */
  lemma {:induction false} CodesDecode(s: string, A: seq<nat>)
    requires Ascii(s)
    ensures NodeWords(Codes(s) + A, 0) == Prefix(s, NodeWords(A, 0))
    decreases |s|
  {
    if s == [] {
      assert Codes(s) + A == A;
      PrefixEmpty(NodeWords(A, 0));
    } else {
      var rest := Codes(s[1..]) + A;
      assert Codes(s) + A == [s[0] as nat] + rest;
      NodeWordsShift([s[0] as nat], rest, 0);
      assert Ascii(s[1..]) by {
        forall k | 0 <= k < |s| - 1 ensures s[1..][k] as nat < 0x80 {
          assert s[1..][k] == s[k + 1];
        }
      }
      CodesDecode(s[1..], A);
      PrefixPrefix([s[0]], s[1..], NodeWords(A, 0));
      assert [s[0]] + s[1..] == s;
    }
  }

  /** A return value ends the word. */
  lemma {:induction false} ReturnDecode(c: nat, A: seq<nat>)
    requires c < 0x20
    ensures NodeWords([c + 0x80] + A, 0) == {[c as char]}
  {
  }

  /** A byte with bit 7 set whose low bits are a character, and offsets after it. */
  lemma {:induction false} LastCharDecode(B: seq<nat>, c: nat, ds: seq<nat>)
    requires 0x20 <= c < 0x80 && B != [] && B[0] == c + 0x80 && ReadLinks(B, 1) == Some(ds)
    ensures NodeWords(B, 0) == Prefix([c as char], TargetWords(B, 1, 1, ds))
  {
    assert B[0] % 0x80 == c;
  }

  /** A last character with bit 7 set is followed by the node's offsets. */
  lemma {:induction false} EndDecode(c: nat, ds: seq<nat>, A: seq<nat>)
    requires 0x20 <= c < 0x80 && Valid(ds) && ds != []
    ensures NodeWords([c + 0x80] + Flagged(ds) + A, 0)
      == Prefix([c as char], TargetWords([c + 0x80] + Flagged(ds) + A, 1, 1, ds))
  {
    var F := Flagged(ds) + A;
    ReadFlagged(ds, A);
    ReadLinksShift([c + 0x80], F, 0);
    assert [c + 0x80] + Flagged(ds) + A == [c + 0x80] + F;
    LastCharDecode([c + 0x80] + F, c, ds);
  }

  // ---------------------------------------------------------------------------
  // Where the written nodes are

  /** Node `y`, recorded in `offsets`, starts `offsets[y]` bytes before the
      end of `A` and spells its words there. */
  ghost predicate Spot(ns: seq<Node>, A: seq<nat>, offsets: map<nat, nat>, y: nat) {
    Ordered(ns) && y < |ns| && y in offsets && 0 < offsets[y] <= |A|
    && NodeWords(A, |A| - offsets[y]) == Lang(ns, At(y))
  }

  /** Every node written so far spells its words in the reversed output. */
  ghost predicate Placed(ns: seq<Node>, offsets: map<nat, nat>, output: seq<nat>) {
    forall y :: y in offsets ==> Spot(ns, Rev(output), offsets, y)
  }

  /** Every child of the list is a node written so far. */
  ghost predicate Located(ns: seq<Node>, A: seq<nat>, cs: seq<Target>, offsets: map<nat, nat>) {
    forall c :: c in cs ==> c.At? && Spot(ns, A, offsets, c.index)
  }

  lemma {:induction false} SpotShift(ns: seq<Node>, P: seq<nat>, A: seq<nat>, offsets: map<nat, nat>, y: nat)
    requires Spot(ns, A, offsets, y)
    ensures Spot(ns, P + A, offsets, y)
  {
    NodeWordsShift(P, A, |A| - offsets[y]);
  }

  /** Writing more bytes keeps every written node where it is. */
  lemma {:induction false} PlacedGrow(ns: seq<Node>, offsets: map<nat, nat>, output: seq<nat>, added: seq<nat>)
    requires Placed(ns, offsets, output)
    ensures Placed(ns, offsets, output + added)
  {
    RevAppend(output, added);
    forall y | y in offsets ensures Spot(ns, Rev(output + added), offsets, y) {
      SpotShift(ns, Rev(added), Rev(output), offsets, y);
    }
  }

  /** The written children of a list are where their offsets say, in the
      reversed output behind any bytes `P`. */
  lemma {:induction false} PlacedLocated(ns: seq<Node>, offsets: map<nat, nat>, output: seq<nat>, P: seq<nat>, cs: seq<Target>)
    requires Placed(ns, offsets, output) && Keyed(cs, offsets)
    ensures Located(ns, P + Rev(output), cs, offsets)
  {
    forall c | c in cs ensures c.At? && Spot(ns, P + Rev(output), offsets, c.index) {
      SpotShift(ns, P, Rev(output), offsets, c.index);
    }
  }

  /** Offsets that lead from `pos` to the written children `cs` read as the
      words of the list. */
  lemma {:induction false} TargetsDecode(ns: seq<Node>, A: seq<nat>, lo: nat, pos: nat, cs: seq<Target>, offsets: map<nat, nat>, ds: seq<nat>)
    requires Ordered(ns) && AllBelow(cs, |ns|) && Keyed(cs, offsets)
    requires lo <= pos <= |A| && ds == Dists(cs, offsets, |A| - pos) && Valid(ds)
    requires Located(ns, A, cs, offsets)
    ensures TargetWords(A, lo, pos, ds) == LangOf(ns, cs)
    decreases |cs|
  {
    if cs != [] {
      assert cs[0] in cs;
      var o := offsets[cs[0].index];
      DistsTail(cs, offsets, |A| - pos, ds);
      var t := pos + ds[0];
      assert t == |A| - o;
      assert forall c :: c in cs[1..] ==> c in cs;
      TargetsDecode(ns, A, lo, t, cs[1..], offsets, ds[1..]);
      assert Spot(ns, A, offsets, cs[0].index);
    }
  }

  /** The first offset leads from `start` to the first child; the rest are
      the offsets of the other children, from there. */
  lemma {:induction false} DistsTail(cs: seq<Target>, offsets: map<nat, nat>, start: int, ds: seq<nat>)
    requires Keyed(cs, offsets) && cs != [] && ds == Dists(cs, offsets, start) && Valid(ds)
    ensures cs[0].At? && cs[0].index in offsets && ds[0] == start - offsets[cs[0].index]
    ensures ds[1..] == Dists(cs[1..], offsets, offsets[cs[0].index]) && Valid(ds[1..])
  {
    assert cs[0] in cs && forall c :: c in cs[1..] ==> c in cs;
    forall k | 0 <= k < |ds| - 1 ensures 0 < ds[1..][k] < Limit {
      assert ds[1..][k] == ds[k + 1];
    }
  }

  /** A list whose children all occur in another spells no word the other
      does not. */
  lemma {:induction false} LangOfWithin(ns: seq<Node>, as_: seq<Target>, bs: seq<Target>)
    requires Ordered(ns) && AllBelow(as_, |ns|) && AllBelow(bs, |ns|)
    requires forall c :: c in as_ ==> c in bs
    ensures LangOf(ns, as_) <= LangOf(ns, bs)
  {
    forall w | w in LangOf(ns, as_) ensures w in LangOf(ns, bs) {
      LangOfMember(ns, as_, w);
      LangOfMember(ns, bs, w);
      var j :| 0 <= j < |as_| && w in Lang(ns, as_[j]);
      assert as_[j] in bs;
      var k :| 0 <= k < |bs| && bs[k] == as_[j];
    }
  }

  /** Sorting keeps the children. */
  lemma {:induction false} SortedElems(cs: seq<Target>, offsets: map<nat, nat>)
    ensures forall c :: c in cs <==> c in SortDesc(cs, offsets)
  {
    var rs := SortDesc(cs, offsets);
    forall c | c in cs ensures c in rs {
      assert c in multiset(cs);
    }
  }

  /** Sorting a list of children keeps its words. */
  lemma {:induction false} LangOfSorted(ns: seq<Node>, cs: seq<Target>, offsets: map<nat, nat>)
    requires Ordered(ns) && AllBelow(cs, |ns|)
    ensures AllBelow(SortDesc(cs, offsets), |ns|)
    ensures LangOf(ns, SortDesc(cs, offsets)) == LangOf(ns, cs)
  {
    var rs := SortDesc(cs, offsets);
    SortedElems(cs, offsets);
    LangOfWithin(ns, rs, cs);
    LangOfWithin(ns, cs, rs);
  }

  // ---------------------------------------------------------------------------
  // Nodes

  /** A node that the grammar can spell: a non-empty label of seven-bit
      characters; children that are either the sink alone or nodes; and a
      last character that is a return value, below 0x20, exactly when the
      node ends the word. */
  predicate NodeEncodable(n: Node) {
    n.text != [] && Ascii(n.text) && n.children != []
    && (Sink in n.children ==> n.children == [Sink])
    && (n.text[|n.text| - 1] as nat < 0x20 <==> n.children == [Sink])
  }

  /** Node `x` is about to be written: it can be spelled, and every child is
      a written node. */
  ghost predicate Ready(ns: seq<Node>, x: nat, node: Node, offsets: map<nat, nat>, output: seq<nat>) {
    Ordered(ns) && x < |ns| && ns[x] == node && NodeEncodable(node)
    && Placed(ns, offsets, output)
    && forall c :: c in node.children && c.At? ==> c.index in offsets
  }

  /** A node written as a prefix of its one child, written just before it. */
  lemma {:induction false} PrefixNodeDecode(ns: seq<Node>, x: nat, offsets: map<nat, nat>, output: seq<nat>, prefix: seq<nat>)
    requires x < |ns| && Ready(ns, x, ns[x], offsets, output) && |ns[x].children| == 1 && ns[x].children[0].At?
    requires offsets[ns[x].children[0].index] == |output| && Rev(prefix) == Codes(ns[x].text)
    ensures NodeWords(Rev(output + prefix), 0) == Lang(ns, At(x))
  {
    var text, child, R := ns[x].text, ns[x].children[0], Rev(output);
    assert NodeWords(R, 0) == Lang(ns, child) by {
      assert child in ns[x].children;
      assert Spot(ns, R, offsets, child.index);
    }
    assert Rev(output + prefix) == Codes(text) + R by {
      RevAppend(output, prefix);
    }
    assert Lang(ns, At(x)) == Prefix(text, Lang(ns, child)) by {
      LangNode(ns, x);
      assert ns[x].children == [child];
      assert LangOf(ns, [child]) == Lang(ns, child) + LangOf(ns, []);
    }
    CodesDecode(text, R);
  }

  /** A label whose last character is a return value, written with bit 7 set
      on that character, spells the label alone. */
  lemma {:induction false} MarkedDecode(text: string, A: seq<nat>)
    requires text != [] && Ascii(text) && text[|text| - 1] as nat < 0x20
    ensures NodeWords(Marked(text) + A, 0) == {text}
  {
    var n := |text|;
    var init, c := text[..n - 1], text[n - 1] as nat;
    SplitLast(text);
    var B := [c + 0x80] + A;
    assert Marked(text) + A == Codes(init) + B;
    assert NodeWords(B, 0) == {[c as char]} by {
      ReturnDecode(c, A);
    }
    CodesDecode(init, B);
    assert Prefix(init, {[c as char]}) == {text} by {
      assert init + [c as char] == text;
    }
  }

  /** A node whose only child is the sink spells its label alone. */
  lemma {:induction false} EndLang(ns: seq<Node>, x: nat)
    requires Ordered(ns) && x < |ns| && ns[x].children == [Sink]
    ensures Lang(ns, At(x)) == {ns[x].text}
  {
    LangNode(ns, x);
    assert LangOf(ns, [Sink]) == {""};
    assert ns[x].text + "" == ns[x].text;
  }

  /** A node that ends the word: its label, the last character a return value. */
  lemma {:induction false} EndNodeDecode(ns: seq<Node>, x: nat, offsets: map<nat, nat>, output: seq<nat>, written: seq<nat>)
    requires x < |ns| && Ready(ns, x, ns[x], offsets, output) && ns[x].children == [Sink]
    requires Rev(written) == Marked(ns[x].text)
    ensures NodeWords(Rev(output + [] + written), 0) == Lang(ns, At(x))
  {
    assert Rev(output + [] + written) == Marked(ns[x].text) + Rev(output) by {
      assert output + [] == output;
      RevAppend(output, written);
    }
    MarkedDecode(ns[x].text, Rev(output));
    EndLang(ns, x);
  }

  /** A label split at its last character. */
  lemma {:induction false} SplitLast(text: string)
    requires text != [] && Ascii(text)
    ensures Ascii(text[..|text| - 1]) && text[..|text| - 1] + [text[|text| - 1]] == text
  {
    var init := text[..|text| - 1];
    forall k | 0 <= k < |init| ensures init[k] as nat < 0x80 {
      assert init[k] == text[k];
    }
  }

  /** The last character of a label, with bit 7 set, followed by the marked
      offsets of the written children `cs`: the character followed by a word
      of one of the children. */
  lemma {:induction false} OffsetsDecode(ns: seq<Node>, cs: seq<Target>, offsets: map<nat, nat>, c: nat, ds: seq<nat>, R: seq<nat>)
    requires Ordered(ns) && AllBelow(cs, |ns|) && Keyed(cs, offsets)
    requires 0x20 <= c < 0x80 && Valid(ds) && ds != [] && ds == Dists(cs, offsets, |Flagged(ds)| + |R|)
    requires Located(ns, [c + 0x80] + Flagged(ds) + R, cs, offsets)
    ensures NodeWords([c + 0x80] + Flagged(ds) + R, 0) == Prefix([c as char], LangOf(ns, cs))
  {
    ChildrenAfter(ns, cs, offsets, [c + 0x80], ds, R, |Flagged(ds)| + |R|);
    EndDecode(c, ds, R);
  }

  /** The marked offsets of the written children `cs`, after one byte: the
      words of the children. */
  lemma {:induction false} ChildrenAfter(ns: seq<Node>, cs: seq<Target>, offsets: map<nat, nat>, P: seq<nat>, ds: seq<nat>, R: seq<nat>, start: nat)
    requires Ordered(ns) && AllBelow(cs, |ns|) && Keyed(cs, offsets) && |P| == 1
    requires Valid(ds) && ds != [] && ds == Dists(cs, offsets, start) && start == |Flagged(ds)| + |R|
    requires Located(ns, P + Flagged(ds) + R, cs, offsets)
    ensures TargetWords(P + Flagged(ds) + R, 1, 1, ds) == LangOf(ns, cs)
  {
    ChildrenDecode(ns, cs, offsets, P + Flagged(ds) + R, ds, start);
  }

  /** The marked offsets of the written children `cs`, read from the second
      byte of `A`: the words of the children. */
  lemma {:induction false} ChildrenDecode(ns: seq<Node>, cs: seq<Target>, offsets: map<nat, nat>, A: seq<nat>, ds: seq<nat>, start: nat)
    requires Ordered(ns) && AllBelow(cs, |ns|) && Keyed(cs, offsets)
    requires Valid(ds) && ds == Dists(cs, offsets, start) && start == |A| - 1
    requires Located(ns, A, cs, offsets)
    ensures TargetWords(A, 1, 1, ds) == LangOf(ns, cs)
  {
    TargetsDecode(ns, A, 1, 1, cs, offsets, ds);
  }

  /** The bytes of a node written as links and label, read from the front. */
  lemma {:induction false} LinksLayout(output: seq<nat>, links: seq<nat>, written: seq<nat>, init: string, c: nat, F: seq<nat>)
    requires Rev(links) == F && Rev(written) == Codes(init) + [c + 0x80]
    ensures Rev(output + links + written) == Codes(init) + ([c + 0x80] + F + Rev(output))
  {
    RevAppend(output, links);
    RevAppend(output + links, written);
  }

  /** A node written as its offsets followed by its label. */
  lemma {:induction false} LinksNodeDecode(ns: seq<Node>, x: nat, offsets: map<nat, nat>, output: seq<nat>, links: seq<nat>, written: seq<nat>)
    requires x < |ns| && Ready(ns, x, ns[x], offsets, output) && ns[x].children != [Sink]
    requires Encoded(ns[x].children, offsets, |output|, links)
    requires Rev(written) == Marked(ns[x].text)
    ensures NodeWords(Rev(output + links + written), 0) == Lang(ns, At(x))
  {
    var text, children := ns[x].text, ns[x].children;
    var n := |text|;
    var init, c := text[..n - 1], text[n - 1] as nat;
    SplitLast(text);
    var cs := SortDesc(children, offsets);
    var ds := EncodedFlagged(children, offsets, |output|, links);
    var A := [c + 0x80] + Flagged(ds) + Rev(output);
    LinksLayout(output, links, written, init, c, Flagged(ds));
    assert NodeWords(A, 0) == Prefix([c as char], LangOf(ns, children)) by {
      assert Located(ns, A, cs, offsets) by {
        PlacedLocated(ns, offsets, output, [c + 0x80] + Flagged(ds), cs);
      }
      assert AllBelow(children, |ns|);
      LangOfSorted(ns, children, offsets);
      OffsetsDecode(ns, cs, offsets, c, ds, Rev(output));
    }
    assert Lang(ns, At(x)) == Prefix(init, Prefix([c as char], LangOf(ns, children))) by {
      LangNode(ns, x);
      PrefixPrefix(init, [c as char], LangOf(ns, children));
    }
    CodesDecode(init, A);
  }

  /** The bytes of the final array, read from the front: the source's links,
      then everything written before them. */
  lemma {:induction false} SourceLayout(output: seq<nat>, links: seq<nat>, F: seq<nat>)
    requires Rev(links) == F
    ensures Rev(output + links) == F + Rev(output)
  {
    RevAppend(output, links);
  }

  lemma {:induction false} Extends(output: seq<nat>, links: seq<nat>, written: seq<nat>)
    ensures (output + links + written)[..|output|] == output
  {
    assert output + links + written == output + (links + written);
  }

  /** The most bytes a node can take: its label, and three bytes for
      each child. */
  function Cost(n: Node): nat {
    |n.text| + 3 * |n.children|
  }

  /** The links of `node`, written after `current` bytes, are in range
      whatever length they settle on. An end node has no links. */
  ghost predicate Fit(node: Node, offsets: map<nat, nat>, current: nat) {
    node.children != [Sink] ==> Keyed(node.children, offsets) && InRange(SortDesc(node.children, offsets), offsets, current)
  }

  /** A node ready to be written has a label, and children that are either
      the sink alone or written nodes. */
  lemma {:induction false} ReadyKeyed(ns: seq<Node>, x: nat, node: Node, offsets: map<nat, nat>, output: seq<nat>)
    requires Ready(ns, x, node, offsets, output)
    ensures node.text != [] && node.children != []
    ensures node.children != [Sink] ==> node.children[0] != Sink && Keyed(node.children, offsets)
  {
    if node.children != [Sink] {
      assert node.children[0] in node.children;
    }
  }

  /** The general case of a round of the loop of `encode`: the node's
      links, then its label. */
  method EncodeLinked(node: Node, offsets: map<nat, nat>, output: seq<nat>, ghost ns: seq<Node>, ghost x: nat) returns (res: Result<seq<nat>>)
    ensures res.Ok? ==> |output| < |res.value| <= |output| + Cost(node) && res.value[..|output|] == output
    ensures Ready(ns, x, node, offsets, output) && Fit(node, offsets, |output|) ==> res.Ok?
    ensures Ready(ns, x, node, offsets, output) ==>
      if res.Ok? then NodeWords(Rev(res.value), 0) == Lang(ns, At(x)) else res.error == AssertionError
  {
    if Ready(ns, x, node, offsets, output) {
      ReadyKeyed(ns, x, node, offsets, output);
    }
    var links := EncodeLinks(node.children, offsets, |output|);
    if links.Err? {
      return Err(links.error);
    }
    var written := EncodeLabel(node.text);
    if written.Err? {
      return Err(written.error);
    }
    if Ready(ns, x, node, offsets, output) {
      EncodeLabelMarked(node.text);
      if node.children == [Sink] {
        EndNodeDecode(ns, x, offsets, output, written.value);
      } else {
        LinksNodeDecode(ns, x, offsets, output, links.value, written.value);
      }
    }
    if node.children != [Sink] {
      EncodedSize(node.children, offsets, |output|, links.value);
    }
    Extends(output, links.value, written.value);
    return Ok(output + links.value + written.value);
  }

  /** One round of the loop of `encode`: the output with node `node`
      written, as a prefix of its only child when that child was the last
      one written, otherwise as its links followed by its label. The new
      output extends the old one by at most the node's cost. When the node
      is `ns[x]`, the grammar can spell it and its children are written,
      the new output, reversed, spells the node's words from its first
      byte, and the only error left is a distance out of range; there is
      none when the node's links are in range whatever length they settle
      on. */
  method EncodeNode(node: Node, offsets: map<nat, nat>, output: seq<nat>, ghost ns: seq<Node>, ghost x: nat) returns (res: Result<seq<nat>>)
    ensures res.Ok? ==> |output| < |res.value| <= |output| + Cost(node) && res.value[..|output|] == output
    ensures Ready(ns, x, node, offsets, output) && Fit(node, offsets, |output|) ==> res.Ok?
    ensures Ready(ns, x, node, offsets, output) ==>
      if res.Ok? then NodeWords(Rev(res.value), 0) == Lang(ns, At(x)) else res.error == AssertionError
  {
    if |node.children| == 1 && node.children[0].At? {
      var child := node.children[0].index;
      if child !in offsets {
        return Err(KeyError);
      }
      if offsets[child] == |output| {
        var prefix := EncodePrefix(node.text);
        if prefix.Err? {
          return Err(prefix.error);
        }
        if Ready(ns, x, node, offsets, output) {
          PrefixNodeDecode(ns, x, offsets, output, prefix.value);
        }
        return Ok(output + prefix.value);
      }
    }
    res := EncodeLinked(node, offsets, output, ns, x);
  }

  // ---------------------------------------------------------------------------
  // The whole DAFSA

  /** A DAFSA the grammar can spell: a non-empty source list of distinct
      nodes, and reachable nodes that the grammar can spell. */
  ghost predicate Encodable(g: Graph) {
    WellFormed(g) && g.source != [] && Sink !in g.source && Distinct(g.source)
    && forall x :: x in ReachSet(g) ==> x < |g.nodes| && NodeEncodable(g.nodes[x])
  }

  /** The loop of `encode` has written the nodes `order[i..]`, and each of
      them spells its words in the reversed output. */
  ghost predicate Progress(g: Graph, order: seq<nat>, i: nat, offsets: map<nat, nat>, output: seq<nat>) {
    Encodable(g) && TopOrder(g, order) && i <= |order|
    && (forall y :: y in offsets <==> y in order[i..])
    && Placed(g.nodes, offsets, output)
  }

  /** The children of a node come after it in a topological order, so they
      are written before it. */
  lemma {:induction false} ChildrenPlaced(g: Graph, order: seq<nat>, i: nat, offsets: map<nat, nat>)
    requires WellFormed(g) && TopOrder(g, order) && i < |order| && order[i] < |g.nodes|
    requires forall y :: y in offsets <==> y in order[i + 1..]
    ensures forall c :: c in g.nodes[order[i]].children && c.At? ==> c.index in offsets
  {
    var x := order[i];
    assert x in order;
    forall c | c in g.nodes[x].children && c.At? ensures c.index in offsets {
      ChildReachable(g, x, c.index);
      ReachableInArena(g, c.index);
      assert c.index in ReachSet(g);
      var j :| 0 <= j < |order| && order[j] == c.index;
      assert i < j;
      assert order[i + 1..][j - i - 1] == order[j];
    }
  }

  /** The next node of the loop is ready to be written. */
  lemma {:induction false} ReadyNext(g: Graph, order: seq<nat>, i: nat, offsets: map<nat, nat>, output: seq<nat>)
    requires i < |order| && Progress(g, order, i + 1, offsets, output)
    ensures order[i] < |g.nodes| && Ready(g.nodes, order[i], g.nodes[order[i]], offsets, output)
  {
    assert order[i] in order;
    ChildrenPlaced(g, order, i, offsets);
  }

  lemma {:induction false} SpotRebind(ns: seq<Node>, A: seq<nat>, offsets: map<nat, nat>, offsets': map<nat, nat>, y: nat)
    requires Spot(ns, A, offsets, y) && y in offsets' && offsets'[y] == offsets[y]
    ensures Spot(ns, A, offsets', y)
  {
  }

  /** Recording a newly written node, which spells its words from the
      front of the reversed output, keeps every written node in place. */
  lemma {:induction false} PlacedStep(ns: seq<Node>, offsets: map<nat, nat>, output: seq<nat>, output': seq<nat>, x: nat)
    requires Ordered(ns) && x < |ns| && Placed(ns, offsets, output)
    requires |output| < |output'| && output'[..|output|] == output
    requires NodeWords(Rev(output'), 0) == Lang(ns, At(x))
    ensures Placed(ns, offsets[x := |output'|], output')
  {
    var offsets' := offsets[x := |output'|];
    assert Placed(ns, offsets, output') by {
      assert output' == output + output'[|output|..];
      PlacedGrow(ns, offsets, output, output'[|output|..]);
    }
    var A := Rev(output');
    assert |A| == |output'|;
    forall y | y in offsets' ensures Spot(ns, A, offsets', y) {
      if y != x {
        SpotRebind(ns, A, offsets, offsets', y);
      }
    }
  }

  /** Writing the next node keeps the loop's progress. */
  lemma {:induction false} ProgressStep(g: Graph, order: seq<nat>, i: nat, offsets: map<nat, nat>, output: seq<nat>, output': seq<nat>)
    requires i < |order| && Progress(g, order, i + 1, offsets, output)
    requires |output| < |output'| && output'[..|output|] == output
    requires order[i] < |g.nodes| && NodeWords(Rev(output'), 0) == Lang(g.nodes, At(order[i]))
    ensures Progress(g, order, i, offsets[order[i] := |output'|], output')
  {
    assert order[i..] == [order[i]] + order[i + 1..];
    PlacedStep(g.nodes, offsets, output, output', order[i]);
  }

  /** After the loop every node of the source list is written. */
  lemma {:induction false} SourceKeyed(g: Graph, order: seq<nat>, offsets: map<nat, nat>, output: seq<nat>)
    requires Progress(g, order, 0, offsets, output)
    ensures Keyed(g.source, offsets)
  {
    forall t | t in g.source ensures t.At? && t.index in offsets {
      assert Below(t, |g.nodes|);
      assert t.index in ReachSet(g);
      assert order[0..] == order;
    }
  }

  /** The marked offsets of the written source list, read from the front of
      the array: the words of the list. */
  lemma {:induction false} SourceTargets(ns: seq<Node>, cs: seq<Target>, offsets: map<nat, nat>, ds: seq<nat>, R: seq<nat>)
    requires Ordered(ns) && AllBelow(cs, |ns|) && Keyed(cs, offsets)
    requires Valid(ds) && ds != [] && ds == Dists(cs, offsets, |Flagged(ds)| + |R|)
    requires Located(ns, Flagged(ds) + R, cs, offsets)
    ensures DafsaWords(Flagged(ds) + R) == LangOf(ns, cs)
  {
    var A := Flagged(ds) + R;
    ReadFlagged(ds, R);
    assert ds == Dists(cs, offsets, |A| - 0) by {
      assert |A| - 0 == |Flagged(ds)| + |R|;
    }
    TargetsDecode(ns, A, 0, 0, cs, offsets, ds);
  }

  /** Links written for the list `cs` after the nodes, read from the front of
      the reversed array: the words of the list. */
  lemma {:induction false} ListDecode(ns: seq<Node>, cs: seq<Target>, offsets: map<nat, nat>, output: seq<nat>, links: seq<nat>)
    requires Ordered(ns) && AllBelow(cs, |ns|) && Keyed(cs, offsets)
    requires Written(cs, offsets, |output|, links) && Placed(ns, offsets, output)
    ensures DafsaWords(Rev(output + links)) == LangOf(ns, cs)
  {
    var ds := Dists(cs, offsets, |output| + |links|);
    var F, R := Flagged(ds), Rev(output);
    assert Rev(links) == F by { RevRev(F); }
    assert |F| + |R| == |output| + |links| by {
      assert |Rev(links)| == |links|;
      assert |Rev(output)| == |output|;
    }
    PlacedLocated(ns, offsets, output, F, cs);
    SourceLayout(output, links, F);
    SourceTargets(ns, cs, offsets, ds, R);
  }

  /** The finished array spells the words of the DAFSA. */
  lemma {:induction false} SourceDecode(g: Graph, offsets: map<nat, nat>, output: seq<nat>, links: seq<nat>)
    requires WellFormed(g) && Placed(g.nodes, offsets, output)
    requires Keyed(g.source, offsets) && Encoded(g.source, offsets, |output|, links)
    ensures DafsaWords(Rev(output + links)) == Words(g)
  {
    var cs := SortDesc(g.source, offsets);
    LangOfSorted(g.nodes, g.source, offsets);
    ListDecode(g.nodes, cs, offsets, output, links);
  }

  // ---------------------------------------------------------------------------
  // When every distance is in range

  /** The most bytes the nodes of `written` below `n` can take. */
  function Weight(ns: seq<Node>, written: set<nat>, n: nat): nat
    requires n <= |ns|
  {
    if n == 0 then 0 else Weight(ns, written, n - 1) + (if n - 1 in written then Cost(ns[n - 1]) else 0)
  }

  /** The most bytes the whole arena can take. */
  function Size(ns: seq<Node>): nat {
    if ns == [] then 0 else Size(ns[..|ns| - 1]) + Cost(ns[|ns| - 1])
  }

  /** Writing one more node adds its cost. */
  lemma {:induction false} WeightAdd(ns: seq<Node>, written: set<nat>, x: nat, n: nat)
    requires n <= |ns| && x !in written
    ensures Weight(ns, written + {x}, n) == Weight(ns, written, n) + if x < n then Cost(ns[x]) else 0
  {
    if n > 0 {
      WeightAdd(ns, written, x, n - 1);
    }
  }

  /** The written nodes take at most what the arena can. */
  lemma {:induction false} WeightBound(ns: seq<Node>, written: set<nat>, n: nat)
    requires n <= |ns|
    ensures Weight(ns, written, n) <= Size(ns[..n])
  {
    if n > 0 {
      WeightBound(ns, written, n - 1);
      assert ns[..n][..n - 1] == ns[..n - 1];
    }
  }

  /** A DAFSA whose links always fit in three bytes: the children of each
      reachable node are distinct, and the whole arena with the links of
      the source list takes fewer bytes than the largest distance. */
  ghost predicate Compact(g: Graph) {
    (forall x :: x in ReachSet(g) && x < |g.nodes| ==> Distinct(g.nodes[x].children))
    && Size(g.nodes) + 3 * |g.source| < Limit
  }

  /** The written nodes sit at distinct offsets, none past the end of the
      output, and the output is no longer than their costs. */
  ghost predicate Tight(ns: seq<Node>, offsets: map<nat, nat>, output: seq<nat>) {
    Injective(offsets) && (forall y :: y in offsets ==> y < |ns| && offsets[y] <= |output|)
    && |output| <= Weight(ns, offsets.Keys, |ns|)
  }

  /** Recording a node written at the end of the output keeps it tight. */
  lemma {:induction false} TightStep(ns: seq<Node>, offsets: map<nat, nat>, output: seq<nat>, output': seq<nat>, x: nat)
    requires Tight(ns, offsets, output) && x < |ns| && x !in offsets
    requires |output| < |output'| <= |output| + Cost(ns[x])
    ensures Tight(ns, offsets[x := |output'|], output')
  {
    var offsets' := offsets[x := |output'|];
    assert offsets'.Keys == offsets.Keys + {x};
    WeightAdd(ns, offsets.Keys, x, |ns|);
  }

  /** The node the loop writes next has not been written. */
  lemma {:induction false} Unwritten(g: Graph, order: seq<nat>, i: nat, offsets: map<nat, nat>)
    requires TopOrder(g, order) && i < |order|
    requires forall y :: y in offsets <==> y in order[i + 1..]
    ensures order[i] !in offsets
  {
  }

  /** In a compact DAFSA the links of the node the loop writes next are in
      range. */
  lemma {:induction false} TightFit(g: Graph, order: seq<nat>, i: nat, offsets: map<nat, nat>, output: seq<nat>)
    requires i < |order| && Progress(g, order, i + 1, offsets, output)
    requires Tight(g.nodes, offsets, output) && Compact(g)
    ensures order[i] < |g.nodes| && Fit(g.nodes[order[i]], offsets, |output|)
  {
    var x := order[i];
    ReadyNext(g, order, i, offsets, output);
    var node := g.nodes[x];
    ReadyKeyed(g.nodes, x, node, offsets, output);
    if node.children != [Sink] {
      assert x in order;
      Unwritten(g, order, i, offsets);
      WeightAdd(g.nodes, offsets.Keys, x, |g.nodes|);
      WeightBound(g.nodes, offsets.Keys + {x}, |g.nodes|);
      assert g.nodes[..|g.nodes|] == g.nodes;
      InRangeOf(node.children, offsets, |output|);
    }
  }

  /** In a compact DAFSA the links of the source list are in range. */
  lemma {:induction false} TightSource(g: Graph, order: seq<nat>, offsets: map<nat, nat>, output: seq<nat>)
    requires Progress(g, order, 0, offsets, output) && Tight(g.nodes, offsets, output) && Compact(g)
    ensures Keyed(g.source, offsets) && InRange(SortDesc(g.source, offsets), offsets, |output|)
  {
    SourceKeyed(g, order, offsets, output);
    WeightBound(g.nodes, offsets.Keys, |g.nodes|);
    assert g.nodes[..|g.nodes|] == g.nodes;
    InRangeOf(g.source, offsets, |output|);
  }

  /** `encode(dafsa)`. A sink in the source list is a KeyError, as in
      `top_sort`. For a DAFSA the grammar can spell, the only error left is a
      distance out of range, and the array spells exactly the DAFSA's words.
      A compact DAFSA has no distance out of range, so it is always
      encoded. */
  method Encode(g: Graph) returns (res: Result<seq<nat>>)
    requires WellFormed(g)
    ensures Sink in g.source ==> res == Err(KeyError)
    ensures Encodable(g) ==> res.Ok? || res == Err(AssertionError)
    ensures Encodable(g) && res.Ok? ==> DafsaWords(res.value) == Words(g)
    ensures Encodable(g) && Compact(g) ==> res.Ok?
  {
    var sorted := TopSort(g);
    if sorted.Err? {
      return Err(sorted.error);
    }
    var order := sorted.value;
    assert forall y :: y in order ==> y < |g.nodes|;
    ghost var good := Encodable(g);
    ghost var compact := good && Compact(g);
    var output: seq<nat> := [];
    var offsets: map<nat, nat> := map[];
    var i := |order|;
    while i > 0
      invariant 0 <= i <= |order|
      invariant good ==> Progress(g, order, i, offsets, output) && Tight(g.nodes, offsets, output)
    {
      i := i - 1;
      assert order[i] in order;
      var x := order[i];
      if good {
        ReadyNext(g, order, i, offsets, output);
        Unwritten(g, order, i, offsets);
      }
      if compact {
        TightFit(g, order, i, offsets, output);
      }
      var step := EncodeNode(g.nodes[x], offsets, output, g.nodes, x);
      if step.Err? {
        return Err(step.error);
      }
      if good {
        ProgressStep(g, order, i, offsets, output, step.value);
        TightStep(g.nodes, offsets, output, step.value, x);
      }
      output := step.value;
      offsets := offsets[x := |output|];
    }
    if good {
      SourceKeyed(g, order, offsets, output);
    }
    if compact {
      TightSource(g, order, offsets, output);
    }
    var links := EncodeLinks(g.source, offsets, |output|);
    if links.Err? {
      return Err(links.error);
    }
    if good {
      SourceDecode(g, offsets, output, links.value);
    }
    return Ok(Rev(output + links.value));
  }

  /** The array of the first example in the description of the format
      spells the two words of its input, each followed by its value. */
  lemma {:induction false} ExampleDecode()
    ensures DafsaWords([0x81, 0xE1, 0x02, 0x81, 0x82, 0x61, 0x81]) == {"aa\U{1}", "a\U{2}"}
  {
    var A: seq<nat> := [0x81, 0xE1, 0x02, 0x81, 0x82, 0x61, 0x81];
    assert ReadLinks(A, 0) == Some([1]);
    assert ReadLinks(A, 3) == Some([1]);
    assert ReadLinks(A, 2) == Some([2, 1]) by {
      assert ReadLink(A, 2) == Some(Link(2, 1, false));
      assert [2] + [1] == [2, 1];
    }
    assert NodeWords(A, 6) == {"\U{1}"} by {
      assert A[6] % 0x80 == 1;
    }
    assert NodeWords(A, 5) == {"a\U{1}"} by {
      assert A[5] == 0x61;
      assert "a" + "\U{1}" == "a\U{1}";
    }
    assert NodeWords(A, 4) == {"\U{2}"} by {
      assert A[4] % 0x80 == 2;
    }
    assert TargetWords(A, 2, 2, [2, 1]) == {"\U{2}", "a\U{1}"} by {
      assert [2, 1][1..] == [1];
      assert TargetWords(A, 2, 4, [1]) == NodeWords(A, 5) + TargetWords(A, 2, 5, []);
    }
    assert Prefix("a", {"\U{2}", "a\U{1}"}) == {"a\U{2}", "aa\U{1}"} by {
      assert "a" + "\U{2}" == "a\U{2}";
      assert "a" + "a\U{1}" == "aa\U{1}";
    }
    assert NodeWords(A, 1) == {"a\U{2}", "aa\U{1}"} by {
      assert A[1] % 0x80 == 0x61 && [0x61 as char] == "a";
      assert NodeWords(A, 1) == Prefix("a", TargetWords(A, 2, 2, [2, 1]));
    }
  }
}
