/**
 * `reverse`: the graph with every edge turned round, so that the old sink
 * becomes the new source and every word is spelled backwards.
 *
 * The Python function walks the graph depth-first from the source. The first
 * visit to a node creates its reverse node, with the reversed label and the
 * visiting parent as its only child, and then walks on into the node's
 * children. A later visit only appends the visiting parent to the reverse
 * node's child list. A visit to the sink appends the parent to the new
 * source list. Here the reverse node of old node `x` lives at slot
 * `n - 1 - x` of a new arena of the same size. Since parents sit above their
 * children in the old arena, the new arena is ordered again. Slots of nodes
 * the walk never reaches keep an empty placeholder.
 */
module DafsaReverse {
  import opened DafsaGraph
  import opened DafsaPaths

  /** How many times the node mirrored by `y` lists `c`, if the mirrored node
      is in `s` (and 0 otherwise). */
  function Back(g: Graph, s: set<nat>, y: Target, c: Target): nat {
    var n := |g.nodes|;
    if y.At? && y.index < n && n - 1 - y.index in s
    then Count(g.nodes[n - 1 - y.index].children, c)
    else 0
  }

  /** `h` is the reverse of `g` over the nodes `r`: slot `n - 1 - x` holds the
      reverse of each `x` in `r`, and lists each parent of `x` in `r` once per
      time that parent lists `x` (and the sink once per time `x` is in the
      source); the new source lists each node of `r` once per time it lists
      the old sink (and the sink as often as the old source does). */
  ghost predicate Mirrors(g: Graph, h: Graph, r: set<nat>) {
    var n := |g.nodes|;
    WellFormed(h) && |h.nodes| == n
    && (forall s :: 0 <= s < n ==>
          if n - 1 - s in r then h.nodes[s].text == Rev(g.nodes[n - 1 - s].text)
          else h.nodes[s] == Node("", []))
    && (forall s, y :: 0 <= s < n ==>
          Count(h.nodes[s].children, y)
          == (if y == Sink then Count(g.source, At(n - 1 - s)) else 0) + Back(g, r, y, At(n - 1 - s)))
    && (forall y :: Count(h.source, y) == (if y == Sink then Count(g.source, Sink) else 0) + Back(g, r, y, Sink))
  }

  // ---------------------------------------------------------------------------
  // The words of a reversed graph

  lemma {:induction false} MirrorEdge(g: Graph, h: Graph, r: set<nat>, x: nat, p: nat)
    requires WellFormed(g) && Mirrors(g, h, r) && x < |g.nodes| && p < |g.nodes|
    ensures At(|g.nodes| - 1 - p) in h.nodes[|g.nodes| - 1 - x].children
            <==> p in r && At(x) in g.nodes[p].children
  {
    var n := |g.nodes|;
    assert Count(h.nodes[n - 1 - x].children, At(n - 1 - p)) == Back(g, r, At(n - 1 - p), At(x));
  }

  lemma {:induction false} MirrorSinkEdge(g: Graph, h: Graph, r: set<nat>, x: nat)
    requires WellFormed(g) && Mirrors(g, h, r) && x < |g.nodes|
    ensures Sink in h.nodes[|g.nodes| - 1 - x].children <==> At(x) in g.source
  {
    var n := |g.nodes|;
    assert Count(h.nodes[n - 1 - x].children, Sink) == Count(g.source, At(x)) + Back(g, r, Sink, At(x));
  }

  lemma {:induction false} MirrorSourceEdge(g: Graph, h: Graph, r: set<nat>, p: nat)
    requires WellFormed(g) && Mirrors(g, h, r) && p < |g.nodes|
    ensures At(|g.nodes| - 1 - p) in h.source <==> p in r && Sink in g.nodes[p].children
  {
    var n := |g.nodes|;
    assert Count(h.source, At(n - 1 - p)) == Back(g, r, At(n - 1 - p), Sink);
  }

  lemma {:induction false} MirrorSourceSink(g: Graph, h: Graph, r: set<nat>)
    requires WellFormed(g) && Mirrors(g, h, r)
    ensures Sink in h.source <==> Sink in g.source
  {
    assert Count(h.source, Sink) == Count(g.source, Sink) + Back(g, r, Sink, Sink);
  }

  lemma {:induction false} MirrorText(g: Graph, h: Graph, r: set<nat>, x: nat)
    requires WellFormed(g) && Mirrors(g, h, r) && x in r && x < |g.nodes|
    ensures h.nodes[|g.nodes| - 1 - x].text == Rev(g.nodes[x].text)
  {
    var n := |g.nodes|;
    assert n - 1 - (n - 1 - x) == x;
  }

  /** A path turned round, with each node replaced by its mirror slot. */
  function Flip(n: nat, p: seq<nat>): (q: seq<nat>)
    requires forall j :: 0 <= j < |p| ==> p[j] < n
    ensures |q| == |p| && forall j :: 0 <= j < |p| ==> q[j] == n - 1 - p[|p| - 1 - j] && q[j] < n
  {
    seq(|p|, j requires 0 <= j < |p| => n - 1 - p[|p| - 1 - j])
  }

  lemma {:induction false} FlipCons(n: nat, p: seq<nat>)
    requires p != [] && forall j :: 0 <= j < |p| ==> p[j] < n
    ensures Flip(n, p) == Flip(n, p[1..]) + [n - 1 - p[0]]
  {
    var a, b := Flip(n, p), Flip(n, p[1..]) + [n - 1 - p[0]];
    forall j | 0 <= j < |a| ensures a[j] == b[j] {
      if j < |p| - 1 {
        assert p[1..][|p| - 2 - j] == p[|p| - 1 - j];
      }
    }
  }

  /** The mirrored path spells the word of the path backwards. */
  lemma {:induction false} FlipSpell(ns: seq<Node>, ms: seq<Node>, p: seq<nat>)
    requires InArena(ns, p) && |ms| == |ns|
    requires forall j :: 0 <= j < |p| ==> ms[|ns| - 1 - p[j]].text == Rev(ns[p[j]].text)
    ensures InArena(ms, Flip(|ns|, p)) && Spell(ms, Flip(|ns|, p)) == Rev(Spell(ns, p))
    decreases |p|
  {
    var n := |ns|;
    if p != [] {
      var r := p[1..];
      assert forall j :: 0 <= j < |r| ==> r[j] == p[j + 1];
      FlipSpell(ns, ms, r);
      FlipCons(n, p);
      SpellAppend(ms, Flip(n, r), n - 1 - p[0]);
      RevAppend(ns[p[0]].text, Spell(ns, r));
    }
  }

  /** Every node of a path from the source lies in a closed set. */
  lemma {:induction false} ChainClosed(g: Graph, r: set<nat>, p: seq<nat>, j: nat)
    requires Closed(g, r) && Chain(g.nodes, p) && At(p[0]) in g.source && j < |p|
    ensures p[j] in r
  {
    if j > 0 {
      ChainClosed(g, r, p, j - 1);
    }
  }

  lemma {:induction false} MirrorChainSource(g: Graph, h: Graph, r: set<nat>, p: seq<nat>)
    requires WellFormed(g) && Closed(g, r) && Mirrors(g, h, r) && Chain(g.nodes, p) && At(p[0]) in g.source
    ensures At(Flip(|g.nodes|, p)[0]) in h.source
  {
    ChainClosed(g, r, p, |p| - 1);
    MirrorSourceEdge(g, h, r, p[|p| - 1]);
  }

  lemma {:induction false} MirrorChainEdges(g: Graph, h: Graph, r: set<nat>, p: seq<nat>)
    requires WellFormed(g) && Closed(g, r) && Mirrors(g, h, r) && Chain(g.nodes, p) && At(p[0]) in g.source
    ensures forall j :: 0 <= j < |p| - 1 ==> At(Flip(|g.nodes|, p)[j + 1]) in h.nodes[Flip(|g.nodes|, p)[j]].children
  {
    var k := |p|;
    forall j | 0 <= j < k - 1 ensures At(Flip(|g.nodes|, p)[j + 1]) in h.nodes[Flip(|g.nodes|, p)[j]].children {
      ChainClosed(g, r, p, k - 2 - j);
      MirrorEdge(g, h, r, p[k - 1 - j], p[k - 2 - j]);
    }
  }

  lemma {:induction false} MirrorChainSpell(g: Graph, h: Graph, r: set<nat>, p: seq<nat>)
    requires WellFormed(g) && Closed(g, r) && Mirrors(g, h, r) && Chain(g.nodes, p) && At(p[0]) in g.source
    ensures InArena(h.nodes, Flip(|g.nodes|, p)) && Spell(h.nodes, Flip(|g.nodes|, p)) == Rev(Spell(g.nodes, p))
  {
    var n := |g.nodes|;
    forall j | 0 <= j < |p| ensures h.nodes[n - 1 - p[j]].text == Rev(g.nodes[p[j]].text) {
      ChainClosed(g, r, p, j);
      MirrorText(g, h, r, p[j]);
    }
    FlipSpell(g.nodes, h.nodes, p);
  }

  /** A path of `g` from the source, turned round, is a path of `h` from its source. */
  lemma {:induction false} MirrorChain(g: Graph, h: Graph, r: set<nat>, p: seq<nat>)
    requires WellFormed(g) && Closed(g, r) && Mirrors(g, h, r) && Chain(g.nodes, p) && At(p[0]) in g.source
    ensures Chain(h.nodes, Flip(|g.nodes|, p)) && At(Flip(|g.nodes|, p)[0]) in h.source
    ensures Spell(h.nodes, Flip(|g.nodes|, p)) == Rev(Spell(g.nodes, p))
  {
    MirrorChainSource(g, h, r, p);
    MirrorChainEdges(g, h, r, p);
    MirrorChainSpell(g, h, r, p);
    MirrorSinkEdge(g, h, r, p[0]);
  }

  /** Along a path of `h` from its source, every slot mirrors a node of `r`,
      and each next slot mirrors a parent of the node before. */
  lemma {:induction false} MirrorBackStep(g: Graph, h: Graph, r: set<nat>, q: seq<nat>, j: nat)
    requires WellFormed(g) && Mirrors(g, h, r) && Chain(h.nodes, q) && At(q[0]) in h.source && j < |q|
    ensures q[j] < |g.nodes| && |g.nodes| - 1 - q[j] in r
    ensures j > 0 ==> At(|g.nodes| - 1 - q[j - 1]) in g.nodes[|g.nodes| - 1 - q[j]].children
  {
    var n := |g.nodes|;
    if j == 0 {
      MirrorSourceEdge(g, h, r, n - 1 - q[0]);
    } else {
      MirrorBackStep(g, h, r, q, j - 1);
      MirrorEdge(g, h, r, n - 1 - q[j - 1], n - 1 - q[j]);
    }
  }

  lemma {:induction false} MirrorBackSource(g: Graph, h: Graph, r: set<nat>, q: seq<nat>)
    requires WellFormed(g) && Mirrors(g, h, r) && Chain(h.nodes, q) && At(q[0]) in h.source
    ensures At(Flip(|g.nodes|, q)[0]) in g.source
  {
    MirrorBackStep(g, h, r, q, |q| - 1);
    MirrorSinkEdge(g, h, r, |g.nodes| - 1 - q[|q| - 1]);
  }

  lemma {:induction false} MirrorBackEdges(g: Graph, h: Graph, r: set<nat>, q: seq<nat>)
    requires WellFormed(g) && Mirrors(g, h, r) && Chain(h.nodes, q) && At(q[0]) in h.source
    ensures forall j :: 0 <= j < |q| - 1 ==> At(Flip(|g.nodes|, q)[j + 1]) in g.nodes[Flip(|g.nodes|, q)[j]].children
  {
    forall j | 0 <= j < |q| - 1 ensures At(Flip(|g.nodes|, q)[j + 1]) in g.nodes[Flip(|g.nodes|, q)[j]].children {
      MirrorBackStep(g, h, r, q, |q| - 1 - j);
    }
  }

  lemma {:induction false} MirrorBackSink(g: Graph, h: Graph, r: set<nat>, q: seq<nat>)
    requires WellFormed(g) && Mirrors(g, h, r) && Chain(h.nodes, q) && At(q[0]) in h.source
    ensures Sink in g.nodes[Flip(|g.nodes|, q)[|q| - 1]].children
  {
    MirrorSourceEdge(g, h, r, |g.nodes| - 1 - q[0]);
  }

  lemma {:induction false} MirrorTextBack(g: Graph, h: Graph, r: set<nat>, q: seq<nat>, j: nat)
    requires WellFormed(g) && Mirrors(g, h, r) && Chain(h.nodes, q) && At(q[0]) in h.source && j < |q|
    ensures g.nodes[|g.nodes| - 1 - q[j]].text == Rev(h.nodes[q[j]].text)
  {
    var n := |g.nodes|;
    var x := n - 1 - q[j];
    MirrorBackStep(g, h, r, q, j);
    MirrorText(g, h, r, x);
    assert n - 1 - x == q[j];
    RevRev(g.nodes[x].text);
  }

  lemma {:induction false} MirrorTextsBack(g: Graph, h: Graph, r: set<nat>, q: seq<nat>)
    requires WellFormed(g) && Mirrors(g, h, r) && Chain(h.nodes, q) && At(q[0]) in h.source
    ensures forall j :: 0 <= j < |q| ==> g.nodes[|g.nodes| - 1 - q[j]].text == Rev(h.nodes[q[j]].text)
  {
    forall j | 0 <= j < |q| ensures g.nodes[|g.nodes| - 1 - q[j]].text == Rev(h.nodes[q[j]].text) {
      MirrorTextBack(g, h, r, q, j);
    }
  }

  lemma {:induction false} MirrorBackSpell(g: Graph, h: Graph, r: set<nat>, q: seq<nat>)
    requires WellFormed(g) && Mirrors(g, h, r) && Chain(h.nodes, q) && At(q[0]) in h.source
    ensures InArena(g.nodes, Flip(|g.nodes|, q)) && Spell(g.nodes, Flip(|g.nodes|, q)) == Rev(Spell(h.nodes, q))
  {
    MirrorTextsBack(g, h, r, q);
    FlipSpell(h.nodes, g.nodes, q);
  }

  /** A path of `h` from its source, turned round, is a path of `g` from the source. */
  lemma {:induction false} MirrorChainBack(g: Graph, h: Graph, r: set<nat>, q: seq<nat>)
    requires WellFormed(g) && Mirrors(g, h, r) && Chain(h.nodes, q) && At(q[0]) in h.source
    ensures Chain(g.nodes, Flip(|g.nodes|, q)) && At(Flip(|g.nodes|, q)[0]) in g.source
    ensures Spell(g.nodes, Flip(|g.nodes|, q)) == Rev(Spell(h.nodes, q))
  {
    MirrorBackSource(g, h, r, q);
    MirrorBackEdges(g, h, r, q);
    MirrorBackSink(g, h, r, q);
    MirrorBackSpell(g, h, r, q);
  }

  /** The reversed graph spells exactly the reversed words. */
  lemma {:induction false} MirrorWords(g: Graph, h: Graph, r: set<nat>)
    requires WellFormed(g) && Closed(g, r) && Mirrors(g, h, r)
    ensures forall w :: w in Words(h) <==> Rev(w) in Words(g)
  {
    forall w ensures w in Words(h) <==> Rev(w) in Words(g) {
      MirrorWord(g, h, r, w);
    }
  }

  lemma {:induction false} MirrorWord(g: Graph, h: Graph, r: set<nat>, w: string)
    requires WellFormed(g) && Closed(g, r) && Mirrors(g, h, r)
    ensures w in Words(h) <==> Rev(w) in Words(g)
  {
    LangOfChains(h.nodes, h.source, w);
    LangOfChains(g.nodes, g.source, Rev(w));
    MirrorSourceSink(g, h, r);
    if w in Words(h) && !(Sink in h.source && w == "") {
      var q :| Chain(h.nodes, q) && At(q[0]) in h.source && Spell(h.nodes, q) == w;
      MirrorChainBack(g, h, r, q);
    }
    if Rev(w) in Words(g) && !(Sink in g.source && Rev(w) == "") {
      var p :| Chain(g.nodes, p) && At(p[0]) in g.source && Spell(g.nodes, p) == Rev(w);
      MirrorChain(g, h, r, p);
      RevRev(w);
    }
  }

  // ---------------------------------------------------------------------------
  // The walk

  /** The walk's state: the new arena, the old nodes visited so far (the keys of
      Python's `nodemap`), and the new source list (Python's `sink`). */
  datatype Reversal = Reversal(nodes: seq<Node>, seen: set<nat>, sink: seq<Target>)

  ghost predicate Inv(g: Graph, r: set<nat>, st: Reversal) {
    var n := |g.nodes|;
    WellFormed(g) && Closed(g, r)
    && |st.nodes| == n && Ordered(st.nodes) && AllBelow(st.sink, n) && st.seen <= r
    && (forall s :: 0 <= s < n ==>
          if n - 1 - s in st.seen then st.nodes[s].text == Rev(g.nodes[n - 1 - s].text)
          else st.nodes[s] == Node("", []))
  }

  /** A visit of `t` from `parent` keeps the new arena ordered. */
  predicate Fits(n: nat, t: Target, parent: Target) {
    Below(t, n) && (parent.At? ==> parent.index < n) && (parent.At? && t.At? ==> parent.index < n - 1 - t.index)
  }

  /** The nodes `fin` are newly visited and every child of theirs has been visited. */
  ghost predicate Grows(g: Graph, st: Reversal, st': Reversal, fin: set<nat>) {
    st'.seen == st.seen + fin && st.seen !! fin
    && forall p | p in fin :: p < |g.nodes| && forall c :: c in g.nodes[p].children && c.At? ==> c.index in st'.seen
  }

  /** What a visit of `t` from `parent` adds to the lists: the parent once, on
      the reverse node of `t` (or on the new source when `t` is the sink), and
      for each newly visited node in `fin`, one reference to it from the reverse
      node of each of its children per time it lists that child. */
  ghost predicate Adds(g: Graph, st: Reversal, st': Reversal, t: Target, parent: Target, fin: set<nat>) {
    |st.nodes| == |g.nodes| && |st'.nodes| == |g.nodes|
    && AddsNodes(g, st, st', t, parent, fin) && AddsSink(g, st, st', t, parent, fin)
  }

  ghost predicate AddsNodes(g: Graph, st: Reversal, st': Reversal, t: Target, parent: Target, fin: set<nat>)
    requires |st.nodes| == |g.nodes| && |st'.nodes| == |g.nodes|
  {
    forall s, y :: 0 <= s < |g.nodes| ==> AddsSlot(g, st, st', t, parent, fin, s, y)
  }

  /** The part of `AddsNodes` about slot `s` and child `y`. */
  ghost predicate AddsSlot(g: Graph, st: Reversal, st': Reversal, t: Target, parent: Target, fin: set<nat>, s: nat, y: Target)
    requires |st.nodes| == |g.nodes| && |st'.nodes| == |g.nodes| && s < |g.nodes|
  {
    var n := |g.nodes|;
    Count(st'.nodes[s].children, y)
    == Count(st.nodes[s].children, y) + (if t == At(n - 1 - s) && y == parent then 1 else 0)
       + Back(g, fin, y, At(n - 1 - s))
  }

  ghost predicate AddsSink(g: Graph, st: Reversal, st': Reversal, t: Target, parent: Target, fin: set<nat>) {
    forall y :: Count(st'.sink, y) == Count(st.sink, y) + (if t == Sink && y == parent then 1 else 0) + Back(g, fin, y, Sink)
  }

  /** Part way through the children of `x`: the first `k` of them have been
      visited, which has visited the nodes `fin` besides `x`. */
  ghost predicate Partial(g: Graph, st: Reversal, st': Reversal, x: nat, parent: Target, k: nat, fin: set<nat>)
    requires x < |g.nodes| && k <= |g.nodes[x].children|
  {
    |st.nodes| == |g.nodes| && |st'.nodes| == |g.nodes|
    && PartialNodes(g, st, st', x, parent, k, fin) && PartialSink(g, st, st', x, k, fin)
  }

  ghost predicate PartialNodes(g: Graph, st: Reversal, st': Reversal, x: nat, parent: Target, k: nat, fin: set<nat>)
    requires x < |g.nodes| && k <= |g.nodes[x].children| && |st.nodes| == |g.nodes| && |st'.nodes| == |g.nodes|
  {
    forall s, y :: 0 <= s < |g.nodes| ==> PartialSlot(g, st, st', x, parent, k, fin, s, y)
  }

  /** The part of `PartialNodes` about slot `s` and child `y`. */
  ghost predicate PartialSlot(g: Graph, st: Reversal, st': Reversal, x: nat, parent: Target, k: nat, fin: set<nat>, s: nat, y: Target)
    requires x < |g.nodes| && k <= |g.nodes[x].children| && |st.nodes| == |g.nodes| && |st'.nodes| == |g.nodes|
    requires s < |g.nodes|
  {
    var n, cs := |g.nodes|, g.nodes[x].children;
    Count(st'.nodes[s].children, y)
    == Count(st.nodes[s].children, y) + (if At(x) == At(n - 1 - s) && y == parent then 1 else 0)
       + Back(g, fin, y, At(n - 1 - s)) + (if y == At(n - 1 - x) then Count(cs[..k], At(n - 1 - s)) else 0)
  }

  ghost predicate PartialSink(g: Graph, st: Reversal, st': Reversal, x: nat, k: nat, fin: set<nat>)
    requires x < |g.nodes| && k <= |g.nodes[x].children|
  {
    var n, cs := |g.nodes|, g.nodes[x].children;
    forall y :: Count(st'.sink, y) == Count(st.sink, y) + Back(g, fin, y, Sink)
                + (if y == At(n - 1 - x) then Count(cs[..k], Sink) else 0)
  }

  lemma {:induction false} BackUnion(g: Graph, a: set<nat>, b: set<nat>, y: Target, c: Target)
    requires a !! b
    ensures Back(g, a + b, y, c) == Back(g, a, y, c) + Back(g, b, y, c)
  {
  }

  lemma {:induction false} BackSingle(g: Graph, x: nat, y: Target, c: Target)
    requires x < |g.nodes|
    ensures Back(g, {x}, y, c) == if y == At(|g.nodes| - 1 - x) then Count(g.nodes[x].children, c) else 0
  {
  }

  lemma {:induction false} BackEmpty(g: Graph, y: Target, c: Target)
    ensures Back(g, {}, y, c) == 0
  {
  }

  /** The reverse node of `x` is created with the parent as its one child. */
  lemma {:induction false} PartialStart(g: Graph, st: Reversal, st': Reversal, x: nat, parent: Target)
    requires x < |g.nodes| && |st.nodes| == |g.nodes| && st.nodes[|g.nodes| - 1 - x].children == []
    requires st'.sink == st.sink && st'.nodes == st.nodes[|g.nodes| - 1 - x := Node(Rev(g.nodes[x].text), [parent])]
    ensures Partial(g, st, st', x, parent, 0, {})
  {
    var n, cs := |g.nodes|, g.nodes[x].children;
    assert cs[..0] == [];
    forall s, y | 0 <= s < n ensures PartialSlot(g, st, st', x, parent, 0, {}, s, y) {
      PartialStartSlot(g, st.nodes[s].children, st'.nodes[s].children, x, parent, s, y);
    }
    forall y ensures Count(st'.sink, y) == Count(st.sink, y) + Back(g, {}, y, Sink)
                     + (if y == At(n - 1 - x) then Count(cs[..0], Sink) else 0)
    {
      BackEmpty(g, y, Sink);
    }
  }

  lemma {:induction false} PartialStartSlot(g: Graph, before: seq<Target>, after: seq<Target>, x: nat, parent: Target, s: nat, y: Target)
    requires x < |g.nodes| && s < |g.nodes|
    requires s == |g.nodes| - 1 - x ==> before == [] && after == [parent]
    requires s != |g.nodes| - 1 - x ==> after == before
    ensures Count(after, y)
            == Count(before, y) + (if At(x) == At(|g.nodes| - 1 - s) && y == parent then 1 else 0)
               + Back(g, {}, y, At(|g.nodes| - 1 - s))
  {
    if s == |g.nodes| - 1 - x {
      assert [] + [parent] == after;
      CountAppend([], parent, y);
    } else {
      assert At(x) != At(|g.nodes| - 1 - s);
    }
  }

  /** The visit of child `k` of `x` extends the partial account by one child. */
  lemma {:induction false} PartialStep(g: Graph, st: Reversal, mid: Reversal, next: Reversal, x: nat, parent: Target, k: nat,
                    done: set<nat>, more: set<nat>)
    requires x < |g.nodes| && k < |g.nodes[x].children| && done !! more
    requires Partial(g, st, mid, x, parent, k, done)
    requires Adds(g, mid, next, g.nodes[x].children[k], At(|g.nodes| - 1 - x), more)
    ensures Partial(g, st, next, x, parent, k + 1, done + more)
  {
    PartialStepNodes(g, st, mid, next, x, parent, k, done, more);
    PartialStepSink(g, st, mid, next, x, k, done, more);
  }

  lemma {:induction false} PartialStepNodes(g: Graph, st: Reversal, mid: Reversal, next: Reversal, x: nat, parent: Target, k: nat,
                         done: set<nat>, more: set<nat>)
    requires x < |g.nodes| && k < |g.nodes[x].children| && done !! more
    requires |st.nodes| == |g.nodes| && |mid.nodes| == |g.nodes| && |next.nodes| == |g.nodes|
    requires PartialNodes(g, st, mid, x, parent, k, done)
    requires AddsNodes(g, mid, next, g.nodes[x].children[k], At(|g.nodes| - 1 - x), more)
    ensures PartialNodes(g, st, next, x, parent, k + 1, done + more)
  {
    var n, cs := |g.nodes|, g.nodes[x].children;
    var k', done' := k + 1, done + more;
    forall s, y | 0 <= s < n ensures PartialSlot(g, st, next, x, parent, k', done', s, y) {
      StepSlot(g, st, mid, next, x, parent, k, done, more, s, y);
    }
  }

  lemma {:induction false} StepSlot(g: Graph, st: Reversal, mid: Reversal, next: Reversal, x: nat, parent: Target, k: nat,
                 done: set<nat>, more: set<nat>, s: nat, y: Target)
    requires x < |g.nodes| && k < |g.nodes[x].children| && done !! more && s < |g.nodes|
    requires |st.nodes| == |g.nodes| && |mid.nodes| == |g.nodes| && |next.nodes| == |g.nodes|
    requires PartialSlot(g, st, mid, x, parent, k, done, s, y)
    requires AddsSlot(g, mid, next, g.nodes[x].children[k], At(|g.nodes| - 1 - x), more, s, y)
    ensures PartialSlot(g, st, next, x, parent, k + 1, done + more, s, y)
  {
    var n, cs := |g.nodes|, g.nodes[x].children;
    CountPrefix(cs, k, At(n - 1 - s));
    BackUnion(g, done, more, y, At(n - 1 - s));
  }

  lemma {:induction false} PartialStepSink(g: Graph, st: Reversal, mid: Reversal, next: Reversal, x: nat, k: nat,
                        done: set<nat>, more: set<nat>)
    requires x < |g.nodes| && k < |g.nodes[x].children| && done !! more
    requires PartialSink(g, st, mid, x, k, done)
    requires AddsSink(g, mid, next, g.nodes[x].children[k], At(|g.nodes| - 1 - x), more)
    ensures PartialSink(g, st, next, x, k + 1, done + more)
  {
    var n, cs := |g.nodes|, g.nodes[x].children;
    forall y
      ensures Count(next.sink, y) == Count(st.sink, y) + Back(g, done + more, y, Sink)
              + (if y == At(n - 1 - x) then Count(cs[..k + 1], Sink) else 0)
    {
      CountPrefix(cs, k, Sink);
      BackUnion(g, done, more, y, Sink);
    }
  }

  /** Once all children of `x` are visited, the account is that of a visit of `x`. */
  lemma {:induction false} PartialDone(g: Graph, st: Reversal, st': Reversal, x: nat, parent: Target, done: set<nat>)
    requires x < |g.nodes| && x !in done
    requires Partial(g, st, st', x, parent, |g.nodes[x].children|, done)
    ensures Adds(g, st, st', At(x), parent, done + {x})
  {
    var n, cs := |g.nodes|, g.nodes[x].children;
    assert cs[..|cs|] == cs;
    forall c, y ensures Back(g, done + {x}, y, c) == Back(g, done, y, c) + (if y == At(n - 1 - x) then Count(cs, c) else 0) {
      BackUnion(g, done, {x}, y, c);
      BackSingle(g, x, y, c);
    }
    forall s, y | 0 <= s < n ensures AddsSlot(g, st, st', At(x), parent, done + {x}, s, y) {
      assert PartialSlot(g, st, st', x, parent, |cs|, done, s, y);
    }
  }

  /** A visit of the sink adds the parent to the new source list. */
  lemma {:induction false} VisitSink(g: Graph, r: set<nat>, st: Reversal, parent: Target)
    requires Inv(g, r, st) && Fits(|g.nodes|, Sink, parent)
    ensures Inv(g, r, st.(sink := st.sink + [parent]))
    ensures Adds(g, st, st.(sink := st.sink + [parent]), Sink, parent, {})
  {
    forall y ensures Count(st.sink + [parent], y) == Count(st.sink, y) + (if y == parent then 1 else 0) + Back(g, {}, y, Sink) {
      CountAppend(st.sink, parent, y);
    }
    forall s, y | 0 <= s < |g.nodes| ensures AddsSlot(g, st, st.(sink := st.sink + [parent]), Sink, parent, {}, s, y) {
    }
  }

  /** The reverse node of `x` with the parent appended to its children. */
  function Again(g: Graph, st: Reversal, x: nat, parent: Target): Reversal
    requires x < |g.nodes| && |st.nodes| == |g.nodes|
  {
    var s0 := |g.nodes| - 1 - x;
    st.(nodes := st.nodes[s0 := Node(st.nodes[s0].text, st.nodes[s0].children + [parent])])
  }

  /** A later visit of `x` keeps the walk's invariant... */
  lemma {:induction false} AgainInv(g: Graph, r: set<nat>, st: Reversal, x: nat, parent: Target)
    requires Inv(g, r, st) && Fits(|g.nodes|, At(x), parent) && x in st.seen
    ensures Inv(g, r, Again(g, st, x, parent))
  {
    var n, s0 := |g.nodes|, |g.nodes| - 1 - x;
    var st' := Again(g, st, x, parent);
    assert AllBelow(st.nodes[s0].children + [parent], s0) by {
      forall t | t in st.nodes[s0].children + [parent] ensures Below(t, s0) {
        if t != parent {
          assert t in st.nodes[s0].children;
        }
      }
    }
    assert n - 1 - s0 == x;
    forall s | 0 <= s < n ensures st'.nodes[s].text == st.nodes[s].text && (s != s0 ==> st'.nodes[s] == st.nodes[s]) {
    }
  }

  /** ... and adds the parent to the reverse node of `x`. */
  lemma {:induction false} AgainAdds(g: Graph, st: Reversal, x: nat, parent: Target)
    requires x < |g.nodes| && |st.nodes| == |g.nodes|
    ensures Adds(g, st, Again(g, st, x, parent), At(x), parent, {})
  {
    var st' := Again(g, st, x, parent);
    forall s, y | 0 <= s < |g.nodes| ensures AddsSlot(g, st, st', At(x), parent, {}, s, y) {
      AgainSlot(g, st, x, parent, s, y);
    }
  }

  lemma {:induction false} AgainSlot(g: Graph, st: Reversal, x: nat, parent: Target, s: nat, y: Target)
    requires x < |g.nodes| && |st.nodes| == |g.nodes| && s < |g.nodes|
    ensures AddsSlot(g, st, Again(g, st, x, parent), At(x), parent, {}, s, y)
  {
    var n, s0 := |g.nodes|, |g.nodes| - 1 - x;
    var st' := Again(g, st, x, parent);
    if s == s0 {
      assert st'.nodes[s].children == st.nodes[s0].children + [parent];
      CountAppend(st.nodes[s0].children, parent, y);
    } else {
      assert st'.nodes[s] == st.nodes[s];
      assert At(x) != At(n - 1 - s);
    }
  }

  /** `dfs(node, parent)`. */
  method Dfs(g: Graph, ghost r: set<nat>, t: Target, parent: Target, st: Reversal) returns (st': Reversal, ghost fin: set<nat>)
    requires Inv(g, r, st) && Fits(|g.nodes|, t, parent) && (t.At? ==> t.index in r)
    ensures Inv(g, r, st') && Grows(g, st, st', fin) && (t.At? ==> t.index in st'.seen)
    ensures Adds(g, st, st', t, parent, fin)
    decreases Rank(t), 1
  {
    var n := |g.nodes|;
    match t {
      case Sink => {
        st' := st.(sink := st.sink + [parent]);
        fin := {};
        VisitSink(g, r, st, parent);
      }
      case At(x) => {
        if x !in st.seen {
          st', fin := Expand(g, r, x, parent, st);
        } else {
          st' := Again(g, st, x, parent);
          fin := {};
          AgainInv(g, r, st, x, parent);
          AgainAdds(g, st, x, parent);
        }
      }
    }
  }

  /** The loop of `dfs` over the children of `x`, after `k` of them: `cur` is
      `st` with the subtrees below them added and their edges mirrored. */
  ghost predicate Expanding(g: Graph, r: set<nat>, st: Reversal, cur: Reversal, x: nat, parent: Target, k: nat, done: set<nat>)
    requires x < |g.nodes| && k <= |g.nodes[x].children|
  {
    var cs := g.nodes[x].children;
    Inv(g, r, cur)
    && cur.seen == st.seen + done + {x} && st.seen !! done && x !in done
    && (forall p | p in done :: p < |g.nodes| && forall c :: c in g.nodes[p].children && c.At? ==> c.index in cur.seen)
    && (forall c :: c in cs[..k] && c.At? ==> c.index in cur.seen)
    && Partial(g, st, cur, x, parent, k, done)
  }

  /** One child visited keeps the loop's invariant. */
  lemma {:induction false} ExpandStep(g: Graph, r: set<nat>, st: Reversal, cur: Reversal, next: Reversal, x: nat, parent: Target, k: nat,
                    done: set<nat>, more: set<nat>)
    requires x < |g.nodes| && k < |g.nodes[x].children| && Expanding(g, r, st, cur, x, parent, k, done)
    requires Inv(g, r, next) && Grows(g, cur, next, more)
    requires var c := g.nodes[x].children[k]; c.At? ==> c.index in next.seen
    requires Adds(g, cur, next, g.nodes[x].children[k], At(|g.nodes| - 1 - x), more)
    ensures Expanding(g, r, st, next, x, parent, k + 1, done + more)
  {
    var cs := g.nodes[x].children;
    PartialStep(g, st, cur, next, x, parent, k, done, more);
    assert cs[..k + 1] == cs[..k] + [cs[k]];
  }

  /** The first visit of node `x`: create its reverse node, then visit its children. */
  method Expand(g: Graph, ghost r: set<nat>, x: nat, parent: Target, st: Reversal) returns (st': Reversal, ghost fin: set<nat>)
    requires Inv(g, r, st) && Fits(|g.nodes|, At(x), parent) && x in r && x !in st.seen
    ensures Inv(g, r, st') && Grows(g, st, st', fin) && x in st'.seen
    ensures Adds(g, st, st', At(x), parent, fin)
    decreases x + 1, 0
  {
    var n := |g.nodes|;
    var s0 := n - 1 - x;
    var cs := g.nodes[x].children;
    st' := st.(nodes := st.nodes[s0 := Node(Rev(g.nodes[x].text), [parent])], seen := st.seen + {x});
    PartialStart(g, st, st', x, parent);
    ghost var done: set<nat> := {};
    for k := 0 to |cs|
      invariant Expanding(g, r, st, st', x, parent, k, done)
    {
      assert cs[k] in cs;
      var next;
      ghost var more;
      next, more := Dfs(g, r, cs[k], At(s0), st');
      ExpandStep(g, r, st, st', next, x, parent, k, done, more);
      st' := next;
      done := done + more;
    }
    assert cs[..|cs|] == cs;
    PartialDone(g, st, st', x, parent, done);
    fin := done + {x};
  }

  /** The counts of the walk's lists after the visits of the first `k`
      children of the source. */
  ghost predicate SourceCounts(g: Graph, st: Reversal, k: nat)
    requires k <= |g.source|
  {
    var n := |g.nodes|;
    |st.nodes| == n
    && (forall s, y :: 0 <= s < n ==>
          Count(st.nodes[s].children, y)
          == (if y == Sink then Count(g.source[..k], At(n - 1 - s)) else 0) + Back(g, st.seen, y, At(n - 1 - s)))
    && (forall y :: Count(st.sink, y) == (if y == Sink then Count(g.source[..k], Sink) else 0) + Back(g, st.seen, y, Sink))
  }

  lemma {:induction false} SourceStep(g: Graph, st: Reversal, st': Reversal, k: nat, fin: set<nat>)
    requires k < |g.source| && SourceCounts(g, st, k)
    requires Adds(g, st, st', g.source[k], Sink, fin) && st'.seen == st.seen + fin && st.seen !! fin
    ensures SourceCounts(g, st', k + 1)
  {
    SourceStepNodes(g, st, st', k, fin);
    SourceStepSink(g, st, st', k, fin);
  }

  lemma {:induction false} SourceStepNodes(g: Graph, st: Reversal, st': Reversal, k: nat, fin: set<nat>)
    requires k < |g.source| && SourceCounts(g, st, k)
    requires Adds(g, st, st', g.source[k], Sink, fin) && st'.seen == st.seen + fin && st.seen !! fin
    ensures forall s, y | 0 <= s < |g.nodes| ::
      Count(st'.nodes[s].children, y)
      == (if y == Sink then Count(g.source[..k + 1], At(|g.nodes| - 1 - s)) else 0) + Back(g, st'.seen, y, At(|g.nodes| - 1 - s))
  {
    var n, c := |g.nodes|, g.source[k];
    forall s, y | 0 <= s < n
      ensures Count(st'.nodes[s].children, y)
              == (if y == Sink then Count(g.source[..k + 1], At(n - 1 - s)) else 0) + Back(g, st'.seen, y, At(n - 1 - s))
    {
      assert AddsSlot(g, st, st', c, Sink, fin, s, y);
      SourceSlot(g, st, st', k, fin, s, y);
    }
  }

  /** One slot and one child of `SourceStepNodes`. */
  lemma {:induction false} SourceSlot(g: Graph, st: Reversal, st': Reversal, k: nat, fin: set<nat>, s: nat, y: Target)
    requires k < |g.source| && s < |g.nodes| && |st.nodes| == |g.nodes| && |st'.nodes| == |g.nodes|
    requires Count(st.nodes[s].children, y)
      == (if y == Sink then Count(g.source[..k], At(|g.nodes| - 1 - s)) else 0) + Back(g, st.seen, y, At(|g.nodes| - 1 - s))
    requires AddsSlot(g, st, st', g.source[k], Sink, fin, s, y) && st'.seen == st.seen + fin && st.seen !! fin
    ensures Count(st'.nodes[s].children, y)
      == (if y == Sink then Count(g.source[..k + 1], At(|g.nodes| - 1 - s)) else 0) + Back(g, st'.seen, y, At(|g.nodes| - 1 - s))
  {
    CountPrefix(g.source, k, At(|g.nodes| - 1 - s));
    BackUnion(g, st.seen, fin, y, At(|g.nodes| - 1 - s));
  }

  lemma {:induction false} SourceStepSink(g: Graph, st: Reversal, st': Reversal, k: nat, fin: set<nat>)
    requires k < |g.source| && SourceCounts(g, st, k)
    requires Adds(g, st, st', g.source[k], Sink, fin) && st'.seen == st.seen + fin && st.seen !! fin
    ensures forall y :: Count(st'.sink, y) == (if y == Sink then Count(g.source[..k + 1], Sink) else 0) + Back(g, st'.seen, y, Sink)
  {
    forall y ensures Count(st'.sink, y) == (if y == Sink then Count(g.source[..k + 1], Sink) else 0) + Back(g, st'.seen, y, Sink) {
      CountPrefix(g.source, k, Sink);
      BackUnion(g, st.seen, fin, y, Sink);
    }
  }

  lemma {:induction false} SourceDone(g: Graph, r: set<nat>, st: Reversal)
    requires Inv(g, r, st) && SourceCounts(g, st, |g.source|) && st.seen == r && AllBelow(g.source, |g.nodes|)
    ensures Mirrors(g, Graph(st.nodes, st.sink), r)
  {
    assert g.source[..|g.source|] == g.source;
  }

  /** `reverse(dafsa)`: the walk from every child of the source, with the
      source itself as the parent (`None`). */
  method Reverse(g: Graph) returns (h: Graph, ghost seen: set<nat>)
    requires WellFormed(g)
    ensures seen == ReachSet(g) && Closed(g, seen) && Mirrors(g, h, seen)
    ensures forall w :: w in Words(h) <==> Rev(w) in Words(g)
  {
    var n := |g.nodes|;
    ghost var r := ReachSet(g);
    ReachClosed(g);
    var st := Reversal(seq(n, _ => Node("", [])), {}, []);
    for k := 0 to |g.source|
      invariant Inv(g, r, st)
      invariant forall c :: c in g.source[..k] && c.At? ==> c.index in st.seen
      invariant forall p | p in st.seen :: p < n && forall c :: c in g.nodes[p].children && c.At? ==> c.index in st.seen
      invariant SourceCounts(g, st, k)
    {
      var c := g.source[k];
      assert c in g.source;
      ghost var before := st;
      var next;
      ghost var fin;
      next, fin := Dfs(g, r, c, Sink, st);
      st := next;
      SourceStep(g, before, st, k, fin);
      assert g.source[..k + 1] == g.source[..k] + [c];
    }
    assert st.seen == r by {
      forall x | x in r ensures x in st.seen {
        ClosedHoldsReachable(g, st.seen, x);
      }
    }
    seen := st.seen;
    h := Graph(st.nodes, st.sink);
    SourceDone(g, r, st);
    MirrorWords(g, h, seen);
  }
}
