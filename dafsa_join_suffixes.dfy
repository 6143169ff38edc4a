/**
 * `join_suffixes`: a new DAFSA in which nodes that spell the same set of
 * words towards the sink are merged into one.
 *
 * The Python function walks the graph from the source. For each node it
 * computes the set of the node's words (`frozenset(to_words(node))`) and
 * looks it up in `nodemap`; only when the set is new does it build a node,
 * with the old label and the joined children, and record it under the set.
 * The sink is recorded in advance under the set holding only the empty word.
 * Here the new nodes are appended to a fresh arena after their children, so
 * the new arena is ordered, and a Python node reference is an arena target.
 */
module DafsaJoinSuffixes {
  import opened DafsaGraph

  /** The new arena, and Python's `nodemap` from word sets to the nodes that spell them. */
  datatype Merge = Merge(nodes: seq<Node>, nodemap: map<set<string>, Target>)

  /** Every recorded target spells exactly the word set it is recorded under,
      and the sink is recorded under the set holding only the empty word. */
  ghost predicate Spells(m: Merge) {
    Ordered(m.nodes)
    && {""} in m.nodemap && m.nodemap[{""}] == Sink
    && forall ws :: ws in m.nodemap ==> Below(m.nodemap[ws], |m.nodes|) && Lang(m.nodes, m.nodemap[ws]) == ws
  }

  /** The new arena only grows at its end. */
  predicate Grown(m: Merge, m': Merge) {
    |m.nodes| <= |m'.nodes| && m'.nodes[..|m.nodes|] == m.nodes
  }

  lemma {:induction false} GrownTrans(a: Merge, b: Merge, c: Merge)
    requires Grown(a, b) && Grown(b, c)
    ensures Grown(a, c)
  {
    assert c.nodes[..|a.nodes|] == c.nodes[..|b.nodes|][..|a.nodes|];
  }

  /** Every word set recorded in `m` is still recorded in `m'`, with the
      same node: a key is only ever assigned while it is absent. */
  ghost predicate Kept(m: Merge, m': Merge) {
    forall ws :: ws in m.nodemap ==> ws in m'.nodemap && m'.nodemap[ws] == m.nodemap[ws]
  }

  /** The word sets recorded since `m` have no word longer than `n`. */
  ghost predicate FreshWithin(m: Merge, m': Merge, n: nat) {
    forall ws :: ws in m'.nodemap && ws !in m.nodemap ==> MaxLen(ws) <= n
  }

  /** Every node of the new arena is the one recorded under its word set. */
  ghost predicate Canonical(m: Merge)
    requires Ordered(m.nodes)
  {
    forall x :: 0 <= x < |m.nodes| ==> Lang(m.nodes, At(x)) in m.nodemap && m.nodemap[Lang(m.nodes, At(x))] == At(x)
  }

  /** No two nodes of the arena spell the same word set. */
  ghost predicate Minimal(ns: seq<Node>)
    requires Ordered(ns)
  {
    forall x, y :: 0 <= x < y < |ns| ==> Lang(ns, At(x)) != Lang(ns, At(y))
  }

  /** Each target of `us` is the node recorded for the words of the matching target of `ts`. */
  ghost predicate Looked(g: Graph, m: Merge, ts: seq<Target>, us: seq<Target>)
    requires Ordered(g.nodes) && AllBelow(ts, |g.nodes|)
  {
    |us| == |ts|
    && forall k :: 0 <= k < |ts| ==> Below(ts[k], |g.nodes|) && Lang(g.nodes, ts[k]) in m.nodemap && us[k] == m.nodemap[Lang(g.nodes, ts[k])]
  }

  /** The nodes of `live` have a label and spell at least one word. */
  ghost predicate Live(g: Graph, live: set<nat>)
    requires Ordered(g.nodes)
  {
    forall x :: x in live ==> x < |g.nodes| && g.nodes[x].text != [] && Lang(g.nodes, At(x)) != {}
  }

  /** The node targets of `ts` are in `live`. */
  ghost predicate Inside(ts: seq<Target>, live: set<nat>) {
    forall t :: t in ts && t.At? ==> t.index in live
  }

  /** The length of the longest word of `ws`, 0 when there is none. */
  ghost function MaxLen(ws: set<string>): (r: nat)
    ensures forall w :: w in ws ==> |w| <= r
    ensures ws != {} ==> exists w :: w in ws && |w| == r
    decreases |ws|
  {
    if ws == {} then 0
    else
      var w :| w in ws;
      var rest := MaxLen(ws - {w});
      if |w| >= rest then |w| else rest
  }

  lemma {:induction false} MaxLenSubset(a: set<string>, b: set<string>)
    requires a <= b
    ensures MaxLen(a) <= MaxLen(b)
  {
    if a != {} {
      var w :| w in a && |w| == MaxLen(a);
      assert w in b;
    }
  }

  /** The words of a node are at least as long as those of its children, and
      longer when its label is not empty and it spells a word. */
  lemma {:induction false} ChildrenShorter(ns: seq<Node>, x: nat)
    requires Ordered(ns) && x < |ns|
    ensures AllBelow(ns[x].children, |ns|)
    ensures MaxLen(LangOf(ns, ns[x].children)) <= MaxLen(Lang(ns, At(x)))
    ensures ns[x].text != [] && Lang(ns, At(x)) != {} ==> MaxLen(LangOf(ns, ns[x].children)) < MaxLen(Lang(ns, At(x)))
  {
    var text, below := ns[x].text, LangOf(ns, ns[x].children);
    LangNode(ns, x);
    if below != {} {
      var w :| w in below && |w| == MaxLen(below);
      assert text + w in Prefix(text, below);
    } else {
      assert Lang(ns, At(x)) == {};
    }
  }

  /** A child's words are words of its list. */
  lemma {:induction false} ChildInList(ns: seq<Node>, ts: seq<Target>, k: nat)
    requires Ordered(ns) && AllBelow(ts, |ns|) && k < |ts|
    ensures Below(ts[k], |ns|) && MaxLen(Lang(ns, ts[k])) <= MaxLen(LangOf(ns, ts))
  {
    assert ts[k] in ts;
    forall w | w in Lang(ns, ts[k]) ensures w in LangOf(ns, ts) {
      LangOfMember(ns, ts, w);
    }
    MaxLenSubset(Lang(ns, ts[k]), LangOf(ns, ts));
  }

  /** Appending a node keeps every recorded word set, and recording the new
      node under its own word set keeps `Spells`. */
  lemma {:induction false} Record(m: Merge, node: Node, ws: set<string>)
    requires Spells(m) && AllBelow(node.children, |m.nodes|) && ws != {""}
    requires Prefix(node.text, LangOf(m.nodes, node.children)) == ws
    ensures Spells(Merge(m.nodes + [node], m.nodemap[ws := At(|m.nodes|)]))
    ensures Grown(m, Merge(m.nodes + [node], m.nodemap[ws := At(|m.nodes|)]))
    ensures Lang(m.nodes + [node], At(|m.nodes|)) == ws
  {
    var ms := m.nodes + [node];
    AppendOrdered(m.nodes, node);
    LangNode(ms, |m.nodes|);
    LangOfExtend(m.nodes, ms, node.children);
    forall vs | vs in m.nodemap ensures Lang(ms, m.nodemap[vs]) == vs {
      LangExtend(m.nodes, ms, m.nodemap[vs]);
    }
  }

  /** Recording a new node under a word set not yet recorded keeps every
      node canonical. */
  lemma {:induction false} RecordCanonical(m: Merge, node: Node, ws: set<string>)
    requires Spells(m) && AllBelow(node.children, |m.nodes|) && ws != {""} && ws !in m.nodemap
    requires Prefix(node.text, LangOf(m.nodes, node.children)) == ws
    requires Canonical(m)
    ensures Ordered(m.nodes + [node])
    ensures Canonical(Merge(m.nodes + [node], m.nodemap[ws := At(|m.nodes|)]))
  {
    var m' := Merge(m.nodes + [node], m.nodemap[ws := At(|m.nodes|)]);
    Record(m, node, ws);
    forall x | 0 <= x < |m'.nodes|
      ensures Lang(m'.nodes, At(x)) in m'.nodemap && m'.nodemap[Lang(m'.nodes, At(x))] == At(x)
    {
      if x < |m.nodes| {
        LangExtend(m.nodes, m'.nodes, At(x));
      }
    }
  }

  /** The new node built by `join` for a word set not yet recorded: recorded
      under its words, with every earlier key kept, and canonical when its
      label is not empty and it spells a word. */
  lemma {:induction false} JoinNew(g: Graph, live: set<nat>, x: nat, m: Merge, m1: Merge, children: seq<Target>, suffixes: set<string>, m': Merge)
    requires Ordered(g.nodes) && x < |g.nodes| && Spells(m) && Spells(m1) && Grown(m, m1) && Kept(m, m1)
    requires suffixes == Lang(g.nodes, At(x)) && suffixes !in m.nodemap
    requires AllBelow(children, |m1.nodes|) && SameLangs(g.nodes, m1.nodes, g.nodes[x].children, children)
    requires FreshWithin(m, m1, MaxLen(LangOf(g.nodes, g.nodes[x].children)))
    requires m' == Merge(m1.nodes + [Node(g.nodes[x].text, children)], m1.nodemap[suffixes := At(|m1.nodes|)])
    ensures Spells(m') && Grown(m, m') && Kept(m, m')
    ensures Below(At(|m1.nodes|), |m'.nodes|) && Lang(m'.nodes, At(|m1.nodes|)) == suffixes
    ensures suffixes in m'.nodemap && m'.nodemap[suffixes] == At(|m1.nodes|)
    ensures FreshWithin(m, m', MaxLen(suffixes))
    ensures Live(g, live) && x in live && Canonical(m1) ==> Canonical(m')
  {
    var node := Node(g.nodes[x].text, children);
    assert AllBelow(g.nodes[x].children, |g.nodes|);
    assert Prefix(node.text, LangOf(m1.nodes, children)) == suffixes by {
      LangOfSame(g.nodes, m1.nodes, g.nodes[x].children, children);
      LangNode(g.nodes, x);
    }
    Record(m1, node, suffixes);
    GrownTrans(m, m1, m');
    ChildrenShorter(g.nodes, x);
    if Live(g, live) && x in live && Canonical(m1) {
      assert suffixes !in m1.nodemap;
      RecordCanonical(m1, node, suffixes);
    }
  }

  /** `join(node)`: the target of the new arena that spells the words of `t`. */
  method Join(g: Graph, ghost live: set<nat>, t: Target, m: Merge) returns (r: Target, m': Merge)
    requires Ordered(g.nodes) && Below(t, |g.nodes|) && Spells(m)
    ensures Spells(m') && Grown(m, m') && Kept(m, m')
    ensures Below(r, |m'.nodes|) && Lang(m'.nodes, r) == Lang(g.nodes, t)
    ensures Lang(g.nodes, t) in m'.nodemap && r == m'.nodemap[Lang(g.nodes, t)]
    ensures FreshWithin(m, m', MaxLen(Lang(g.nodes, t)))
    ensures Closed(g, live) && Live(g, live) && Inside([t], live) && Canonical(m) ==> Canonical(m')
    decreases Rank(t), 1
  {
    var suffixes := Elems(ToWords(g.nodes, t));
    assert suffixes == Lang(g.nodes, t) by {
      ToWordsLang(g.nodes, t);
    }
    if suffixes in m.nodemap {
      r, m' := m.nodemap[suffixes], m;
    } else {
      var x := t.index;
      ghost var deep := Closed(g, live) && Live(g, live) && Inside([t], live) && Canonical(m);
      if deep {
        assert t in [t];
        ChildrenInside(g, live, x);
      }
      var children, m1 := JoinAll(g, live, g.nodes[x].children, x, m);
      r := At(|m1.nodes|);
      m' := Merge(m1.nodes + [Node(g.nodes[x].text, children)], m1.nodemap[suffixes := r]);
      JoinNew(g, live, x, m, m1, children, suffixes, m');
    }
  }

  /** The children of a node of a closed set are in the set. */
  lemma {:induction false} ChildrenInside(g: Graph, live: set<nat>, x: nat)
    requires Closed(g, live) && x in live
    ensures x < |g.nodes| && Inside(g.nodes[x].children, live)
  {
  }

  /** One more child looked up: the earlier ones are still recorded. */
  lemma {:induction false} LookedStep(g: Graph, ts: seq<Target>, k: nat, m: Merge, us: seq<Target>, u: Target, next: Merge)
    requires Ordered(g.nodes) && AllBelow(ts, |g.nodes|) && k < |ts|
    requires Looked(g, m, ts[..k], us) && Kept(m, next)
    requires Lang(g.nodes, ts[k]) in next.nodemap && u == next.nodemap[Lang(g.nodes, ts[k])]
    ensures Looked(g, next, ts[..k + 1], us + [u])
  {
    assert ts[..k + 1] == ts[..k] + [ts[k]];
    assert ts[k] in ts;
    forall j | 0 <= j < k ensures ts[..k][j] == ts[j] && Lang(g.nodes, ts[j]) in m.nodemap {
      assert ts[j] in ts;
    }
  }

  lemma {:induction false} FreshStep(m: Merge, m1: Merge, next: Merge, n: nat, bound: nat)
    requires FreshWithin(m, m1, bound) && FreshWithin(m1, next, n) && n <= bound
    ensures FreshWithin(m, next, bound)
  {
  }

  /** Looked-up targets spell the words of the targets they were looked up for. */
  lemma {:induction false} LookedSame(g: Graph, m: Merge, ts: seq<Target>, us: seq<Target>)
    requires Ordered(g.nodes) && AllBelow(ts, |g.nodes|) && Spells(m) && Looked(g, m, ts, us)
    ensures AllBelow(us, |m.nodes|) && SameLangs(g.nodes, m.nodes, ts, us)
  {
    forall u | u in us ensures Below(u, |m.nodes|) {
      var k :| 0 <= k < |us| && us[k] == u;
      assert Lang(g.nodes, ts[k]) in m.nodemap;
    }
  }

  /** `[join(child) for child in ts]`, for a list of targets below `bound`. */
  method JoinAll(g: Graph, ghost live: set<nat>, ts: seq<Target>, bound: nat, m: Merge) returns (us: seq<Target>, m': Merge)
    requires Ordered(g.nodes) && bound <= |g.nodes| && AllBelow(ts, bound) && Spells(m)
    ensures Spells(m') && Grown(m, m') && Kept(m, m')
    ensures |us| == |ts| && AllBelow(us, |m'.nodes|)
    ensures SameLangs(g.nodes, m'.nodes, ts, us)
    ensures AllBelow(ts, |g.nodes|) && Looked(g, m', ts, us)
    ensures FreshWithin(m, m', MaxLen(LangOf(g.nodes, ts)))
    ensures Closed(g, live) && Live(g, live) && Inside(ts, live) && Canonical(m) ==> Canonical(m')
    decreases bound + 1, 0
  {
    ghost var deep := Closed(g, live) && Live(g, live) && Inside(ts, live) && Canonical(m);
    assert AllBelow(ts, |g.nodes|);
    us, m' := [], m;
    for k := 0 to |ts|
      invariant Spells(m') && Grown(m, m') && Kept(m, m')
      invariant Looked(g, m', ts[..k], us)
      invariant FreshWithin(m, m', MaxLen(LangOf(g.nodes, ts)))
      invariant deep ==> Canonical(m')
    {
      assert ts[k] in ts;
      ChildInList(g.nodes, ts, k);
      if deep {
        assert Inside([ts[k]], live);
      }
      var u, next := Join(g, live, ts[k], m');
      LookedStep(g, ts, k, m', us, u, next);
      FreshStep(m, m', next, MaxLen(Lang(g.nodes, ts[k])), MaxLen(LangOf(g.nodes, ts)));
      GrownTrans(m, m', next);
      us, m' := us + [u], next;
    }
    assert ts[..|ts|] == ts;
    LookedSame(g, m', ts, us);
  }

  /** `join_suffixes(dafsa)`: the source list joined into a fresh arena. */
  method JoinSuffixes(g: Graph) returns (h: Graph)
    requires WellFormed(g)
    ensures WellFormed(h) && |h.source| == |g.source|
    ensures SameLangs(g.nodes, h.nodes, g.source, h.source)
    ensures Words(h) == Words(g)
    ensures forall j, k :: 0 <= j < |g.source| && 0 <= k < |g.source| && Lang(g.nodes, g.source[j]) == Lang(g.nodes, g.source[k]) ==>
      h.source[j] == h.source[k]
    ensures Live(g, ReachSet(g)) ==> Minimal(h.nodes)
  {
    ghost var live := ReachSet(g);
    ReachClosed(g);
    var m := Merge([], map[{""} := Sink]);
    var source;
    source, m := JoinAll(g, live, g.source, |g.nodes|, m);
    h := Graph(m.nodes, source);
    LangOfSame(g.nodes, h.nodes, g.source, h.source);
    if Live(g, live) {
      CanonicalMinimal(m);
    }
  }

  /** A canonical arena spells a different word set at every node. */
  lemma {:induction false} CanonicalMinimal(m: Merge)
    requires Ordered(m.nodes) && Canonical(m)
    ensures Minimal(m.nodes)
  {
    forall x, y | 0 <= x < y < |m.nodes| ensures Lang(m.nodes, At(x)) != Lang(m.nodes, At(y)) {
      assert m.nodemap[Lang(m.nodes, At(x))] == At(x) && m.nodemap[Lang(m.nodes, At(y))] == At(y);
    }
  }
}
