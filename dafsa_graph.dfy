/**
 * The graph that the DAFSA builder passes from stage to stage.
 *
 * In the Python program a node is a tuple `(label, [children])`, the sink is
 * `None` and the source is a bare list of children; nodes are told apart by
 * object identity (`id(node)`). Here all internal nodes of one graph live in an
 * arena `nodes`, and a child is a `Target`: the sink, or the index of a node in
 * the arena. Two references to the same index are two references to the same
 * Python object. Every stage builds arenas in which a node's children sit at
 * lower indices than the node itself (`Ordered`), which is what makes the graph
 * acyclic and lets definitions recurse on the index.
 */
module DafsaGraph {

  /** The Python exceptions the builder can raise. */
  datatype Error = InputError | IndexError | KeyError | AssertionError

  datatype Result<T> = Ok(value: T) | Err(error: Error)

  /** A reference to a node: the sink (`None`) or an arena index. */
  datatype Target = Sink | At(index: nat)

  /** An internal node `(label, [children])`; `text` is the label. */
  datatype Node = Node(text: string, children: seq<Target>)

  /** A DAFSA: the arena and the source node's list of children. */
  datatype Graph = Graph(nodes: seq<Node>, source: seq<Target>)

  predicate Below(t: Target, n: nat) {
    t.At? ==> t.index < n
  }

  predicate AllBelow(ts: seq<Target>, n: nat) {
    forall t :: t in ts ==> Below(t, n)
  }

  /** Every child of a node sits at a lower index than the node. */
  predicate Ordered(ns: seq<Node>) {
    forall i :: 0 <= i < |ns| ==> AllBelow(ns[i].children, i)
  }

  predicate WellFormed(g: Graph) {
    Ordered(g.nodes) && AllBelow(g.source, |g.nodes|)
  }

  function Rank(t: Target): nat {
    if t.At? then t.index + 1 else 0
  }

  // ---------------------------------------------------------------------------
  // Words

  /** The words spelled along the paths from `t` to the sink. */
  function Lang(ns: seq<Node>, t: Target): set<string>
    requires Ordered(ns) && Below(t, |ns|)
    decreases Rank(t), 1
  {
    match t
    case Sink => {""}
    case At(i) => Prefix(ns[i].text, ChildLang(ns, i, 0))
  }

  /** The words through the children of node `i` from the `k`-th on, without
      the node's own text. */
  function ChildLang(ns: seq<Node>, i: nat, k: nat): set<string>
    requires Ordered(ns) && i < |ns| && k <= |ns[i].children|
    decreases i + 1, 0, |ns[i].children| - k
  {
    if k == |ns[i].children| then {}
    else
      assert ns[i].children[k] in ns[i].children;
      Lang(ns, ns[i].children[k]) + ChildLang(ns, i, k + 1)
  }

  /** Each word of `ws` behind `p`. */
  function Prefix(p: string, ws: set<string>): set<string> {
    set w | w in ws :: p + w
  }

  /** The words of a list of children (the source, or a node's children). */
  function LangOf(ns: seq<Node>, ts: seq<Target>): set<string>
    requires Ordered(ns) && AllBelow(ts, |ns|)
  {
    if ts == [] then {}
    else
      assert ts[0] in ts;
      Lang(ns, ts[0]) + LangOf(ns, ts[1..])
  }

  /** The word set of a whole DAFSA: every path from the source to the sink. */
  function Words(g: Graph): set<string>
    requires WellFormed(g)
  {
    LangOf(g.nodes, g.source)
  }

  lemma {:induction false} PrefixMember(p: string, ws: set<string>, v: string)
    ensures p + v in Prefix(p, ws) <==> v in ws
  {
    if p + v in Prefix(p, ws) {
      var u :| u in ws && p + v == p + u;
      assert v == (p + v)[|p|..] == (p + u)[|p|..] == u;
    }
  }

  /** A word of a list of children is a word of one of them, by position. */
  lemma {:induction false} LangOfMember(ns: seq<Node>, ts: seq<Target>, w: string)
    requires Ordered(ns) && AllBelow(ts, |ns|)
    ensures w in LangOf(ns, ts) <==> exists j :: 0 <= j < |ts| && w in Lang(ns, ts[j])
    decreases |ts|
  {
    if ts != [] {
      LangOfMember(ns, ts[1..], w);
      if exists j :: 0 <= j < |ts| && w in Lang(ns, ts[j]) {
        var j :| 0 <= j < |ts| && w in Lang(ns, ts[j]);
        if j > 0 {
          assert ts[1..][j - 1] == ts[j];
        }
      }
      if exists j :: 0 <= j < |ts| - 1 && w in Lang(ns, ts[1..][j]) {
        var j :| 0 <= j < |ts| - 1 && w in Lang(ns, ts[1..][j]);
        assert ts[1..][j] == ts[j + 1];
      }
    }
  }

  /** The words through a node's children, read off the list of children. */
  lemma {:induction false} ChildLangIsLangOf(ns: seq<Node>, i: nat, k: nat)
    requires Ordered(ns) && i < |ns| && k <= |ns[i].children|
    ensures AllBelow(ns[i].children[k..], |ns|)
    ensures ChildLang(ns, i, k) == LangOf(ns, ns[i].children[k..])
    decreases |ns[i].children| - k
  {
    var cs := ns[i].children;
    assert AllBelow(cs[k..], |ns|) by {
      forall c | c in cs[k..] ensures Below(c, |ns|) {
        assert c in cs;
      }
    }
    if k < |cs| {
      ChildLangIsLangOf(ns, i, k + 1);
      assert cs[k..][1..] == cs[k + 1..];
    }
  }

  /** The words of node `i`: its text followed by a word of one of its children. */
  lemma {:induction false} LangNode(ns: seq<Node>, i: nat)
    requires Ordered(ns) && i < |ns|
    ensures Lang(ns, At(i)) == Prefix(ns[i].text, LangOf(ns, ns[i].children))
  {
    ChildLangIsLangOf(ns, i, 0);
    assert ns[i].children[0..] == ns[i].children;
  }

  /** The words of a list, as a set. */
  function Elems(ws: seq<string>): set<string> {
    set w | w in ws
  }

  /** Children that spell one word each spell, together, the words of the list. */
  lemma {:induction false} LangOfSingletons(ns: seq<Node>, ts: seq<Target>, ws: seq<string>)
    requires Ordered(ns) && AllBelow(ts, |ns|) && |ts| == |ws|
    requires forall i :: 0 <= i < |ts| ==> Lang(ns, ts[i]) == {ws[i]}
    ensures LangOf(ns, ts) == Elems(ws)
    decreases |ts|
  {
    if ts != [] {
      assert forall i :: 0 <= i < |ts| - 1 ==> ts[1..][i] == ts[i + 1] && ws[1..][i] == ws[i + 1];
      LangOfSingletons(ns, ts[1..], ws[1..]);
      assert Lang(ns, ts[0]) == {ws[0]};
      ElemsCons(ws);
    }
  }

  lemma {:induction false} ElemsCons(ws: seq<string>)
    requires ws != []
    ensures Elems(ws) == {ws[0]} + Elems(ws[1..])
  {
    assert ws == [ws[0]] + ws[1..];
    forall w | w in Elems(ws) ensures w in {ws[0]} + Elems(ws[1..]) {
      assert w in ws;
    }
  }

  /** Each word of `ws` behind `prefix`. */
  function Prefixed(prefix: string, ws: seq<string>): (r: seq<string>)
    ensures |r| == |ws|
    ensures forall j :: 0 <= j < |ws| ==> r[j] == prefix + ws[j]
  {
    seq(|ws|, j requires 0 <= j < |ws| => prefix + ws[j])
  }

  lemma {:induction false} PrefixedMember(p: string, ws: seq<string>, w: string)
    ensures w in Prefixed(p, ws) <==> exists v :: v in ws && w == p + v
  {
    var r := Prefixed(p, ws);
    if w in r {
      var j :| 0 <= j < |r| && r[j] == w;
      assert ws[j] in ws;
    }
    if exists v :: v in ws && w == p + v {
      var v :| v in ws && w == p + v;
      var j :| 0 <= j < |ws| && ws[j] == v;
      assert r[j] == w;
    }
  }

  /** `to_words`: the word list of a node, child by child, in Python's order. */
  function ToWords(ns: seq<Node>, t: Target): seq<string>
    requires Ordered(ns) && Below(t, |ns|)
    decreases Rank(t), 1
  {
    match t
    case Sink => [""]
    case At(i) => ChildWords(ns, i, 0)
  }

  /** The words through the children of node `i` from the `k`-th on. */
  function ChildWords(ns: seq<Node>, i: nat, k: nat): seq<string>
    requires Ordered(ns) && i < |ns| && k <= |ns[i].children|
    decreases i + 1, 0, |ns[i].children| - k
  {
    if k == |ns[i].children| then []
    else
      assert ns[i].children[k] in ns[i].children;
      Prefixed(ns[i].text, ToWords(ns, ns[i].children[k])) + ChildWords(ns, i, k + 1)
  }

  /** `to_words` lists exactly the words of the node (in some order, possibly repeated). */
  lemma {:induction false} ToWordsLang(ns: seq<Node>, t: Target)
    requires Ordered(ns) && Below(t, |ns|)
    ensures forall w :: w in ToWords(ns, t) <==> w in Lang(ns, t)
    decreases Rank(t), 1
  {
    if t.At? {
      ChildWordsLang(ns, t.index, 0);
    }
  }

  lemma {:induction false} ChildWordsLang(ns: seq<Node>, i: nat, k: nat)
    requires Ordered(ns) && i < |ns| && k <= |ns[i].children|
    ensures forall w :: w in ChildWords(ns, i, k) <==> w in Prefix(ns[i].text, ChildLang(ns, i, k))
    decreases i + 1, 0, |ns[i].children| - k
  {
    var cs := ns[i].children;
    var p := ns[i].text;
    if k < |cs| {
      assert cs[k] in cs;
      ToWordsLang(ns, cs[k]);
      ChildWordsLang(ns, i, k + 1);
      forall w ensures w in ChildWords(ns, i, k) <==> w in Prefix(p, ChildLang(ns, i, k)) {
        PrefixedMember(p, ToWords(ns, cs[k]), w);
        if w in Prefix(p, ChildLang(ns, i, k)) {
          var v :| v in ChildLang(ns, i, k) && w == p + v;
          PrefixMember(p, ChildLang(ns, i, k + 1), v);
        }
      }
    }
  }

  /** `us` in arena `ms` spell, member by member, the words of `ts` in arena `ns`. */
  ghost predicate SameLangs(ns: seq<Node>, ms: seq<Node>, ts: seq<Target>, us: seq<Target>)
    requires Ordered(ns) && Ordered(ms)
  {
    |ts| == |us|
    && forall j :: 0 <= j < |ts| ==> Below(ts[j], |ns|) && Below(us[j], |ms|) && Lang(ms, us[j]) == Lang(ns, ts[j])
  }

  /** Lists whose members spell the same words pairwise spell the same words together. */
  lemma {:induction false} LangOfSame(ns: seq<Node>, ms: seq<Node>, ts: seq<Target>, us: seq<Target>)
    requires Ordered(ns) && Ordered(ms) && AllBelow(ts, |ns|) && AllBelow(us, |ms|) && SameLangs(ns, ms, ts, us)
    ensures LangOf(ms, us) == LangOf(ns, ts)
    decreases |ts|
  {
    if ts != [] {
      assert ts[0] in ts && us[0] in us;
      assert forall j :: 0 <= j < |ts| - 1 ==> ts[1..][j] == ts[j + 1] && us[1..][j] == us[j + 1];
      LangOfSame(ns, ms, ts[1..], us[1..]);
    }
  }

  /** A node with a single child spells that child's words behind its text. */
  lemma {:induction false} LangOneChild(ns: seq<Node>, i: nat, t: Target, u: string)
    requires Ordered(ns) && i < |ns| && ns[i].children == [t]
    requires Below(t, |ns|) && Lang(ns, t) == {u}
    ensures Lang(ns, At(i)) == {ns[i].text + u}
  {
    assert ChildLang(ns, i, 1) == {};
    assert ChildLang(ns, i, 0) == {u};
  }

  /** The same for `to_words`: the single child's list, each word behind the text. */
  lemma {:induction false} ToWordsOneChild(ns: seq<Node>, i: nat, t: Target, u: string)
    requires Ordered(ns) && i < |ns| && ns[i].children == [t]
    requires Below(t, |ns|) && ToWords(ns, t) == [u]
    ensures ToWords(ns, At(i)) == [ns[i].text + u]
  {
    assert ChildWords(ns, i, 1) == [];
  }

  /** Appending a node whose children are already in the arena keeps it ordered. */
  lemma {:induction false} AppendOrdered(ns: seq<Node>, n: Node)
    requires Ordered(ns) && AllBelow(n.children, |ns|)
    ensures Ordered(ns + [n]) && (ns + [n])[..|ns|] == ns
  {
    var ms := ns + [n];
    assert ms[..|ns|] == ns;
    forall i | 0 <= i < |ms| ensures AllBelow(ms[i].children, i) {
      if i < |ns| { assert ms[i] == ns[i]; }
    }
  }

  /** Appending nodes to an arena leaves the words of the nodes already there alone. */
  lemma {:induction false} LangExtend(ns: seq<Node>, ms: seq<Node>, t: Target)
    requires Ordered(ns) && Ordered(ms) && |ns| <= |ms| && ms[..|ns|] == ns
    requires Below(t, |ns|)
    ensures Lang(ms, t) == Lang(ns, t)
    decreases Rank(t), 1
  {
    if t.At? {
      ChildLangExtend(ns, ms, t.index, 0);
    }
  }

  lemma {:induction false} ChildLangExtend(ns: seq<Node>, ms: seq<Node>, i: nat, k: nat)
    requires Ordered(ns) && Ordered(ms) && |ns| <= |ms| && ms[..|ns|] == ns
    requires i < |ns| && k <= |ns[i].children|
    ensures ms[i] == ns[i] && ChildLang(ms, i, k) == ChildLang(ns, i, k)
    decreases i + 1, 0, |ns[i].children| - k
  {
    assert ms[i] == ns[..|ns|][i];
    if k < |ns[i].children| {
      assert ns[i].children[k] in ns[i].children;
      LangExtend(ns, ms, ns[i].children[k]);
      ChildLangExtend(ns, ms, i, k + 1);
    }
  }

  lemma {:induction false} LangOfExtend(ns: seq<Node>, ms: seq<Node>, ts: seq<Target>)
    requires Ordered(ns) && Ordered(ms) && |ns| <= |ms| && ms[..|ns|] == ns
    requires AllBelow(ts, |ns|)
    ensures LangOf(ms, ts) == LangOf(ns, ts)
    decreases |ts|
  {
    if ts != [] {
      assert ts[0] in ts;
      LangExtend(ns, ms, ts[0]);
      LangOfExtend(ns, ms, ts[1..]);
    }
  }

  /** Appending nodes leaves `to_words` of the nodes already there alone. */
  lemma {:induction false} ToWordsExtend(ns: seq<Node>, ms: seq<Node>, t: Target)
    requires Ordered(ns) && Ordered(ms) && |ns| <= |ms| && ms[..|ns|] == ns
    requires Below(t, |ns|)
    ensures ToWords(ms, t) == ToWords(ns, t)
    decreases Rank(t), 1
  {
    if t.At? {
      ChildWordsExtend(ns, ms, t.index, 0);
    }
  }

  lemma {:induction false} ChildWordsExtend(ns: seq<Node>, ms: seq<Node>, i: nat, k: nat)
    requires Ordered(ns) && Ordered(ms) && |ns| <= |ms| && ms[..|ns|] == ns
    requires i < |ns| && k <= |ns[i].children|
    ensures ms[i] == ns[i] && ChildWords(ms, i, k) == ChildWords(ns, i, k)
    decreases i + 1, 0, |ns[i].children| - k
  {
    assert ms[i] == ns[..|ns|][i];
    if k < |ns[i].children| {
      assert ns[i].children[k] in ns[i].children;
      ToWordsExtend(ns, ms, ns[i].children[k]);
      ChildWordsExtend(ns, ms, i, k + 1);
    }
  }

  // ---------------------------------------------------------------------------
  // Reachability and reference counts

  /** Node `x` lies on a path from the source. */
  ghost predicate Reachable(g: Graph, x: nat)
    decreases |g.nodes| - x
  {
    At(x) in g.source
    || exists p :: x < p < |g.nodes| && At(x) in g.nodes[p].children && Reachable(g, p)
  }

  /** Occurrences of `t` in a list of children. */
  function Count(ts: seq<Target>, t: Target): (r: nat)
    ensures r <= |ts|
    ensures r > 0 <==> t in ts
  {
    if ts == [] then 0 else Count(ts[..|ts| - 1], t) + (if ts[|ts| - 1] == t then 1 else 0)
  }

  lemma {:induction false} CountAppend(ts: seq<Target>, u: Target, t: Target)
    ensures Count(ts + [u], t) == Count(ts, t) + (if u == t then 1 else 0)
  {
    assert (ts + [u])[..|ts|] == ts;
  }

  /** References to `t` from the children lists of the nodes in `s` with index below `k`. */
  function RefsBelow(ns: seq<Node>, s: set<nat>, t: Target, k: nat): nat
    requires k <= |ns|
  {
    if k == 0 then 0
    else RefsBelow(ns, s, t, k - 1) + (if k - 1 in s then Count(ns[k - 1].children, t) else 0)
  }

  /** References to `t` from the children lists of the nodes in `s`. */
  function Refs(ns: seq<Node>, s: set<nat>, t: Target): nat {
    RefsBelow(ns, s, t, |ns|)
  }

  lemma {:induction false} RefsBelowUnion(ns: seq<Node>, s: set<nat>, u: set<nat>, t: Target, k: nat)
    requires k <= |ns| && s !! u
    ensures RefsBelow(ns, s + u, t, k) == RefsBelow(ns, s, t, k) + RefsBelow(ns, u, t, k)
  {
    if k > 0 {
      RefsBelowUnion(ns, s, u, t, k - 1);
    }
  }

  lemma {:induction false} RefsBelowEmpty(ns: seq<Node>, t: Target, k: nat)
    requires k <= |ns|
    ensures RefsBelow(ns, {}, t, k) == 0
  {
    if k > 0 {
      RefsBelowEmpty(ns, t, k - 1);
    }
  }

  lemma {:induction false} RefsBelowSingle(ns: seq<Node>, x: nat, t: Target, k: nat)
    requires k <= |ns|
    ensures RefsBelow(ns, {x}, t, k) == if x < k then Count(ns[x].children, t) else 0
  {
    if k > 0 {
      RefsBelowSingle(ns, x, t, k - 1);
    }
  }

  /** Splitting off disjoint parts of a node set splits its reference counts. */
  lemma {:induction false} RefsUnion(ns: seq<Node>, s: set<nat>, u: set<nat>, t: Target)
    requires s !! u
    ensures Refs(ns, s + u, t) == Refs(ns, s, t) + Refs(ns, u, t)
  {
    RefsBelowUnion(ns, s, u, t, |ns|);
  }

  lemma {:induction false} RefsEmpty(ns: seq<Node>, t: Target)
    ensures Refs(ns, {}, t) == 0
  {
    RefsBelowEmpty(ns, t, |ns|);
  }

  lemma {:induction false} RefsSingle(ns: seq<Node>, x: nat, t: Target)
    requires x < |ns|
    ensures Refs(ns, {x}, t) == Count(ns[x].children, t)
  {
    RefsBelowSingle(ns, x, t, |ns|);
  }

  /** The reachable nodes. */
  ghost function ReachSet(g: Graph): set<nat> {
    set x | 0 <= x < |g.nodes| && Reachable(g, x)
  }

  /** References to `t` from the source and from every reachable node. */
  ghost function InDegree(g: Graph, t: Target): nat {
    Count(g.source, t) + Refs(g.nodes, ReachSet(g), t)
  }

  /** Within a well-formed graph, a set that holds the source's nodes and every
      child of its members holds every reachable node. */
  lemma {:induction false} ClosedHoldsReachable(g: Graph, v: set<nat>, x: nat)
    requires WellFormed(g)
    requires forall r :: r in g.source && r.At? ==> r.index in v
    requires forall p, c :: p in v && 0 <= p < |g.nodes| && c in g.nodes[p].children && c.At? ==> c.index in v
    requires Reachable(g, x)
    ensures x in v
    decreases |g.nodes| - x
  {
    if At(x) !in g.source {
      var p :| x < p < |g.nodes| && At(x) in g.nodes[p].children && Reachable(g, p);
      ClosedHoldsReachable(g, v, p);
    }
  }

  /** The children of a reachable node are reachable. */
  lemma {:induction false} ChildReachable(g: Graph, p: nat, c: nat)
    requires WellFormed(g) && p < |g.nodes| && At(c) in g.nodes[p].children && Reachable(g, p)
    ensures Reachable(g, c)
  {
    assert Below(At(c), p);
  }

  /** Reachable nodes are in the arena. */
  lemma {:induction false} ReachableInArena(g: Graph, x: nat)
    requires WellFormed(g) && Reachable(g, x)
    ensures x < |g.nodes|
  {
    if At(x) in g.source {
      assert Below(At(x), |g.nodes|);
    }
  }

  /** `r` holds the source's nodes and the children of its members. */
  ghost predicate Closed(g: Graph, r: set<nat>) {
    (forall x :: x in r ==> x < |g.nodes|)
    && (forall c :: c in g.source && c.At? ==> c.index in r)
    && (forall p, c :: p in r && p < |g.nodes| && c in g.nodes[p].children && c.At? ==> c.index in r)
  }

  /** The reachable nodes form a closed set. */
  lemma {:induction false} ReachClosed(g: Graph)
    requires WellFormed(g)
    ensures Closed(g, ReachSet(g))
  {
    var r := ReachSet(g);
    forall c | c in g.source && c.At? ensures c.index in r {
      assert Below(c, |g.nodes|);
    }
    forall p, c | p in r && p < |g.nodes| && c in g.nodes[p].children && c.At? ensures c.index in r {
      ChildReachable(g, p, c.index);
      ReachableInArena(g, c.index);
    }
  }

  lemma {:induction false} CountPrefix(ts: seq<Target>, k: nat, t: Target)
    requires k < |ts|
    ensures Count(ts[..k + 1], t) == Count(ts[..k], t) + (if ts[k] == t then 1 else 0)
  {
    assert ts[..k + 1] == ts[..k] + [ts[k]];
    CountAppend(ts[..k], ts[k], t);
  }

  /** A set of reachable nodes that holds the source's nodes and the children
      of its members is the set of all reachable nodes. */
  lemma {:induction false} ClosedIsReachSet(g: Graph, v: set<nat>)
    requires WellFormed(g) && v <= ReachSet(g)
    requires forall c :: c in g.source && c.At? ==> c.index in v
    requires forall p, c :: p in v && p < |g.nodes| && c in g.nodes[p].children && c.At? ==> c.index in v
    ensures v == ReachSet(g)
  {
    forall x | x in ReachSet(g) ensures x in v {
      ClosedHoldsReachable(g, v, x);
    }
  }

  /** Every child of a node in `fin` is in `seen`. */
  ghost predicate Shut(g: Graph, fin: set<nat>, seen: set<nat>) {
    forall p | p in fin :: p < |g.nodes| && forall c :: c in g.nodes[p].children && c.At? ==> c.index in seen
  }

  /** No element of `s` occurs twice. */
  predicate Distinct<T(==)>(s: seq<T>) {
    forall i, j :: 0 <= i < j < |s| ==> s[i] != s[j]
  }

  lemma {:induction false} CountCons(u: Target, ts: seq<Target>, t: Target)
    ensures Count([u] + ts, t) == (if u == t then 1 else 0) + Count(ts, t)
    decreases |ts|
  {
    if ts != [] {
      var ts' := ts[..|ts| - 1];
      assert ([u] + ts)[..|ts|] == [u] + ts';
      CountCons(u, ts', t);
    }
  }

  /** A node of `s` contributes its own references to those of `s`. */
  lemma {:induction false} RefsMember(ns: seq<Node>, s: set<nat>, x: nat, t: Target)
    requires x in s && x < |ns|
    ensures Refs(ns, s, t) == Refs(ns, s - {x}, t) + Count(ns[x].children, t)
  {
    assert s == (s - {x}) + {x};
    RefsUnion(ns, s - {x}, {x}, t);
    RefsSingle(ns, x, t);
  }

  lemma {:induction false} RefsBelowPositive(ns: seq<Node>, s: set<nat>, t: Target, k: nat)
    requires k <= |ns| && RefsBelow(ns, s, t, k) > 0
    ensures exists p :: p in s && p < k && t in ns[p].children
  {
    if k - 1 in s && Count(ns[k - 1].children, t) > 0 {
    } else {
      RefsBelowPositive(ns, s, t, k - 1);
    }
  }

  /** A referenced target has a parent in the set. */
  lemma {:induction false} RefsPositive(ns: seq<Node>, s: set<nat>, t: Target)
    requires Refs(ns, s, t) > 0
    ensures exists p :: p in s && p < |ns| && t in ns[p].children
  {
    RefsBelowPositive(ns, s, t, |ns|);
  }

  /** A reachable node that the source does not list has a reachable parent. */
  lemma {:induction false} ReachedByParent(g: Graph, x: nat)
    requires WellFormed(g) && x in ReachSet(g) && At(x) !in g.source
    ensures Refs(g.nodes, ReachSet(g), At(x)) > 0
  {
    var p :| x < p < |g.nodes| && At(x) in g.nodes[p].children && Reachable(g, p);
    assert p in ReachSet(g);
    RefsMember(g.nodes, ReachSet(g), p, At(x));
  }

  /** Python's `s[::-1]`, `reversed(s)` and in-place `s.reverse()`. */
  function Rev<T>(s: seq<T>): (r: seq<T>)
    ensures |r| == |s|
    ensures forall i :: 0 <= i < |s| ==> r[i] == s[|s| - 1 - i]
  {
    if s == [] then [] else Rev(s[1..]) + [s[0]]
  }

  lemma {:induction false} RevAppend<T>(a: seq<T>, b: seq<T>)
    ensures Rev(a + b) == Rev(b) + Rev(a)
  {
    var l, r := Rev(a + b), Rev(b) + Rev(a);
    assert |l| == |r|;
    forall i | 0 <= i < |l| ensures l[i] == r[i] {
      if i < |b| {
        assert l[i] == (a + b)[|a| + |b| - 1 - i] == b[|b| - 1 - i];
      } else {
        assert l[i] == (a + b)[|a| + |b| - 1 - i] == a[|a| - 1 - (i - |b|)];
      }
    }
  }

  lemma {:induction false} RevRev<T>(s: seq<T>)
    ensures Rev(Rev(s)) == s
  {
  }

  lemma {:induction false} PrefixPrefix(a: string, b: string, ws: set<string>)
    ensures Prefix(a + b, ws) == Prefix(a, Prefix(b, ws))
  {
    forall w | w in Prefix(a, Prefix(b, ws)) ensures w in Prefix(a + b, ws) {
      var v :| v in Prefix(b, ws) && w == a + v;
      var u :| u in ws && v == b + u;
      assert w == (a + b) + u;
    }
    forall w | w in Prefix(a + b, ws) ensures w in Prefix(a, Prefix(b, ws)) {
      var u :| u in ws && w == (a + b) + u;
      assert b + u in Prefix(b, ws);
      assert w == a + (b + u);
    }
  }
}
