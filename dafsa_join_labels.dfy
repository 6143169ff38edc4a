/**
 * `join_labels`: a new DAFSA in which a node with a single child is merged
 * with that child when the child has no other parent, so that chains of
 * one-to-one nodes become one node with the concatenated label.
 *
 * The Python function first counts the references to every node reachable
 * from the source (`count_parents`), starting the sink's count at 2 so that
 * the sink is never merged into its parent. It then rebuilds the graph
 * bottom-up (`join`), memoised on the old node: a node whose only child has
 * count 1 becomes a node with the concatenated label and the joined child's
 * children; any other node keeps its label and gets the joined children.
 * Old nodes are arena targets here, and new nodes are appended to a fresh
 * arena after their children.
 */
module DafsaJoinLabels {
  import opened DafsaGraph

  // ---------------------------------------------------------------------------
  // count_parents

  /** `parentcount[t]`, with 0 for a node not counted. */
  function Get(pc: map<Target, nat>, t: Target): nat {
    if t in pc then pc[t] else 0
  }

  /** The count map holds the sink and exactly the nodes in `seen`, all of them in `r`. */
  ghost predicate Keys(g: Graph, r: set<nat>, pc: map<Target, nat>, seen: set<nat>) {
    WellFormed(g) && Closed(g, r) && seen <= r && Sink in pc
    && forall x :: At(x) in pc <==> x in seen
  }

  /** `count_parents(node)`: one more reference to `t`, and on the first visit
      of a node a visit of each of its children. The nodes first visited are
      `fin`, and their children lists add their references. */
  method CountParents(g: Graph, ghost r: set<nat>, t: Target, pc: map<Target, nat>, ghost seen: set<nat>)
    returns (pc': map<Target, nat>, ghost fin: set<nat>)
    requires Keys(g, r, pc, seen) && Below(t, |g.nodes|) && (t.At? ==> t.index in r)
    ensures Keys(g, r, pc', seen + fin) && seen !! fin && Shut(g, fin, seen + fin)
    ensures t.At? ==> t.index in seen + fin
    ensures forall y :: Get(pc', y) == Get(pc, y) + (if y == t then 1 else 0) + Refs(g.nodes, fin, y)
    decreases Rank(t)
  {
    if t in pc {
      pc', fin := pc[t := pc[t] + 1], {};
      forall y ensures Refs(g.nodes, {}, y) == 0 {
        RefsEmpty(g.nodes, y);
      }
    } else {
      var x := t.index;
      var cs := g.nodes[x].children;
      pc' := pc[t := 1];
      ghost var done: set<nat> := {};
      forall y ensures Refs(g.nodes, {}, y) == 0 {
        RefsEmpty(g.nodes, y);
      }
      for k := 0 to |cs|
        invariant Keys(g, r, pc', seen + {x} + done) && (seen + {x}) !! done && Shut(g, done, seen + {x} + done)
        invariant forall c :: c in cs[..k] && c.At? ==> c.index in seen + {x} + done
        invariant forall y :: Get(pc', y) == Get(pc, y) + (if y == t then 1 else 0) + Count(cs[..k], y) + Refs(g.nodes, done, y)
      {
        assert cs[k] in cs;
        ghost var before := pc';
        ghost var more;
        pc', more := CountParents(g, r, cs[k], pc', seen + {x} + done);
        forall y
          ensures Get(pc', y) == Get(pc, y) + (if y == t then 1 else 0) + Count(cs[..k + 1], y) + Refs(g.nodes, done + more, y)
        {
          CountPrefix(cs, k, y);
          RefsUnion(g.nodes, done, more, y);
        }
        assert cs[..k + 1] == cs[..k] + [cs[k]];
        done := done + more;
      }
      fin := {x} + done;
      assert cs[..|cs|] == cs;
      forall y ensures Refs(g.nodes, fin, y) == Count(cs, y) + Refs(g.nodes, done, y) {
        RefsUnion(g.nodes, {x}, done, y);
        RefsSingle(g.nodes, x, y);
      }
    }
  }

  /** The first loop of `join_labels`: `count_parents` from every child of
      the source. The sink's count is 2 more than its references. */
  method CountAll(g: Graph) returns (pc: map<Target, nat>)
    requires WellFormed(g)
    ensures Sink in pc && forall x :: At(x) in pc <==> x in ReachSet(g)
    ensures forall y :: Get(pc, y) == (if y == Sink then 2 else 0) + InDegree(g, y)
  {
    ghost var r := ReachSet(g);
    ReachClosed(g);
    pc := map[Sink := 2];
    ghost var seen: set<nat> := {};
    forall y ensures Refs(g.nodes, {}, y) == 0 {
      RefsEmpty(g.nodes, y);
    }
    for k := 0 to |g.source|
      invariant Keys(g, r, pc, seen) && Shut(g, seen, seen)
      invariant forall c :: c in g.source[..k] && c.At? ==> c.index in seen
      invariant forall y :: Get(pc, y) == (if y == Sink then 2 else 0) + Count(g.source[..k], y) + Refs(g.nodes, seen, y)
    {
      var c := g.source[k];
      assert c in g.source;
      ghost var fin;
      ghost var before := pc;
      pc, fin := CountParents(g, r, c, pc, seen);
      forall y
        ensures Get(pc, y) == (if y == Sink then 2 else 0) + Count(g.source[..k + 1], y) + Refs(g.nodes, seen + fin, y)
      {
        CountPrefix(g.source, k, y);
        RefsUnion(g.nodes, seen, fin, y);
      }
      assert g.source[..k + 1] == g.source[..k] + [c];
      seen := seen + fin;
    }
    assert g.source[..|g.source|] == g.source;
    ClosedIsReachSet(g, seen);
  }

  // ---------------------------------------------------------------------------
  // join

  /** The new arena, and Python's `nodemap` from old targets to new ones. */
  datatype Labels = Labels(nodes: seq<Node>, nodemap: map<Target, Target>)

  /** `[nodemap[c] for c in cs]`. */
  function MapAll(m: map<Target, Target>, cs: seq<Target>): (us: seq<Target>)
    requires forall c :: c in cs ==> c in m
    ensures |us| == |cs| && forall j :: 0 <= j < |cs| ==> us[j] == m[cs[j]]
  {
    seq(|cs|, j requires 0 <= j < |cs| => m[cs[j]])
  }

  /** The new node of old node `x`: when `merge`, the old label followed by
      the label of the new node of the only child, over that node's children;
      otherwise the old label over the new nodes of the children. */
  ghost predicate ShapedBy(g: Graph, ns: seq<Node>, m: map<Target, Target>, x: nat, merge: bool)
    requires x < |g.nodes|
  {
    var cs := g.nodes[x].children;
    At(x) in m && m[At(x)].At? && m[At(x)].index < |ns|
    && (forall c :: c in cs ==> c in m)
    && var nx := ns[m[At(x)].index];
       if merge then
         |cs| == 1 && m[cs[0]].At? && m[cs[0]].index < |ns|
         && nx == Node(g.nodes[x].text + ns[m[cs[0]].index].text, ns[m[cs[0]].index].children)
       else nx == Node(g.nodes[x].text, MapAll(m, cs))
  }

  /** `len(children) == 1 and parentcount[id(node[1][0])] == 1`. */
  function Merges(g: Graph, pc: map<Target, nat>, x: nat): bool
    requires x < |g.nodes|
  {
    |g.nodes[x].children| == 1 && Get(pc, g.nodes[x].children[0]) == 1
  }

  /** The entry of old target `t`: a target of the new arena of the same kind
      that spells the same words, shaped as `join` builds it. */
  ghost predicate Entry(g: Graph, pc: map<Target, nat>, st: Labels, t: Target)
    requires Ordered(g.nodes) && Ordered(st.nodes) && t in st.nodemap
  {
    var u := st.nodemap[t];
    Below(t, |g.nodes|) && Below(u, |st.nodes|) && (u == Sink <==> t == Sink)
    && Lang(st.nodes, u) == Lang(g.nodes, t)
    && (t.At? ==> ShapedBy(g, st.nodes, st.nodemap, t.index, Merges(g, pc, t.index)))
  }

  ghost predicate Joined(g: Graph, pc: map<Target, nat>, st: Labels) {
    Ordered(g.nodes) && Ordered(st.nodes) && Sink in st.nodemap
    && forall t :: t in st.nodemap ==> Entry(g, pc, st, t)
  }

  /** The new arena only grows at its end and recorded entries never change. */
  predicate Stable(st: Labels, st': Labels) {
    |st.nodes| <= |st'.nodes| && st'.nodes[..|st.nodes|] == st.nodes
    && forall t :: t in st.nodemap ==> t in st'.nodemap && st'.nodemap[t] == st.nodemap[t]
  }

  lemma {:induction false} StableTrans(a: Labels, b: Labels, c: Labels)
    requires Stable(a, b) && Stable(b, c)
    ensures Stable(a, c)
  {
    assert c.nodes[..|a.nodes|] == c.nodes[..|b.nodes|][..|a.nodes|];
  }

  /** An entry stays valid while the state only grows. */
  lemma {:induction false} EntryStable(g: Graph, pc: map<Target, nat>, st: Labels, st': Labels, t: Target)
    requires Ordered(g.nodes) && Ordered(st.nodes) && Ordered(st'.nodes) && Stable(st, st')
    requires t in st.nodemap && Entry(g, pc, st, t)
    ensures t in st'.nodemap && Entry(g, pc, st', t)
  {
    LangExtend(st.nodes, st'.nodes, st.nodemap[t]);
    if t.At? {
      var cs := g.nodes[t.index].children;
      assert forall i :: 0 <= i < |st.nodes| ==> st'.nodes[i] == st.nodes[i];
      assert MapAll(st'.nodemap, cs) == MapAll(st.nodemap, cs);
    }
  }

  /** The new node built for `x` without a merge spells the words of `x`. */
  lemma {:induction false} KeptLang(g: Graph, pc: map<Target, nat>, st: Labels, x: nat)
    requires Joined(g, pc, st) && x < |g.nodes|
    requires forall c :: c in g.nodes[x].children ==> c in st.nodemap
    ensures AllBelow(MapAll(st.nodemap, g.nodes[x].children), |st.nodes|)
    ensures Prefix(g.nodes[x].text, LangOf(st.nodes, MapAll(st.nodemap, g.nodes[x].children))) == Lang(g.nodes, At(x))
  {
    var cs := g.nodes[x].children;
    var us := MapAll(st.nodemap, cs);
    forall j | 0 <= j < |cs| ensures Below(cs[j], |g.nodes|) && Below(us[j], |st.nodes|) && Lang(st.nodes, us[j]) == Lang(g.nodes, cs[j]) {
      assert cs[j] in cs && Entry(g, pc, st, cs[j]);
    }
    forall u | u in us ensures Below(u, |st.nodes|) {
      var j :| 0 <= j < |us| && us[j] == u;
    }
    forall c | c in cs ensures Below(c, |g.nodes|) {
      assert Entry(g, pc, st, c);
    }
    LangOfSame(g.nodes, st.nodes, cs, us);
    LangNode(g.nodes, x);
  }

  /** The node built for `x` by a merge spells the words of `x`. */
  lemma {:induction false} MergedLang(g: Graph, pc: map<Target, nat>, st: Labels, x: nat)
    requires Joined(g, pc, st) && x < |g.nodes| && |g.nodes[x].children| == 1
    requires g.nodes[x].children[0] in st.nodemap && st.nodemap[g.nodes[x].children[0]].At?
    ensures var ci := st.nodemap[g.nodes[x].children[0]].index;
            ci < |st.nodes| && AllBelow(st.nodes[ci].children, |st.nodes|)
            && Prefix(g.nodes[x].text + st.nodes[ci].text, LangOf(st.nodes, st.nodes[ci].children)) == Lang(g.nodes, At(x))
  {
    var c := g.nodes[x].children[0];
    var ci := st.nodemap[c].index;
    assert Entry(g, pc, st, c);
    var cn := st.nodes[ci];
    assert AllBelow(cn.children, |st.nodes|) by {
      forall d | d in cn.children ensures Below(d, |st.nodes|) {
        assert Below(d, ci);
      }
    }
    LangNode(st.nodes, ci);
    PrefixPrefix(g.nodes[x].text, cn.text, LangOf(st.nodes, cn.children));
    LangNode(g.nodes, x);
    assert g.nodes[x].children == [c];
    assert LangOf(g.nodes, [c]) == Lang(g.nodes, c) by {
      assert [c][1..] == [];
    }
  }

  /** Appending the new node of `x` and recording it keeps every entry. */
  lemma {:induction false} AddEntry(g: Graph, pc: map<Target, nat>, st: Labels, x: nat, node: Node)
    requires Joined(g, pc, st) && x < |g.nodes| && At(x) !in st.nodemap
    requires AllBelow(node.children, |st.nodes|)
    requires Prefix(node.text, LangOf(st.nodes, node.children)) == Lang(g.nodes, At(x))
    requires var st' := Labels(st.nodes + [node], st.nodemap[At(x) := At(|st.nodes|)]);
             ShapedBy(g, st'.nodes, st'.nodemap, x, Merges(g, pc, x))
    ensures var st' := Labels(st.nodes + [node], st.nodemap[At(x) := At(|st.nodes|)]);
            Joined(g, pc, st') && Stable(st, st')
  {
    var st' := Labels(st.nodes + [node], st.nodemap[At(x) := At(|st.nodes|)]);
    AppendOrdered(st.nodes, node);
    assert Stable(st, st');
    forall t | t in st'.nodemap ensures Entry(g, pc, st', t) {
      if t == At(x) {
        LangNode(st'.nodes, |st.nodes|);
        LangOfExtend(st.nodes, st'.nodes, node.children);
      } else {
        EntryStable(g, pc, st, st', t);
      }
    }
  }

  /** The merged node of `x`, appended and recorded, keeps every entry. */
  lemma {:induction false} MergedEntry(g: Graph, pc: map<Target, nat>, st: Labels, x: nat)
    requires Joined(g, pc, st) && x < |g.nodes| && At(x) !in st.nodemap && Merges(g, pc, x)
    requires g.nodes[x].children[0] in st.nodemap && st.nodemap[g.nodes[x].children[0]].At?
    ensures var ci := st.nodemap[g.nodes[x].children[0]].index;
            ci < |st.nodes|
            && var node := Node(g.nodes[x].text + st.nodes[ci].text, st.nodes[ci].children);
               var st' := Labels(st.nodes + [node], st.nodemap[At(x) := At(|st.nodes|)]);
               Joined(g, pc, st') && Stable(st, st')
  {
    var ci := st.nodemap[g.nodes[x].children[0]].index;
    MergedLang(g, pc, st, x);
    AddEntry(g, pc, st, x, Node(g.nodes[x].text + st.nodes[ci].text, st.nodes[ci].children));
  }

  /** The node of `x` with its children mapped, appended and recorded, keeps
      every entry. */
  lemma {:induction false} KeptEntry(g: Graph, pc: map<Target, nat>, st: Labels, x: nat)
    requires Joined(g, pc, st) && x < |g.nodes| && At(x) !in st.nodemap && !Merges(g, pc, x)
    requires forall c :: c in g.nodes[x].children ==> c in st.nodemap
    ensures var node := Node(g.nodes[x].text, MapAll(st.nodemap, g.nodes[x].children));
            var st' := Labels(st.nodes + [node], st.nodemap[At(x) := At(|st.nodes|)]);
            Joined(g, pc, st') && Stable(st, st')
  {
    KeptLang(g, pc, st, x);
    AddEntry(g, pc, st, x, Node(g.nodes[x].text, MapAll(st.nodemap, g.nodes[x].children)));
  }

  /** `join(node)`: the new target for old target `t`. */
  method Join(g: Graph, ghost r: set<nat>, pc: map<Target, nat>, t: Target, st: Labels) returns (u: Target, st': Labels)
    requires Ordered(g.nodes) && Below(t, |g.nodes|) && Joined(g, pc, st)
    requires Counts(g, r, pc) && (t.At? ==> t.index in r)
    ensures Joined(g, pc, st') && Stable(st, st') && t in st'.nodemap && u == st'.nodemap[t]
    ensures forall key :: key in st'.nodemap ==> key in st.nodemap || Rank(key) <= Rank(t)
    decreases Rank(t), 1
  {
    if t in st.nodemap {
      u, st' := st.nodemap[t], st;
    } else {
      var x := t.index;
      var cs := g.nodes[x].children;
      var children;
      children, st' := JoinAll(g, r, pc, cs, x, st);
      var node;
      if |children| == 1 && pc[cs[0]] == 1 {
        assert cs[0] in cs && Entry(g, pc, st', cs[0]);
        var child := children[0];
        node := Node(g.nodes[x].text + st'.nodes[child.index].text, st'.nodes[child.index].children);
        MergedEntry(g, pc, st', x);
      } else {
        node := Node(g.nodes[x].text, children);
        KeptEntry(g, pc, st', x);
      }
      ghost var mid := st';
      u := At(|st'.nodes|);
      st' := Labels(st'.nodes + [node], st'.nodemap[t := u]);
      StableTrans(st, mid, st');
    }
  }

  /** The counts cover every node in `r`, and the sink's count is at least 2. */
  ghost predicate Counts(g: Graph, r: set<nat>, pc: map<Target, nat>) {
    WellFormed(g) && Closed(g, r) && Sink in pc && pc[Sink] >= 2
    && forall x :: x in r ==> At(x) in pc
  }

  lemma {:induction false} MapAllStep(m: map<Target, Target>, m': map<Target, Target>, ts: seq<Target>, k: nat, us: seq<Target>)
    requires k < |ts| && (forall t :: t in ts[..k] ==> t in m) && us == MapAll(m, ts[..k])
    requires (forall t :: t in m ==> t in m' && m'[t] == m[t]) && ts[k] in m'
    ensures (forall t :: t in ts[..k + 1] ==> t in m') && us + [m'[ts[k]]] == MapAll(m', ts[..k + 1])
  {
    assert ts[..k + 1] == ts[..k] + [ts[k]];
  }

  /** `[join(child) for child in ts]`, for a list of targets below `bound`. */
  method JoinAll(g: Graph, ghost r: set<nat>, pc: map<Target, nat>, ts: seq<Target>, bound: nat, st: Labels)
    returns (us: seq<Target>, st': Labels)
    requires Ordered(g.nodes) && bound <= |g.nodes| && AllBelow(ts, bound) && Joined(g, pc, st)
    requires Counts(g, r, pc) && forall t :: t in ts && t.At? ==> t.index in r
    ensures Joined(g, pc, st') && Stable(st, st')
    ensures (forall t :: t in ts ==> t in st'.nodemap) && us == MapAll(st'.nodemap, ts)
    ensures forall key :: key in st'.nodemap ==> key in st.nodemap || Rank(key) <= bound
    decreases bound + 1, 0
  {
    us, st' := [], st;
    for k := 0 to |ts|
      invariant Joined(g, pc, st') && Stable(st, st')
      invariant (forall t :: t in ts[..k] ==> t in st'.nodemap) && us == MapAll(st'.nodemap, ts[..k])
      invariant forall key :: key in st'.nodemap ==> key in st.nodemap || Rank(key) <= bound
    {
      assert ts[k] in ts;
      var u, next := Join(g, r, pc, ts[k], st');
      StableTrans(st, st', next);
      MapAllStep(st'.nodemap, next.nodemap, ts, k, us);
      us, st' := us + [u], next;
    }
    assert ts[..|ts|] == ts;
  }

  /** Node `x` has a single child, which is not the sink and has no other reference. */
  ghost predicate OneToOne(g: Graph, x: nat)
    requires x < |g.nodes|
  {
    var cs := g.nodes[x].children;
    |cs| == 1 && cs[0].At? && InDegree(g, cs[0]) == 1
  }

  /** With the final counts, `join` merges exactly the one-to-one nodes. */
  lemma {:induction false} MergesOneToOne(g: Graph, pc: map<Target, nat>, x: nat)
    requires x < |g.nodes|
    requires forall y :: Get(pc, y) == (if y == Sink then 2 else 0) + InDegree(g, y)
    ensures Merges(g, pc, x) == OneToOne(g, x)
  {
    var cs := g.nodes[x].children;
    if |cs| == 1 {
      assert Get(pc, cs[0]) == (if cs[0] == Sink then 2 else 0) + InDegree(g, cs[0]);
    }
  }

  /** Once the source is joined, every reachable node has an entry. */
  lemma {:induction false} JoinedReach(g: Graph, pc: map<Target, nat>, st: Labels)
    requires WellFormed(g) && Joined(g, pc, st) && forall t :: t in g.source ==> t in st.nodemap
    ensures forall x :: x in ReachSet(g) ==> At(x) in st.nodemap
  {
    var v := set x | 0 <= x < |g.nodes| && At(x) in st.nodemap;
    forall c | c in g.source && c.At? ensures c.index in v {
      assert Entry(g, pc, st, c);
    }
    forall p, c | p in v && p < |g.nodes| && c in g.nodes[p].children && c.At? ensures c.index in v {
      assert Entry(g, pc, st, At(p));
      assert Entry(g, pc, st, c);
    }
    forall x | x in ReachSet(g) ensures At(x) in st.nodemap {
      ClosedHoldsReachable(g, v, x);
    }
  }

  /** `join_labels(dafsa)`: count the parents, then join every child of the
      source. Also returns (as a ghost) the map from old targets to new ones. */
  method JoinLabels(g: Graph) returns (h: Graph, ghost nodemap: map<Target, Target>)
    requires WellFormed(g)
    ensures WellFormed(h) && SameLangs(g.nodes, h.nodes, g.source, h.source) && Words(h) == Words(g)
    ensures forall x :: x in ReachSet(g) ==> ShapedBy(g, h.nodes, nodemap, x, OneToOne(g, x))
  {
    var pc := CountAll(g);
    ghost var r := ReachSet(g);
    ReachClosed(g);
    assert Counts(g, r, pc) by {
      assert Get(pc, Sink) == 2 + InDegree(g, Sink);
      forall x | x in r ensures At(x) in pc {
      }
    }
    var st := Labels([], map[Sink := Sink]);
    assert Entry(g, pc, st, Sink);
    var source;
    source, st := JoinAll(g, r, pc, g.source, |g.nodes|, st);
    h, nodemap := Graph(st.nodes, source), st.nodemap;
    assert AllBelow(source, |st.nodes|) by {
      forall u | u in source ensures Below(u, |st.nodes|) {
        var j :| 0 <= j < |source| && source[j] == u;
        assert g.source[j] in g.source && Entry(g, pc, st, g.source[j]);
      }
    }
    forall j | 0 <= j < |g.source|
      ensures Below(g.source[j], |g.nodes|) && Below(source[j], |st.nodes|) && Lang(st.nodes, source[j]) == Lang(g.nodes, g.source[j])
    {
      assert g.source[j] in g.source && Entry(g, pc, st, g.source[j]);
    }
    LangOfSame(g.nodes, h.nodes, g.source, h.source);
    JoinedReach(g, pc, st);
    forall x | x in ReachSet(g) ensures ShapedBy(g, h.nodes, nodemap, x, OneToOne(g, x)) {
      assert Entry(g, pc, st, At(x));
      MergesOneToOne(g, pc, x);
    }
  }
}
