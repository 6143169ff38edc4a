/**
 * `top_sort`: the nodes reachable from the source, each before its children.
 *
 * The Python function counts, for every reachable node, the references to it
 * from the source and from reachable nodes (`count_incoming`; the sink is not
 * counted), takes the source's own references off again, and then runs Kahn's
 * algorithm with the list `waiting` used as a stack: a node is emitted when no
 * unemitted reachable node refers to it any more. A node is an arena index;
 * `incoming` is keyed by that index.
 */
module DafsaTopSort {
  import opened DafsaGraph

  // ---------------------------------------------------------------------------
  // count_incoming

  /** `incoming[x]`, with 0 for a node not counted. */
  function Num(inc: map<nat, int>, x: nat): int {
    if x in inc then inc[x] else 0
  }

  /** The count map holds exactly the nodes in `seen`, all of them in `r`. */
  ghost predicate Tally(g: Graph, r: set<nat>, inc: map<nat, int>, seen: set<nat>) {
    WellFormed(g) && Closed(g, r) && seen <= r && forall x :: x in inc <==> x in seen
  }

  /** Inside `count_incoming` of node `x` (first visited), after visiting
      the children `ts`: the nodes first visited by those calls are `done`,
      and each count grew by the reference to `x`, the references from `ts`
      and those from `done`. */
  ghost predicate Visiting(g: Graph, r: set<nat>, inc: map<nat, int>, x: nat, seen: set<nat>,
                           inc': map<nat, int>, done: set<nat>, ts: seq<Target>) {
    x !in seen && Tally(g, r, inc', seen + {x} + done) && (seen + {x}) !! done && Shut(g, done, seen + {x} + done)
    && (forall c :: c in ts && c.At? ==> c.index in seen + {x} + done)
    && forall y: nat :: Num(inc', y) == Num(inc, y) + (if x == y then 1 else 0) + Count(ts, At(y)) + Refs(g.nodes, done, At(y))
  }

  lemma {:induction false} VisitingStart(g: Graph, r: set<nat>, inc: map<nat, int>, x: nat, seen: set<nat>)
    requires Tally(g, r, inc, seen) && x in r && x !in seen
    ensures Visiting(g, r, inc, x, seen, inc[x := 1], {}, [])
  {
    forall y: nat ensures Refs(g.nodes, {}, At(y)) == 0 {
      RefsEmpty(g.nodes, At(y));
    }
  }

  /** `count_incoming(child)` for one more child keeps `Visiting`. */
  lemma {:induction false} VisitingStep(g: Graph, r: set<nat>, inc: map<nat, int>, x: nat, seen: set<nat>,
                     inc': map<nat, int>, done: set<nat>, ts: seq<Target>,
                     c: Target, inc'': map<nat, int>, more: set<nat>)
    requires Visiting(g, r, inc, x, seen, inc', done, ts)
    requires Tally(g, r, inc'', seen + {x} + done + more) && (seen + {x} + done) !! more
    requires Shut(g, more, seen + {x} + done + more)
    requires c.At? ==> c.index in seen + {x} + done + more
    requires forall y: nat :: Num(inc'', y) == Num(inc', y) + (if c == At(y) then 1 else 0) + Refs(g.nodes, more, At(y))
    ensures Visiting(g, r, inc, x, seen, inc'', done + more, ts + [c])
  {
    assert seen + {x} + done + more == seen + {x} + (done + more);
    forall y: nat
      ensures Num(inc'', y) == Num(inc, y) + (if x == y then 1 else 0) + Count(ts + [c], At(y)) + Refs(g.nodes, done + more, At(y))
    {
      CountAppend(ts, c, At(y));
      RefsUnion(g.nodes, done, more, At(y));
    }
  }

  /** After the last child, `x` and the nodes first visited below it are the
      new nodes, and their references are the growth of the counts. */
  lemma {:induction false} VisitingDone(g: Graph, r: set<nat>, inc: map<nat, int>, x: nat, seen: set<nat>,
                     inc': map<nat, int>, done: set<nat>)
    requires x < |g.nodes| && Visiting(g, r, inc, x, seen, inc', done, g.nodes[x].children)
    ensures Tally(g, r, inc', seen + ({x} + done)) && seen !! ({x} + done)
    ensures Shut(g, {x} + done, seen + ({x} + done))
    ensures forall y: nat :: Num(inc', y) == Num(inc, y) + (if At(x) == At(y) then 1 else 0) + Refs(g.nodes, {x} + done, At(y))
  {
    assert seen + {x} + done == seen + ({x} + done);
    forall y: nat ensures Refs(g.nodes, {x} + done, At(y)) == Count(g.nodes[x].children, At(y)) + Refs(g.nodes, done, At(y)) {
      RefsUnion(g.nodes, {x}, done, At(y));
      RefsSingle(g.nodes, x, At(y));
    }
  }

  /** `count_incoming(node)`: nothing for the sink; otherwise one more
      reference to `t`, and on the first visit of a node a visit of each of its
      children. The nodes first visited are `fin`. */
  method CountIncoming(g: Graph, ghost r: set<nat>, t: Target, inc: map<nat, int>, ghost seen: set<nat>)
    returns (inc': map<nat, int>, ghost fin: set<nat>)
    requires Tally(g, r, inc, seen) && Below(t, |g.nodes|) && (t.At? ==> t.index in r)
    ensures Tally(g, r, inc', seen + fin) && seen !! fin && Shut(g, fin, seen + fin)
    ensures t.At? ==> t.index in seen + fin
    ensures forall y: nat :: Num(inc', y) == Num(inc, y) + (if t == At(y) then 1 else 0) + Refs(g.nodes, fin, At(y))
    decreases Rank(t)
  {
    forall y: nat ensures Refs(g.nodes, {}, At(y)) == 0 {
      RefsEmpty(g.nodes, At(y));
    }
    if t == Sink {
      inc', fin := inc, {};
    } else if t.index in inc {
      inc', fin := inc[t.index := inc[t.index] + 1], {};
    } else {
      var x := t.index;
      var cs := g.nodes[x].children;
      inc' := inc[x := 1];
      ghost var done: set<nat> := {};
      VisitingStart(g, r, inc, x, seen);
      for k := 0 to |cs|
        invariant Visiting(g, r, inc, x, seen, inc', done, cs[..k])
      {
        assert cs[k] in cs;
        ghost var more;
        var inc'';
        inc'', more := CountIncoming(g, r, cs[k], inc', seen + {x} + done);
        VisitingStep(g, r, inc, x, seen, inc', done, cs[..k], cs[k], inc'', more);
        assert cs[..k + 1] == cs[..k] + [cs[k]];
        inc', done := inc'', done + more;
      }
      assert cs[..|cs|] == cs;
      VisitingDone(g, r, inc, x, seen, inc', done);
      fin := {x} + done;
    }
  }

  /** After `count_incoming` from the targets `ts`: the nodes reached so far
      are `seen`, and each count is the references from `ts` and from `seen`. */
  ghost predicate SourceTally(g: Graph, r: set<nat>, inc: map<nat, int>, seen: set<nat>, ts: seq<Target>) {
    Tally(g, r, inc, seen) && Shut(g, seen, seen)
    && (forall c :: c in ts && c.At? ==> c.index in seen)
    && forall y: nat :: Num(inc, y) == Count(ts, At(y)) + Refs(g.nodes, seen, At(y))
  }

  /** `count_incoming` from one more target keeps `SourceTally`. */
  lemma {:induction false} SourceTallyStep(g: Graph, r: set<nat>, inc: map<nat, int>, seen: set<nat>, ts: seq<Target>,
                        c: Target, inc': map<nat, int>, fin: set<nat>)
    requires SourceTally(g, r, inc, seen, ts)
    requires Tally(g, r, inc', seen + fin) && seen !! fin && Shut(g, fin, seen + fin)
    requires c.At? ==> c.index in seen + fin
    requires forall y: nat :: Num(inc', y) == Num(inc, y) + (if c == At(y) then 1 else 0) + Refs(g.nodes, fin, At(y))
    ensures SourceTally(g, r, inc', seen + fin, ts + [c])
  {
    forall y: nat ensures Num(inc', y) == Count(ts + [c], At(y)) + Refs(g.nodes, seen + fin, At(y)) {
      CountAppend(ts, c, At(y));
      RefsUnion(g.nodes, seen, fin, At(y));
    }
  }

  lemma {:induction false} SourceTallyStart(g: Graph)
    requires WellFormed(g)
    ensures SourceTally(g, ReachSet(g), map[], {}, [])
  {
    ReachClosed(g);
    forall y: nat ensures Refs(g.nodes, {}, At(y)) == 0 {
      RefsEmpty(g.nodes, At(y));
    }
  }

  /** Once every child of the source is counted, the counted nodes are the
      reachable ones and each count is the node's in-degree. */
  lemma {:induction false} SourceTallyDone(g: Graph, inc: map<nat, int>, seen: set<nat>)
    requires SourceTally(g, ReachSet(g), inc, seen, g.source)
    ensures forall x :: x in inc <==> x in ReachSet(g)
    ensures forall y: nat :: Num(inc, y) == InDegree(g, At(y))
  {
    ClosedIsReachSet(g, seen);
  }

  /** The first loop of `top_sort`: `count_incoming` from every child of the
      source. Every reachable node is counted, with all its references. */
  method CountAllIncoming(g: Graph) returns (inc: map<nat, int>)
    requires WellFormed(g)
    ensures forall x :: x in inc <==> x in ReachSet(g)
    ensures forall y: nat :: Num(inc, y) == InDegree(g, At(y))
  {
    ghost var r := ReachSet(g);
    inc := map[];
    ghost var seen: set<nat> := {};
    SourceTallyStart(g);
    for k := 0 to |g.source|
      invariant SourceTally(g, r, inc, seen, g.source[..k])
    {
      var c := g.source[k];
      assert c in g.source;
      ghost var fin;
      var inc';
      inc', fin := CountIncoming(g, r, c, inc, seen);
      SourceTallyStep(g, r, inc, seen, g.source[..k], c, inc', fin);
      assert g.source[..k + 1] == g.source[..k] + [c];
      inc, seen := inc', seen + fin;
    }
    assert g.source[..|g.source|] == g.source;
    SourceTallyDone(g, inc, seen);
  }

  // ---------------------------------------------------------------------------
  // The worklist

  /** `[node for node in ts if incoming[id(node)] == 0]`. */
  function Zeros(inc: map<nat, int>, ts: seq<Target>): (ws: seq<nat>)
    requires forall t :: t in ts ==> t.At? && t.index in inc
    ensures forall x :: x in ws <==> At(x) in ts && inc[x] == 0
    ensures Distinct(ts) ==> Distinct(ws)
  {
    if ts == [] then []
    else
      assert ts[0] in ts;
      assert forall t :: t in ts[1..] ==> t in ts;
      var rest := Zeros(inc, ts[1..]);
      assert Distinct(ts) ==> Distinct(ts[1..]) && forall x :: x in rest ==> At(x) != ts[0];
      assert forall t :: t in ts ==> t == ts[0] || t in ts[1..];
      (if inc[ts[0].index] == 0 then [ts[0].index] else []) + rest
  }

  /** The nodes with a positive count. */
  function Pending(inc: map<nat, int>): set<nat> {
    set x | x in inc && inc[x] > 0
  }

  /** Taking one off a count shrinks `Pending` exactly when the count reaches 0. */
  lemma {:induction false} PendingDec(inc: map<nat, int>, c: nat)
    requires c in inc
    ensures |Pending(inc[c := inc[c] - 1])| == |Pending(inc)| - (if inc[c] == 1 then 1 else 0)
  {
    var inc' := inc[c := inc[c] - 1];
    if inc[c] == 1 {
      assert Pending(inc') == Pending(inc) - {c};
    } else {
      assert Pending(inc') == Pending(inc);
    }
  }

  function Emitted(nodes: seq<nat>): set<nat> {
    set x | x in nodes
  }

  /** Every node emitted before each of its children. */
  predicate ParentsFirst(g: Graph, nodes: seq<nat>) {
    forall i, j :: 0 <= i < |nodes| && 0 <= j < |nodes| && nodes[i] < |g.nodes| && At(nodes[j]) in g.nodes[nodes[i]].children ==> i < j
  }

  /** The state of Kahn's algorithm over the reachable nodes `r`, while the
      children in `rest` still wait for their counts to be taken down:
      - `nodes` and `waiting` hold distinct reachable nodes, none in both;
      - each count is the references from reachable nodes not yet emitted,
        plus those still pending in `rest`;
      - emitted and waiting nodes have count 0, every other reachable node a
        positive count;
      - the emitted nodes are in order. */
  ghost predicate Kahn(g: Graph, r: set<nat>, inc: map<nat, int>, waiting: seq<nat>, nodes: seq<nat>, rest: seq<Target>) {
    WellFormed(g) && Closed(g, r)
    && (forall x :: x in inc <==> x in r)
    && Distinct(nodes) && Distinct(waiting)
    && (forall x :: x in nodes ==> x in r && x !in waiting)
    && (forall x :: x in waiting ==> x in r && inc[x] == 0)
    && (forall x :: x in nodes ==> inc[x] == 0)
    && (forall y :: y in r ==> inc[y] == Refs(g.nodes, r - Emitted(nodes), At(y)) + Count(rest, At(y)))
    && (forall y :: y in r && y !in nodes && y !in waiting ==> inc[y] > 0)
    && ParentsFirst(g, nodes)
  }

  /** `node = waiting.pop()` and `nodes.append(node)`: the popped node's
      children become the pending references. */
  lemma {:induction false} PopStep(g: Graph, r: set<nat>, inc: map<nat, int>, waiting: seq<nat>, nodes: seq<nat>, p: nat)
    requires Kahn(g, r, inc, waiting + [p], nodes, [])
    ensures p < |g.nodes| && inc[p] == 0
    ensures Kahn(g, r, inc, waiting, nodes + [p], g.nodes[p].children)
  {
    var n := g.nodes;
    assert p in waiting + [p];
    var cs := n[p].children;
    var nodes' := nodes + [p];
    assert r - Emitted(nodes) == (r - Emitted(nodes')) + {p};
    forall y | y in r ensures inc[y] == Refs(n, r - Emitted(nodes'), At(y)) + Count(cs, At(y)) {
      assert inc[y] == Refs(n, r - Emitted(nodes), At(y)) + Count([], At(y));
      RefsMember(n, r - Emitted(nodes), p, At(y));
    }
    forall x | x in nodes ensures At(x) !in cs {
      RefsMember(n, r - Emitted(nodes), p, At(x));
      assert inc[x] == Refs(n, r - Emitted(nodes), At(x)) + Count([], At(x));
    }
    assert At(p) !in cs by {
      assert Below(At(p), p) ==> false;
    }
    forall i, j | 0 <= i < |nodes'| && 0 <= j < |nodes'| && nodes'[i] < |n| && At(nodes'[j]) in n[nodes'[i]].children
      ensures i < j
    {
    }
    forall x | x in waiting ensures x in r && inc[x] == 0 && x !in nodes' {
      assert x in waiting + [p];
      assert Distinct(waiting + [p]);
      var k :| 0 <= k < |waiting| && waiting[k] == x;
      assert (waiting + [p])[k] == x && (waiting + [p])[|waiting|] == p;
    }
    assert Distinct(waiting) by {
      forall i, j | 0 <= i < j < |waiting| ensures waiting[i] != waiting[j] {
        assert (waiting + [p])[i] == waiting[i] && (waiting + [p])[j] == waiting[j];
      }
    }
    assert Distinct(nodes');
    forall y | y in r && y !in nodes' && y !in waiting ensures inc[y] > 0 {
      assert y !in waiting + [p];
    }
  }

  /** `incoming[id(child)] -= 1`, and `waiting.append(child)` when it reaches 0. */
  lemma {:induction false} DecStep(g: Graph, r: set<nat>, inc: map<nat, int>, waiting: seq<nat>, nodes: seq<nat>, c: nat, count: int, rest: seq<Target>)
    requires Kahn(g, r, inc, waiting, nodes, [At(c)] + rest) && c in r && count == inc[c] - 1
    ensures count >= 0
    ensures count == 0 ==> Kahn(g, r, inc[c := count], waiting + [c], nodes, rest)
    ensures count != 0 ==> Kahn(g, r, inc[c := count], waiting, nodes, rest)
  {
    DecCounts(g, r, inc, waiting, nodes, c, rest);
    DecWaiting(r, inc, waiting, nodes, c);
  }

  /** The count of `c` goes down with the one reference released. */
  lemma {:induction false} DecCounts(g: Graph, r: set<nat>, inc: map<nat, int>, waiting: seq<nat>, nodes: seq<nat>, c: nat, rest: seq<Target>)
    requires Kahn(g, r, inc, waiting, nodes, [At(c)] + rest) && c in r
    ensures inc[c] > 0 && c !in nodes && c !in waiting
    ensures forall y :: y in r ==> inc[c := inc[c] - 1][y] == Refs(g.nodes, r - Emitted(nodes), At(y)) + Count(rest, At(y))
  {
    forall y | y in r ensures Count([At(c)] + rest, At(y)) == (if c == y then 1 else 0) + Count(rest, At(y)) {
      CountCons(At(c), rest, At(y));
    }
    assert inc[c] > 0;
  }

  /** A count reaching 0 puts its node, new to the list, on the waiting list. */
  lemma {:induction false} DecWaiting(r: set<nat>, inc: map<nat, int>, waiting: seq<nat>, nodes: seq<nat>, c: nat)
    requires (forall x :: x in inc <==> x in r) && c in r && c !in nodes && c !in waiting
    requires Distinct(waiting) && (forall x :: x in nodes ==> x in r && x !in waiting)
    requires (forall x :: x in waiting ==> x in r && inc[x] == 0)
    requires (forall y :: y in r && y !in nodes && y !in waiting ==> inc[y] > 0)
    ensures var inc' := inc[c := inc[c] - 1];
      var waiting' := if inc'[c] == 0 then waiting + [c] else waiting;
      Distinct(waiting')
      && (forall x :: x in nodes ==> x !in waiting')
      && (forall x :: x in waiting' ==> x in r && inc'[x] == 0)
      && (forall y :: y in r && y !in nodes && y !in waiting' ==> inc'[y] > 0)
  {
    var inc' := inc[c := inc[c] - 1];
    var waiting' := if inc'[c] == 0 then waiting + [c] else waiting;
    assert Distinct(waiting') by {
      if inc'[c] == 0 {
        forall i, j | 0 <= i < j < |waiting'| ensures waiting'[i] != waiting'[j] {
          if j == |waiting| {
            assert waiting'[i] in waiting;
          }
        }
      }
    }
    forall x | x in waiting' ensures x in r && inc'[x] == 0 {
      if x != c {
        assert x in waiting;
      }
    }
  }

  /** A pending sink reference changes no count. */
  lemma {:induction false} SinkStep(g: Graph, r: set<nat>, inc: map<nat, int>, waiting: seq<nat>, nodes: seq<nat>, rest: seq<Target>)
    requires Kahn(g, r, inc, waiting, nodes, [Sink] + rest)
    ensures Kahn(g, r, inc, waiting, nodes, rest)
  {
    forall y | y in r ensures Count([Sink] + rest, At(y)) == Count(rest, At(y)) {
      CountCons(Sink, rest, At(y));
    }
  }

  lemma {:induction false} MaxOf(s: set<nat>) returns (m: nat)
    requires s != {}
    ensures m in s && forall y :: y in s ==> y <= m
    decreases |s|
  {
    var x :| x in s;
    assert forall y :: y in s ==> y == x || y in s - {x};
    if s - {x} == {} {
      m := x;
    } else {
      var m' := MaxOf(s - {x});
      m := if x < m' then m' else x;
    }
  }

  /** When nothing waits, every reachable node has been emitted: a reachable
      node left over would have a left-over parent, and the highest left-over
      node cannot. */
  lemma {:induction false} NoneLeft(g: Graph, r: set<nat>, inc: map<nat, int>, nodes: seq<nat>)
    requires Kahn(g, r, inc, [], nodes, [])
    ensures Emitted(nodes) == r
  {
    var left := r - Emitted(nodes);
    assert Emitted(nodes) <= r;
    if left != {} {
      var m := MaxOf(left);
      assert inc[m] == Refs(g.nodes, left, At(m)) + Count([], At(m));
      RefsPositive(g.nodes, left, At(m));
    }
    forall x | x in r ensures x in Emitted(nodes) {
      assert x !in left;
    }
  }

  /** The worklist at the start: every reachable node the source does not
      list still has a parent to wait for. */
  lemma {:induction false} StartKahn(g: Graph, inc: map<nat, int>)
    requires WellFormed(g) && Distinct(g.source) && Sink !in g.source
    requires forall x :: x in inc <==> x in ReachSet(g)
    requires forall y :: y in ReachSet(g) ==> inc[y] == Refs(g.nodes, ReachSet(g), At(y))
    ensures forall t :: t in g.source ==> t.At? && t.index in inc
    ensures Kahn(g, ReachSet(g), inc, Zeros(inc, g.source), [], [])
  {
    var r := ReachSet(g);
    ReachClosed(g);
    assert forall t :: t in g.source ==> t.At? && t.index in inc;
    var ws := Zeros(inc, g.source);
    assert r - Emitted([]) == r;
    forall y | y in r && y !in ws ensures inc[y] > 0 {
      if At(y) !in g.source {
        ReachedByParent(g, y);
      }
    }
  }

  /** The whole order: each reachable node exactly once, parents first. */
  ghost predicate TopOrder(g: Graph, nodes: seq<nat>) {
    Distinct(nodes) && (forall x :: x in nodes <==> x in ReachSet(g)) && ParentsFirst(g, nodes)
  }

  /** After taking off the references from the targets `ts`, none of them a
      sink: the counts of `inc` less those references, over the same nodes. */
  ghost predicate Discounted(inc: map<nat, int>, left: map<nat, int>, ts: seq<Target>) {
    (forall x :: x in left <==> x in inc) && Sink !in ts
    && forall y: nat :: y in left ==> left[y] == inc[y] - Count(ts, At(y))
  }

  lemma {:induction false} DiscountStep(inc: map<nat, int>, left: map<nat, int>, ts: seq<Target>, x: nat)
    requires Discounted(inc, left, ts) && x in left
    ensures Discounted(inc, left[x := left[x] - 1], ts + [At(x)])
  {
    forall y: nat | y in left ensures left[x := left[x] - 1][y] == inc[y] - Count(ts + [At(x)], At(y)) {
      CountAppend(ts, At(x), At(y));
    }
  }

  /** With every reference from the source taken off, what is left is the
      references from the nodes of `r`. */
  lemma {:induction false} DiscountDone(g: Graph, r: set<nat>, inc: map<nat, int>, left: map<nat, int>)
    requires forall x :: x in inc <==> x in r
    requires forall y: nat :: Num(inc, y) == Count(g.source, At(y)) + Refs(g.nodes, r, At(y))
    requires Discounted(inc, left, g.source)
    ensures forall y :: y in r ==> left[y] == Refs(g.nodes, r, At(y))
  {
    forall y | y in r ensures left[y] == Refs(g.nodes, r, At(y)) {
      assert Num(inc, y) == inc[y];
    }
  }

  /** The second loop of `top_sort`: one reference off for each child of
      the source. `incoming[id(None)]` does not exist, so a listed sink is a
      KeyError. What is left is the references from the nodes of `r` (the
      reachable nodes, at the call). */
  method Discount(g: Graph, ghost r: set<nat>, inc: map<nat, int>) returns (res: Result<map<nat, int>>)
    requires forall c :: c in g.source && c.At? ==> c.index in r
    requires forall x :: x in inc <==> x in r
    requires forall y: nat :: Num(inc, y) == Count(g.source, At(y)) + Refs(g.nodes, r, At(y))
    ensures Sink in g.source <==> res.Err?
    ensures res.Err? ==> res.error == KeyError
    ensures res.Ok? ==> forall x :: x in res.value <==> x in r
    ensures res.Ok? ==> forall y :: y in r ==> res.value[y] == Refs(g.nodes, r, At(y))
  {
    var left := inc;
    assert Discounted(inc, left, g.source[..0]);
    for k := 0 to |g.source|
      invariant Discounted(inc, left, g.source[..k])
    {
      assert g.source[k] in g.source;
      if g.source[k] == Sink {
        return Err(KeyError);
      }
      var x := g.source[k].index;
      DiscountStep(inc, left, g.source[..k], x);
      assert g.source[..k + 1] == g.source[..k] + [g.source[k]];
      left := left[x := left[x] - 1];
    }
    assert g.source[..|g.source|] == g.source;
    DiscountDone(g, r, inc, left);
    return Ok(left);
  }

  /** The loop invariant of `Release`: counts and waiting nodes stay within the
      reachable nodes, every count reaching 0 moves a node to the waiting list,
      and for a distinct source the references in `rest` are still pending. */
  ghost predicate Releasing(g: Graph, r: set<nat>, inc0: map<nat, int>, waiting0: seq<nat>,
                            inc: map<nat, int>, waiting: seq<nat>, nodes: seq<nat>, distinct: bool, rest: seq<Target>) {
    (forall x :: x in inc <==> x in r) && (forall x :: x in waiting ==> x in r)
    && |waiting| + |Pending(inc)| == |waiting0| + |Pending(inc0)|
    && (distinct ==> Kahn(g, r, inc, waiting, nodes, rest))
  }

  /** One reference to `c` released: its count drops to `count`. */
  lemma {:induction false} ReleaseStep(g: Graph, r: set<nat>, inc0: map<nat, int>, waiting0: seq<nat>,
                    inc: map<nat, int>, waiting: seq<nat>, nodes: seq<nat>, distinct: bool, c: nat, count: int, rest: seq<Target>)
    requires Releasing(g, r, inc0, waiting0, inc, waiting, nodes, distinct, [At(c)] + rest)
    requires c in r && count == inc[c] - 1
    ensures count == 0 ==> Releasing(g, r, inc0, waiting0, inc[c := count], waiting + [c], nodes, distinct, rest)
    ensures count != 0 ==> Releasing(g, r, inc0, waiting0, inc[c := count], waiting, nodes, distinct, rest)
  {
    if distinct {
      DecStep(g, r, inc, waiting, nodes, c, count, rest);
    }
    PendingDec(inc, c);
  }

  /** A reference to the sink released: nothing changes. */
  lemma {:induction false} ReleaseSink(g: Graph, r: set<nat>, inc0: map<nat, int>, waiting0: seq<nat>,
                    inc: map<nat, int>, waiting: seq<nat>, nodes: seq<nat>, distinct: bool, rest: seq<Target>)
    requires Releasing(g, r, inc0, waiting0, inc, waiting, nodes, distinct, [Sink] + rest)
    ensures Releasing(g, r, inc0, waiting0, inc, waiting, nodes, distinct, rest)
  {
    if distinct {
      SinkStep(g, r, inc, waiting, nodes, rest);
    }
  }

  /** The inner loop of `top_sort`: one reference off for each child of the
      emitted node `p`, and a child whose count reaches 0 goes on the stack.
      Under Kahn's invariant with `p`'s children pending, nothing is pending
      afterwards. */
  method Release(g: Graph, ghost r: set<nat>, p: nat, inc: map<nat, int>, waiting: seq<nat>, ghost nodes: seq<nat>, ghost distinct: bool)
    returns (inc': map<nat, int>, waiting': seq<nat>)
    requires WellFormed(g) && Closed(g, r) && p in r
    requires (forall x :: x in inc <==> x in r) && forall x :: x in waiting ==> x in r
    requires distinct ==> Kahn(g, r, inc, waiting, nodes, g.nodes[p].children)
    ensures (forall x :: x in inc' <==> x in r) && forall x :: x in waiting' ==> x in r
    ensures |waiting'| + |Pending(inc')| == |waiting| + |Pending(inc)|
    ensures distinct ==> Kahn(g, r, inc', waiting', nodes, [])
  {
    var cs := g.nodes[p].children;
    inc', waiting' := inc, waiting;
    assert cs[0..] == cs;
    for k := 0 to |cs|
      invariant Releasing(g, r, inc, waiting, inc', waiting', nodes, distinct, cs[k..])
    {
      assert cs[k..] == [cs[k]] + cs[k + 1..];
      assert cs[k] in cs;
      if cs[k].At? {
        var c := cs[k].index;
        var count := inc'[c] - 1;
        ReleaseStep(g, r, inc, waiting, inc', waiting', nodes, distinct, c, count, cs[k + 1..]);
        inc' := inc'[c := count];
        if count == 0 {
          waiting' := waiting' + [c];
        }
      } else {
        ReleaseSink(g, r, inc, waiting, inc', waiting', nodes, distinct, cs[k + 1..]);
      }
    }
  }

  lemma {:induction false} PopLast(s: seq<nat>)
    requires s != []
    ensures s == s[..|s| - 1] + [s[|s| - 1]]
  {
  }

  /** `top_sort(dafsa)`. A sink in the source list is a KeyError; otherwise,
      when no node is listed twice in the source, the result is the reachable
      nodes in an order with every node before its children. */
  method TopSort(g: Graph) returns (res: Result<seq<nat>>)
    requires WellFormed(g)
    ensures Sink in g.source <==> res == Err(KeyError)
    ensures Sink !in g.source && Distinct(g.source) ==> res.Ok? && TopOrder(g, res.value)
    ensures res.Ok? ==> forall x :: x in res.value ==> x in ReachSet(g)
  {
    var counted := CountAllIncoming(g);
    ghost var r := ReachSet(g);
    ReachClosed(g);
    var discounted := Discount(g, r, counted);
    if discounted.Err? {
      return Err(discounted.error);
    }
    var inc := discounted.value;
    SourceCounted(g, r, inc);
    ghost var distinct := Distinct(g.source);
    if distinct {
      StartKahn(g, inc);
    }
    var waiting := Zeros(inc, g.source);
    res := Drain(g, r, inc, waiting, distinct);
    if distinct {
      DrainOrder(g, res.value);
    }
  }

  /** With no sink in the source, every child of the source is counted. */
  lemma {:induction false} SourceCounted(g: Graph, r: set<nat>, inc: map<nat, int>)
    requires WellFormed(g) && Closed(g, r) && Sink !in g.source
    requires forall x :: x in inc <==> x in r
    ensures forall t :: t in g.source ==> t.At? && t.index in inc
  {
    forall t | t in g.source ensures t.At? && t.index in inc {
      assert Below(t, |g.nodes|);
    }
  }

  /** Every reachable node once, parents first: a topological order. */
  lemma {:induction false} DrainOrder(g: Graph, nodes: seq<nat>)
    requires Distinct(nodes) && Emitted(nodes) == ReachSet(g) && ParentsFirst(g, nodes)
    ensures TopOrder(g, nodes)
  {
    forall x ensures x in nodes <==> x in ReachSet(g) {
      assert x in nodes <==> x in Emitted(nodes);
    }
  }

  /** The main loop of `top_sort`: pop a node, emit it and release its
      children, until nothing waits. Under Kahn's invariant every reachable
      node is emitted once, parents first; a popped node with a count left
      would fail the source's assertion. */
  method Drain(g: Graph, ghost r: set<nat>, inc: map<nat, int>, waiting: seq<nat>, ghost distinct: bool)
    returns (res: Result<seq<nat>>)
    requires WellFormed(g) && Closed(g, r)
    requires (forall x :: x in inc <==> x in r) && forall x :: x in waiting ==> x in r
    requires distinct ==> Kahn(g, r, inc, waiting, [], [])
    ensures res.Err? ==> res.error == AssertionError
    ensures res.Ok? ==> forall x :: x in res.value ==> x in r
    ensures distinct ==> res.Ok? && Distinct(res.value) && Emitted(res.value) == r && ParentsFirst(g, res.value)
  {
    var inc, waiting := inc, waiting;
    var nodes: seq<nat> := [];
    while waiting != []
      invariant forall x :: x in inc <==> x in r
      invariant forall x :: x in waiting ==> x in r
      invariant forall x :: x in nodes ==> x in r
      invariant distinct ==> Kahn(g, r, inc, waiting, nodes, [])
      decreases |waiting| + |Pending(inc)|
    {
      var p := waiting[|waiting| - 1];
      assert p in waiting;
      PopLast(waiting);
      waiting := waiting[..|waiting| - 1];
      if distinct {
        PopStep(g, r, inc, waiting, nodes, p);
      }
      if inc[p] != 0 {
        return Err(AssertionError);
      }
      nodes := nodes + [p];
      inc, waiting := Release(g, r, p, inc, waiting, nodes, distinct);
    }
    if distinct {
      NoneLeft(g, r, inc, nodes);
    }
    return Ok(nodes);
  }
}
