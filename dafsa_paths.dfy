/**
 * Paths through a DAFSA. A word of the graph is the text read along a path of
 * nodes from one of the listed children to the sink; `reverse` turns every
 * such path around, so its correctness is argued on paths rather than on the
 * recursive definition of `Lang`.
 */
module DafsaPaths {
  import opened DafsaGraph

  /** Every index of `p` names a node of the arena. */
  predicate InArena(ns: seq<Node>, p: seq<nat>) {
    forall j :: 0 <= j < |p| ==> p[j] < |ns|
  }

  /** A non-empty path of nodes, each listing the next as a child, the last
      listing the sink. */
  predicate Chain(ns: seq<Node>, p: seq<nat>) {
    |p| > 0 && InArena(ns, p)
    && (forall j :: 0 <= j < |p| - 1 ==> At(p[j + 1]) in ns[p[j]].children)
    && Sink in ns[p[|p| - 1]].children
  }

  /** The text read along a path. */
  function Spell(ns: seq<Node>, p: seq<nat>): string
    requires InArena(ns, p)
  {
    if p == [] then "" else ns[p[0]].text + Spell(ns, p[1..])
  }

  lemma {:induction false} SpellAppend(ns: seq<Node>, p: seq<nat>, x: nat)
    requires InArena(ns, p) && x < |ns|
    ensures InArena(ns, p + [x]) && Spell(ns, p + [x]) == Spell(ns, p) + ns[x].text
  {
    if p != [] {
      assert (p + [x])[1..] == p[1..] + [x];
      SpellAppend(ns, p[1..], x);
    }
  }

  /** A path from node `i` spells a word of `i`. */
  lemma {:induction false} ChainInLang(ns: seq<Node>, p: seq<nat>)
    requires Ordered(ns) && Chain(ns, p)
    ensures Spell(ns, p) in Lang(ns, At(p[0]))
    decreases |p|
  {
    var i := p[0];
    var cs := ns[i].children;
    LangNode(ns, i);
    if |p| == 1 {
      var j :| 0 <= j < |cs| && cs[j] == Sink;
      LangOfMember(ns, cs, "");
      PrefixMember(ns[i].text, LangOf(ns, cs), "");
      assert Spell(ns, p) == ns[i].text + "";
    } else {
      var q := p[1..];
      assert Chain(ns, q) by {
        forall j | 0 <= j < |q| - 1 ensures At(q[j + 1]) in ns[q[j]].children {
          assert q[j] == p[j + 1] && q[j + 1] == p[j + 2];
        }
      }
      ChainInLang(ns, q);
      var j :| 0 <= j < |cs| && cs[j] == At(q[0]);
      LangOfMember(ns, cs, Spell(ns, q));
      PrefixMember(ns[i].text, LangOf(ns, cs), Spell(ns, q));
    }
  }

  /** Every word of node `i` is spelled by a path from `i`. */
  lemma {:induction false} LangHasChain(ns: seq<Node>, i: nat, w: string)
    requires Ordered(ns) && i < |ns| && w in Lang(ns, At(i))
    ensures exists p :: Chain(ns, p) && p[0] == i && Spell(ns, p) == w
    decreases i
  {
    var cs := ns[i].children;
    LangNode(ns, i);
    var v :| v in LangOf(ns, cs) && w == ns[i].text + v;
    LangOfMember(ns, cs, v);
    var j :| 0 <= j < |cs| && v in Lang(ns, cs[j]);
    assert cs[j] in cs;
    match cs[j] {
      case Sink => {
        var p := [i];
        assert Spell(ns, p) == ns[i].text + "";
        assert Chain(ns, p);
      }
      case At(c) => {
        LangHasChain(ns, c, v);
        var q :| Chain(ns, q) && q[0] == c && Spell(ns, q) == v;
        ChainCons(ns, i, q);
      }
    }
  }

  /** A path from a child of node `i`, with `i` put in front. */
  lemma {:induction false} ChainCons(ns: seq<Node>, i: nat, q: seq<nat>)
    requires i < |ns| && Chain(ns, q) && At(q[0]) in ns[i].children
    ensures Chain(ns, [i] + q) && Spell(ns, [i] + q) == ns[i].text + Spell(ns, q)
  {
    var p := [i] + q;
    assert p[1..] == q;
    forall k | 0 <= k < |p| - 1 ensures At(p[k + 1]) in ns[p[k]].children {
      if k > 0 {
        assert p[k] == q[k - 1] && p[k + 1] == q[k];
      }
    }
  }

  /** The words of a list of children are those spelled by the paths that
      start at one of them, plus the empty word when the sink is listed. */
  lemma {:induction false} LangOfChains(ns: seq<Node>, ts: seq<Target>, w: string)
    requires Ordered(ns) && AllBelow(ts, |ns|)
    ensures w in LangOf(ns, ts) <==>
      (Sink in ts && w == "") || exists p :: Chain(ns, p) && At(p[0]) in ts && Spell(ns, p) == w
  {
    LangOfMember(ns, ts, w);
    if w in LangOf(ns, ts) {
      var j :| 0 <= j < |ts| && w in Lang(ns, ts[j]);
      assert ts[j] in ts;
      if ts[j].At? {
        LangHasChain(ns, ts[j].index, w);
      }
    }
    if exists p :: Chain(ns, p) && At(p[0]) in ts && Spell(ns, p) == w {
      var p :| Chain(ns, p) && At(p[0]) in ts && Spell(ns, p) == w;
      ChainInLang(ns, p);
      var j :| 0 <= j < |ts| && ts[j] == At(p[0]);
    }
    if Sink in ts && w == "" {
      var j :| 0 <= j < |ts| && ts[j] == Sink;
    }
  }
}
