/**
 * `words_to_whatever`: the word list turned into a graph by `to_dafsa`,
 * compressed by `reverse`, `join_suffixes`, `reverse`, `join_suffixes` and
 * `join_labels`, and encoded. The converter is the binary one
 * (`bytearray`), so the result is the array of bytes itself.
 */
module DafsaPipeline {
  import opened DafsaGraph
  import opened DafsaInput
  import opened DafsaReverse
  import opened DafsaJoinSuffixes
  import opened DafsaJoinLabels
  import opened DafsaEncode

  /** Two reversals give back the words of the graph they started from. */
  lemma {:induction false} ReverseTwice(g: Graph, h: Graph, k: Graph)
    requires WellFormed(g) && WellFormed(h) && WellFormed(k)
    requires forall w :: w in Words(h) <==> Rev(w) in Words(g)
    requires forall w :: w in Words(k) <==> Rev(w) in Words(h)
    ensures Words(k) == Words(g)
  {
    forall w ensures w in Words(k) <==> w in Words(g) {
      assert w in Words(k) <==> Rev(w) in Words(h);
      assert Rev(w) in Words(h) <==> Rev(Rev(w)) in Words(g);
      RevRev(w);
    }
  }

  /** The five compression passes of `words_to_whatever`, in order. */
  method Compress(g: Graph) returns (h: Graph)
    requires WellFormed(g)
    ensures WellFormed(h) && Words(h) == Words(g)
  {
    var r1, s1 := Reverse(g);
    var j1 := JoinSuffixes(r1);
    var r2, s2 := Reverse(j1);
    ReverseTwice(g, j1, r2);
    var j2 := JoinSuffixes(r2);
    ghost var nodemap;
    h, nodemap := JoinLabels(j2);
  }

  /** `words_to_whatever(words, bytearray)`. The errors of `to_dafsa` are
      passed on unchanged. For valid words the compressed graph `h` spells the
      words with their last characters masked. Only when `h` is `Encodable`:
      the only error left is an `AssertionError`, the array spells exactly
      those words, and when `h` is also compact there is no error. A word
      given twice makes `h` not encodable, and Python then fails on the
      end-label assertion of `encode_links`. */
  method WordsToBytes(words: seq<string>) returns (res: Result<seq<nat>>, ghost h: Graph)
    ensures ToDafsa(words).Err? ==> res == Err(ToDafsa(words).error)
    ensures words != [] && (forall i :: 0 <= i < |words| ==> ValidWord(words[i])) ==>
      WellFormed(h) && Words(h) == Elems(Masked(words))
      && (Encodable(h) ==> res.Ok? || res == Err(AssertionError))
      && (Encodable(h) && res.Ok? ==> DafsaWords(res.value) == Elems(Masked(words)))
      && (Encodable(h) && Compact(h) ==> res.Ok?)
  {
    h := Graph([], []);
    var built := ToDafsa(words);
    ToDafsaError(words);
    if built.Err? {
      return Err(built.error), h;
    }
    ToDafsaWords(words);
    var dafsa := Compress(built.value);
    h := dafsa;
    res := Encode(dafsa);
  }
}
