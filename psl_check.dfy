/**
 * The consistency validator of psl2c: it refuses a compiled public suffix list
 * whose sorted rule vectors hold duplicates, triplets, rules that are both a
 * suffix and an exception, or plain rules already covered by a wildcard.
 *
 * The sorted vector of psl.c (`_psl_vector_t`) is a read-only `seq<Entry>`.
 * Its comparison function `_suffix_compare` is not part of this model: it is a
 * parameter `cmp` on rule texts, constrained by `IsKeyOrder` to be a total
 * order in which two texts compare equal exactly when they are identical.
 * `_vector_find` is a method whose callers rely on nothing but its contract.
 */
module PslCheck {
  import opened Optional

  /** `_psl_entry_t`: the rule text (without the leading "*." of a wildcard
      rule), its length, its number of labels and the wildcard flag. */
  datatype Entry = Entry(suffix: string, length: int, nlabels: int, wildcard: bool)

  /** The ordering behind `_suffix_compare`, on rule texts. */
  type Comparator = (string, string) -> int

  ghost predicate IsKeyOrder(cmp: Comparator) {
    && (forall a, b :: cmp(a, b) == 0 <==> a == b)
    && (forall a, b :: cmp(a, b) < 0 <==> cmp(b, a) > 0)
    && (forall a, b, c :: cmp(a, b) <= 0 && cmp(b, c) <= 0 ==> cmp(a, c) <= 0)
  }

  /** `_suffix_compare`: compares the keys of two entries, ignoring the wildcard flag. */
  function SuffixCompare(cmp: Comparator, a: Entry, b: Entry): int {
    cmp(a.suffix, b.suffix)
  }

  /** The order in which psl.c keeps a vector. */
  ghost predicate Sorted(cmp: Comparator, v: seq<Entry>) {
    forall i, j :: 0 <= i < j < |v| ==> cmp(v[i].suffix, v[j].suffix) <= 0
  }

  /** `_vector_get`: no entry outside `[0, cur)`. */
  function VectorGet(v: seq<Entry>, pos: int): (r: Option<Entry>)
    ensures r.Some? <==> 0 <= pos < |v|
    ensures r.Some? ==> r.value == v[pos]
  {
    if 0 <= pos < |v| then Some(v[pos]) else None
  }

  lemma {:induction false} LeLt(cmp: Comparator, a: string, b: string, c: string)
    requires IsKeyOrder(cmp)
    requires cmp(a, b) <= 0 && cmp(b, c) < 0
    ensures cmp(a, c) < 0
  {
    assert cmp(a, c) <= 0;
    if cmp(a, c) == 0 {
      assert a == c;
      assert cmp(c, b) > 0;
    }
  }

  lemma {:induction false} LtLe(cmp: Comparator, a: string, b: string, c: string)
    requires IsKeyOrder(cmp)
    requires cmp(a, b) < 0 && cmp(b, c) <= 0
    ensures cmp(a, c) < 0
  {
    assert cmp(a, c) <= 0;
    if cmp(a, c) == 0 {
      assert a == c;
      assert cmp(b, a) > 0;
    }
  }

  /**
   * `_vector_find`: a binary search. Where several entries share the key it
   * may return any of them; callers rely on nothing more than this contract.
   */
  method VectorFind(cmp: Comparator, v: seq<Entry>, key: Entry) returns (pos: int)
    requires IsKeyOrder(cmp) && Sorted(cmp, v)
    ensures 0 <= pos ==> pos < |v| && v[pos].suffix == key.suffix
    ensures pos < 0 ==> forall i :: 0 <= i < |v| ==> v[i].suffix != key.suffix
  {
    var lo, hi := 0, |v|;
    while lo < hi
      invariant 0 <= lo <= hi <= |v|
      invariant forall i :: 0 <= i < lo ==> cmp(v[i].suffix, key.suffix) < 0
      invariant forall i :: hi <= i < |v| ==> cmp(key.suffix, v[i].suffix) < 0
    {
      var mid := (lo + hi) / 2;
      var c := cmp(v[mid].suffix, key.suffix);
      if c == 0 {
        return mid;
      } else if c < 0 {
        forall i | 0 <= i <= mid ensures cmp(v[i].suffix, key.suffix) < 0 {
          if i < mid { LeLt(cmp, v[i].suffix, v[mid].suffix, key.suffix); }
        }
        lo := mid + 1;
      } else {
        assert cmp(key.suffix, v[mid].suffix) < 0;
        forall i | mid <= i < |v| ensures cmp(key.suffix, v[i].suffix) < 0 {
          if mid < i { LtLe(cmp, key.suffix, v[mid].suffix, v[i].suffix); }
        }
        hi := mid;
      }
    }
    pos := -1;
  }

  // ---------------------------------------------------------------------------
  // The doublet scan inside one vector

  /** Adjacent entries `i`, `i+1` share key and wildcard flag: a true duplicate. */
  predicate DupAt(v: seq<Entry>, i: int) {
    0 <= i < |v| - 1 && v[i].suffix == v[i + 1].suffix && v[i].wildcard == v[i + 1].wildcard
  }

  /** Entries `i`, `i+1`, `i+2` share one key. */
  predicate TripletAt(v: seq<Entry>, i: int) {
    0 <= i < |v| - 2 && v[i].suffix == v[i + 1].suffix && v[i + 1].suffix == v[i + 2].suffix
  }

  /** What `_check_psl_entries` refuses: a duplicate or a triplet anywhere. */
  ghost predicate EntriesViolation(v: seq<Entry>) {
    (exists i :: DupAt(v, i)) || (exists i :: TripletAt(v, i))
  }

  /** A duplicate among the first `n` pairs, or a triplet among the first `n + 1` entries. */
  ghost predicate FlaggedBefore(v: seq<Entry>, n: int) {
    (exists i :: 0 <= i < n && DupAt(v, i)) || (exists i :: 0 <= i && i + 2 <= n && TripletAt(v, i))
  }

  lemma {:induction false} FlaggedStep(v: seq<Entry>, n: int)
    requires 0 <= n
    ensures FlaggedBefore(v, n + 1) <==> FlaggedBefore(v, n) || DupAt(v, n) || TripletAt(v, n - 1)
  {
    if FlaggedBefore(v, n + 1) && !DupAt(v, n) && !TripletAt(v, n - 1) {
      if exists i :: 0 <= i < n + 1 && DupAt(v, i) {
        var i :| 0 <= i < n + 1 && DupAt(v, i);
        assert i < n;
      } else {
        var i :| 0 <= i && i + 2 <= n + 1 && TripletAt(v, i);
        assert i + 2 <= n;
      }
    }
  }

  lemma {:induction false} FlaggedAll(v: seq<Entry>)
    requires |v| >= 1
    ensures FlaggedBefore(v, |v| - 1) <==> EntriesViolation(v)
  {
  }

  /**
   * `_check_psl_entries`: scans adjacent pairs with the `doublet` counter,
   * which counts the wildcard/plain pairs seen since the last pair of
   * different keys.
   */
  method CheckEntries(cmp: Comparator, v: seq<Entry>) returns (err: bool)
    requires IsKeyOrder(cmp)
    ensures err <==> EntriesViolation(v)
    ensures |v| < 2 ==> !err
  {
    var it, doublet := 0, 0;
    err := false;
    while it < |v| - 1
      invariant 0 <= it && (it <= |v| - 1 || it == 0)
      invariant doublet >= 0
      invariant doublet > 0 ==> 0 < it && v[it - 1].suffix == v[it].suffix
      invariant 0 < it && v[it - 1].suffix == v[it].suffix && v[it - 1].wildcard != v[it].wildcard ==> doublet > 0
      invariant err <==> FlaggedBefore(v, it)
    {
      FlaggedStep(v, it);
      var cur, next := v[it], v[it + 1];
      if SuffixCompare(cmp, cur, next) == 0 {
        // '*.foo' next to 'foo' is allowed, once
        if cur.wildcard == next.wildcard {
          err := true;
        } else {
          doublet := doublet + 1;
          if doublet > 1 {
            assert TripletAt(v, it - 1);
            err := true;
          } else {
            assert TripletAt(v, it - 1) ==> DupAt(v, it - 1);
          }
        }
      } else {
        doublet := 0;
      }
      it := it + 1;
    }
    if |v| >= 1 { FlaggedAll(v); }
  }

  // ---------------------------------------------------------------------------
  // The checks across the two vectors: suffix-not-exception,
  // exception-not-suffix and wildcard coverage

  /** Some plain entry of `v` has the text `key`. */
  ghost predicate HasPlain(v: seq<Entry>, key: string) {
    exists i :: 0 <= i < |v| && !v[i].wildcard && v[i].suffix == key
  }

  /** Some wildcard entry of `v` has the text `key`. */
  ghost predicate HasWildcard(v: seq<Entry>, key: string) {
    exists i :: 0 <= i < |v| && v[i].wildcard && v[i].suffix == key
  }

  /** Some entry of `v`, of either kind, has the text `key`. */
  ghost predicate HasKey(v: seq<Entry>, key: string) {
    exists i :: 0 <= i < |v| && v[i].suffix == key
  }

  /** `strchr(label, '.')`: the position of the first dot. */
  function FirstDot(s: string): (r: Option<nat>)
    ensures r.Some? ==> r.value < |s| && s[r.value] == '.' && '.' !in s[..r.value]
    ensures r.None? ==> '.' !in s
  {
    if s == [] then None
    else if s[0] == '.' then Some(0)
    else match FirstDot(s[1..])
      case None => None
      case Some(k) => assert s[..k + 1] == [s[0]] + s[1..][..k]; Some(k + 1)
  }

  /** The entry `*.parent` would make the plain multi-label entry `e` superfluous. */
  ghost predicate Superfluous(v: seq<Entry>, e: Entry) {
    && !e.wildcard && e.nlabels > 1
    && FirstDot(e.suffix).Some?
    && HasWildcard(v, e.suffix[FirstDot(e.suffix).value + 1..])
  }

  /** What the suffix-not-exception check refuses: a plain suffix that is also an exception. */
  ghost predicate SuffixAlsoException(s: seq<Entry>, x: seq<Entry>) {
    exists i :: 0 <= i < |s| && !s[i].wildcard && HasKey(x, s[i].suffix)
  }

  /** What the exception-not-suffix check refuses: an exception that is also a plain suffix. */
  ghost predicate ExceptionAlsoSuffix(s: seq<Entry>, x: seq<Entry>) {
    exists j :: 0 <= j < |x| && HasPlain(s, x[j].suffix)
  }

  /** What the wildcard-coverage check refuses: a plain suffix covered by a wildcard on its parent. */
  ghost predicate CoveredByWildcard(s: seq<Entry>) {
    exists i :: 0 <= i < |s| && Superfluous(s, s[i])
  }

  /** A superfluous entry among the first `n`. */
  ghost predicate CoveredBefore(s: seq<Entry>, n: nat)
    requires n <= |s|
  {
    exists i :: 0 <= i < n && Superfluous(s, s[i])
  }

  lemma {:induction false} CoveredStep(s: seq<Entry>, n: nat)
    requires n < |s|
    ensures CoveredBefore(s, n + 1) <==> CoveredBefore(s, n) || Superfluous(s, s[n])
  {
    if CoveredBefore(s, n + 1) && !Superfluous(s, s[n]) {
      var i :| 0 <= i < n + 1 && Superfluous(s, s[i]);
      assert i < n;
    }
  }

  /** Everything `_check_psl` refuses. */
  ghost predicate Violation(s: seq<Entry>, x: seq<Entry>) {
    || EntriesViolation(s)
    || EntriesViolation(x)
    || SuffixAlsoException(s, x)
    || ExceptionAlsoSuffix(s, x)
    || CoveredByWildcard(s)
  }

  /** In a sorted vector, entries of equal key are contiguous. */
  lemma {:induction false} Grouped(cmp: Comparator, v: seq<Entry>, i: int, j: int, k: int)
    requires IsKeyOrder(cmp) && Sorted(cmp, v)
    requires 0 <= i < j < k < |v| && v[i].suffix == v[k].suffix
    ensures v[j].suffix == v[i].suffix
  {
    assert cmp(v[i].suffix, v[j].suffix) <= 0 && cmp(v[j].suffix, v[k].suffix) <= 0;
    assert cmp(v[k].suffix, v[i].suffix) == 0;
    assert cmp(v[j].suffix, v[i].suffix) <= 0;
  }

  /**
   * Unless a triplet starts at `pos` or ends there, every entry sharing the key
   * of the entry at `pos` lies at `pos - 1`, `pos` or `pos + 1`: the only slots
   * `_check_psl` probes.
   */
  lemma {:induction false} RunAroundPos(cmp: Comparator, v: seq<Entry>, pos: int, j: int)
    requires IsKeyOrder(cmp) && Sorted(cmp, v)
    requires 0 <= pos < |v| && 0 <= j < |v| && v[j].suffix == v[pos].suffix
    ensures pos - 1 <= j <= pos + 1 || TripletAt(v, pos) || TripletAt(v, pos - 2)
  {
    if j >= pos + 2 {
      Grouped(cmp, v, pos, pos + 1, j);
      if j > pos + 2 {
        Grouped(cmp, v, pos, pos + 2, j);
      }
    } else if j <= pos - 2 {
      Grouped(cmp, v, j, pos - 1, pos);
      if j < pos - 2 {
        Grouped(cmp, v, j, pos - 2, pos);
      }
    }
  }

  /**
   * The suffix-not-exception loop of `_check_psl`: each plain suffix is looked up among the
   * exceptions; any hit is an error.
   */
  method CheckSuffixesNotExceptions(cmp: Comparator, s: seq<Entry>, x: seq<Entry>) returns (err: bool)
    requires IsKeyOrder(cmp) && Sorted(cmp, x)
    ensures err <==> SuffixAlsoException(s, x)
  {
    err := false;
    var it := 0;
    while it < |s|
      invariant 0 <= it <= |s|
      invariant err <==> exists k :: 0 <= k < it && !s[k].wildcard && HasKey(x, s[k].suffix)
    {
      var e := s[it];
      if !e.wildcard {
        var pos := VectorFind(cmp, x, e);
        if pos >= 0 {
          err := true;
        }
      }
      it := it + 1;
    }
  }

  /**
   * The probe of the exception-not-suffix loop: is the exception `e` a plain suffix? The search may
   * land on either member of a wildcard/plain pair, so the neighbours of the
   * found slot are inspected too. The answer is exact unless `s` holds a
   * triplet, which the doublet scan refuses anyway.
   */
  method ProbePlain(cmp: Comparator, s: seq<Entry>, e: Entry) returns (hit: bool)
    requires IsKeyOrder(cmp) && Sorted(cmp, s)
    ensures hit ==> HasPlain(s, e.suffix)
    ensures !EntriesViolation(s) ==> (hit <==> HasPlain(s, e.suffix))
  {
    var pos := VectorFind(cmp, s, e);
    hit := false;
    match VectorGet(s, pos) {
      case None =>
      case Some(found) =>
        if !found.wildcard {
          hit := true;
        } else if pos > 0 && SuffixCompare(cmp, e, s[pos - 1]) == 0 && !s[pos - 1].wildcard {
          hit := true;
        } else if pos < |s| - 1 && SuffixCompare(cmp, e, s[pos + 1]) == 0 && !s[pos + 1].wildcard {
          hit := true;
        }
    }
    if !EntriesViolation(s) && HasPlain(s, e.suffix) {
      var j :| 0 <= j < |s| && !s[j].wildcard && s[j].suffix == e.suffix;
      RunAroundPos(cmp, s, pos, j);
    }
  }

  /** The exception-not-suffix loop of `_check_psl`: each exception is probed among the suffixes. */
  method CheckExceptionsNotSuffixes(cmp: Comparator, s: seq<Entry>, x: seq<Entry>) returns (err: bool)
    requires IsKeyOrder(cmp) && Sorted(cmp, s)
    ensures err ==> ExceptionAlsoSuffix(s, x)
    ensures !EntriesViolation(s) ==> (err <==> ExceptionAlsoSuffix(s, x))
  {
    err := false;
    var it := 0;
    while it < |x|
      invariant 0 <= it <= |x|
      invariant err ==> exists k :: 0 <= k < it && HasPlain(s, x[k].suffix)
      invariant !EntriesViolation(s) ==> (err <==> exists k :: 0 <= k < it && HasPlain(s, x[k].suffix))
    {
      var hit := ProbePlain(cmp, s, x[it]);
      if hit {
        err := true;
      }
      it := it + 1;
    }
  }

  /**
   * The probe of the wildcard-coverage loop: is `parent` a wildcard entry of `s`? As in
   * `ProbePlain`, the neighbours of the found slot are inspected too.
   */
  method ProbeWildcard(cmp: Comparator, s: seq<Entry>, parent: Entry) returns (hit: bool)
    requires IsKeyOrder(cmp) && Sorted(cmp, s)
    ensures hit ==> HasWildcard(s, parent.suffix)
    ensures !EntriesViolation(s) ==> (hit <==> HasWildcard(s, parent.suffix))
  {
    var pos := VectorFind(cmp, s, parent);
    hit := false;
    match VectorGet(s, pos) {
      case None =>
      case Some(found) =>
        if found.wildcard {
          hit := true;
        } else if pos > 0 && SuffixCompare(cmp, found, s[pos - 1]) == 0 && s[pos - 1].wildcard {
          hit := true;
        } else if pos < |s| - 1 && SuffixCompare(cmp, found, s[pos + 1]) == 0 && s[pos + 1].wildcard {
          hit := true;
        }
    }
    if !EntriesViolation(s) && HasWildcard(s, parent.suffix) {
      var j :| 0 <= j < |s| && s[j].wildcard && s[j].suffix == parent.suffix;
      RunAroundPos(cmp, s, pos, j);
      assert !TripletAt(s, pos) && !TripletAt(s, pos - 2);
      assert j == pos || (j == pos - 1 && SuffixCompare(cmp, s[pos], s[pos - 1]) == 0)
        || (j == pos + 1 && SuffixCompare(cmp, s[pos], s[pos + 1]) == 0);
    }
  }

  /**
   * The wildcard-coverage loop of `_check_psl`: a plain entry with more than one label is
   * superfluous when its parent (the text after the first dot) is a wildcard
   * entry.
   */
  method CheckWildcardCoverage(cmp: Comparator, s: seq<Entry>) returns (err: bool)
    requires IsKeyOrder(cmp) && Sorted(cmp, s)
    ensures err ==> CoveredByWildcard(s)
    ensures !EntriesViolation(s) ==> (err <==> CoveredByWildcard(s))
  {
    err := false;
    var it := 0;
    while it < |s|
      invariant 0 <= it <= |s|
      invariant err ==> CoveredBefore(s, it)
      invariant !EntriesViolation(s) ==> (err <==> CoveredBefore(s, it))
    {
      var e := s[it];
      var hit := false;
      if e.nlabels > 1 && !e.wildcard {
        match FirstDot(e.suffix) {
          case None =>
          case Some(dot) =>
            var parentText := e.suffix[dot + 1..];
            // the wildcard flag of this lookup key is never read
            var parent := Entry(parentText, |parentText|, e.nlabels - 1, false);
            hit := ProbeWildcard(cmp, s, parent);
        }
      }
      assert hit ==> Superfluous(s, s[it]);
      assert !EntriesViolation(s) ==> (hit <==> Superfluous(s, s[it]));
      CoveredStep(s, it);
      if hit {
        err := true;
      }
      it := it + 1;
    }
  }

  /**
   * `_check_psl`: the doublet check on both vectors, then the three
   * cross-checks, with a sticky error flag and no early return. The verdict
   * does not depend on which of two equal keys the search returns.
   */
  method CheckPsl(cmp: Comparator, suffixes: seq<Entry>, exceptions: seq<Entry>) returns (err: bool)
    requires IsKeyOrder(cmp) && Sorted(cmp, suffixes) && Sorted(cmp, exceptions)
    ensures err <==> Violation(suffixes, exceptions)
  {
    err := false;
    var e1 := CheckEntries(cmp, suffixes);
    if e1 { err := true; }
    var e2 := CheckEntries(cmp, exceptions);
    if e2 { err := true; }
    var e3 := CheckSuffixesNotExceptions(cmp, suffixes, exceptions);
    if e3 { err := true; }
    var e4 := CheckExceptionsNotSuffixes(cmp, suffixes, exceptions);
    if e4 { err := true; }
    var e5 := CheckWildcardCoverage(cmp, suffixes);
    if e5 { err := true; }
  }

  /** The suffix-not-exception and exception-not-suffix checks refuse the same thing: a key that is both a plain suffix and an exception. */
  lemma {:induction false} ExceptionCheckMirrorsSuffixCheck(s: seq<Entry>, x: seq<Entry>)
    ensures SuffixAlsoException(s, x) <==> ExceptionAlsoSuffix(s, x)
  {
    if SuffixAlsoException(s, x) {
      var i :| 0 <= i < |s| && !s[i].wildcard && HasKey(x, s[i].suffix);
      var j :| 0 <= j < |x| && x[j].suffix == s[i].suffix;
      assert HasPlain(s, x[j].suffix);
    }
    if ExceptionAlsoSuffix(s, x) {
      var j :| 0 <= j < |x| && HasPlain(s, x[j].suffix);
      var i :| 0 <= i < |s| && !s[i].wildcard && s[i].suffix == x[j].suffix;
      assert HasKey(x, s[i].suffix);
    }
  }

  // ---------------------------------------------------------------------------
  // One comparator meeting the contract, and the checks run on small lists

  /** Byte-wise comparison of two texts, as `strcmp` does it. */
  function StrCompare(a: string, b: string): (r: int)
    ensures -1 <= r <= 1
  {
    if a == [] then (if b == [] then 0 else -1)
    else if b == [] then 1
    else if a[0] < b[0] then -1
    else if b[0] < a[0] then 1
    else StrCompare(a[1..], b[1..])
  }

  lemma {:induction false} StrCompareZero(a: string, b: string)
    ensures StrCompare(a, b) == 0 <==> a == b
  {
    if a != [] && b != [] && a[0] == b[0] {
      StrCompareZero(a[1..], b[1..]);
      assert a == [a[0]] + a[1..] && b == [b[0]] + b[1..];
    }
  }

  lemma {:induction false} StrCompareFlip(a: string, b: string)
    ensures StrCompare(a, b) < 0 <==> StrCompare(b, a) > 0
  {
    if a != [] && b != [] && a[0] == b[0] {
      StrCompareFlip(a[1..], b[1..]);
    }
  }

  lemma {:induction false} StrCompareTrans(a: string, b: string, c: string)
    requires StrCompare(a, b) <= 0 && StrCompare(b, c) <= 0
    ensures StrCompare(a, c) <= 0
  {
    if a != [] && b != [] && c != [] && a[0] == b[0] == c[0] {
      StrCompareTrans(a[1..], b[1..], c[1..]);
    }
  }

  lemma {:induction false} StrCompareIsKeyOrder()
    ensures IsKeyOrder(StrCompare)
  {
    forall a, b ensures StrCompare(a, b) == 0 <==> a == b { StrCompareZero(a, b); }
    forall a, b ensures StrCompare(a, b) < 0 <==> StrCompare(b, a) > 0 { StrCompareFlip(a, b); }
    forall a, b, c | StrCompare(a, b) <= 0 && StrCompare(b, c) <= 0 ensures StrCompare(a, c) <= 0 {
      StrCompareTrans(a, b, c);
    }
  }

  const UkPlain := Entry("uk", 2, 1, false)
  const UkWild := Entry("uk", 2, 1, true)
  const Example := Entry("example", 7, 1, true)
  const FooExample := Entry("foo.example", 11, 2, false)

  /** '*.uk' next to 'uk' is the one allowed doublet; 'uk' twice is refused. */
  lemma {:induction false} ExampleDoublets()
    ensures !EntriesViolation([UkWild, UkPlain])
    ensures EntriesViolation([UkPlain, UkPlain])
  {
    assert DupAt([UkPlain, UkPlain], 0);
  }

  /** Three equal keys are refused whatever their flags. */
  lemma {:induction false} ExampleTriplet()
    ensures EntriesViolation([UkWild, UkPlain, UkWild])
  {
    assert TripletAt([UkWild, UkPlain, UkWild], 0);
  }

  /** A plain suffix that is also an exception is refused by both cross checks between the vectors. */
  lemma {:induction false} ExampleSuffixAndException()
    ensures SuffixAlsoException([UkWild, UkPlain], [UkPlain])
    ensures ExceptionAlsoSuffix([UkWild, UkPlain], [UkPlain])
  {
    assert [UkPlain][0].suffix == "uk";
    assert HasKey([UkPlain], [UkWild, UkPlain][1].suffix);
    assert HasPlain([UkWild, UkPlain], [UkPlain][0].suffix);
  }

  /** 'foo.example' is already covered by '*.example'. */
  lemma {:induction false} ExampleCovered()
    ensures CoveredByWildcard([Example, FooExample])
  {
    assert FirstDot(FooExample.suffix) == Some(3);
    assert FooExample.suffix[4..] == Example.suffix;
    assert [Example, FooExample][0] == Example;
    assert HasWildcard([Example, FooExample], Example.suffix);
    assert Superfluous([Example, FooExample], [Example, FooExample][1]);
  }
}
