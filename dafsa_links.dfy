/**
 * `encode_links`: the links from a node to its children as one-, two- or
 * three-byte offsets, and the reading of those offsets that the format's
 * grammar documents.
 *
 * The encoder writes its output back to front. `offsets[x]` is the length the
 * output had once node `x` was written; the list of links is written just
 * before the node's label and then reversed, so that in the final array a link
 * reads forwards. The first link is the distance from the link itself to the
 * first child, each further link the distance from the previous child to the
 * next. The children are sorted by decreasing offset, which makes every such
 * distance positive. Because the first distance depends on how many bytes the
 * links take, `encode_links` guesses the length and re-encodes until the
 * guess is exact.
 */
module DafsaLinks {
  import opened Bits
  import opened DafsaGraph
  import opened Optional

  /** `1 << 21`: every distance must lie strictly between 0 and this. */
  const Limit: nat := 0x20_0000

  // ---------------------------------------------------------------------------
  // One offset

  /** One distance as the body of the inner loop of `encode_links` appends it
      to `buf`: "s0xxxxxx", "s10xxxxx xxxxxxxx" or "s11xxxxx xxxxxxxx xxxxxxxx",
      the tag in the high bits of the first byte, then the distance from its
      most significant byte on (`EncodeOffsetBits` states it with the
      shifts and masks the encoder uses). */
  function EncodeOffset(d: nat): (e: seq<nat>)
    requires 0 < d < Limit
    ensures 1 <= |e| <= 3 && e[0] < 0x80
  {
    if d < 0x40 then [d]
    else if d < 0x2000 then [0x40 + d / 0x100, d % 0x100]
    else [0x60 + d / 0x1_0000, d / 0x100 % 0x100, d % 0x100]
  }

  lemma {:induction false} Pow2Values()
    ensures Pow2(5) == 0x20 && Pow2(7) == 0x80 && Pow2(8) == 0x100 && Pow2(16) == 0x1_0000
  {
  }

  /** The bytes of an offset as the encoder computes them: `d`, then
      `0x40 | (d >> 8), d & 0xFF`, then `0x60 | (d >> 16), (d >> 8) & 0xFF, d & 0xFF`. */
  lemma {:induction false} EncodeOffsetBits(d: nat)
    requires 0 < d < Limit
    ensures d < 0x40 ==> EncodeOffset(d) == [d]
    ensures 0x40 <= d < 0x2000 ==> EncodeOffset(d) == [Or(0x40, Shr(d, 8)), And(d, 0xFF)]
    ensures 0x2000 <= d ==> EncodeOffset(d) == [Or(0x60, Shr(d, 16)), And(Shr(d, 8), 0xFF), And(d, 0xFF)]
  {
    Pow2Values();
    AndLowMask(d, 8);
    if 0x40 <= d < 0x2000 {
      OrDisjoint(0x40, d / 0x100, 5);
    } else if 0x2000 <= d {
      OrDisjoint(0x60, d / 0x1_0000, 5);
      AndLowMask(d / 0x100, 8);
      assert d / 0x1_0000 < 0x20;
    }
  }

  /** What one offset of the encoding reads back as: the distance, the number
      of bytes, and whether bit 7 marks it as a node's last link. */
  datatype Link = Link(distance: nat, size: nat, end: bool)

  /** The grammar's `<offset>`/`<end_offset>` read at `i`. The low seven bits
      of the first byte select the size: 0x00-0x3F one byte, 0x40-0x5F two,
      0x60-0x7F three; the bits below the tag, then the following bytes, are
      the distance. */
  function ReadLink(bs: seq<nat>, i: nat): (r: Option<Link>)
    ensures r.Some? ==> 1 <= r.value.size && i + r.value.size <= |bs|
  {
    if i >= |bs| then None
    else
      var b := bs[i] % 0x80;
      var end := bs[i] >= 0x80;
      if b < 0x40 then Some(Link(b, 1, end))
      else if b < 0x60 then
        if i + 1 < |bs| then Some(Link(b % 0x20 * 0x100 + bs[i + 1], 2, end)) else None
      else if i + 2 < |bs| then Some(Link(b % 0x20 * 0x1_0000 + bs[i + 1] * 0x100 + bs[i + 2], 3, end))
      else None
  }

  /** The grammar's `<offsets>` read at `i`: distances up to and including the
      one marked as last. */
  function ReadLinks(bs: seq<nat>, i: nat): (r: Option<seq<nat>>)
    ensures r.Some? ==> r.value != []
    decreases |bs| - i
  {
    match ReadLink(bs, i)
    case None => None
    case Some(l) =>
      if l.end then Some([l.distance])
      else match ReadLinks(bs, i + l.size)
        case None => None
        case Some(ds) => Some([l.distance] + ds)
  }

  /** The first byte, with bit 7 set when `end`. */
  function Mark(e: seq<nat>, end: bool): (m: seq<nat>)
    requires e != []
    ensures |m| == |e| && m[0] == e[0] + (if end then 0x80 else 0) && m[1..] == e[1..]
  {
    if end then [e[0] + 0x80] + e[1..] else e
  }

  /** An encoded offset reads back as the distance it encodes, whatever follows. */
  lemma {:induction false} ReadEncodeOffset(d: nat, end: bool, rest: seq<nat>)
    requires 0 < d < Limit
    ensures EncodeOffset(d) != []
    ensures ReadLink(Mark(EncodeOffset(d), end) + rest, 0) == Some(Link(d, |EncodeOffset(d)|, end))
  {
    var e := EncodeOffset(d);
    var bs := Mark(e, end) + rest;
    var flag := if end then 0x80 else 0;
    if d < 0x40 {
      ReadOne(d, flag, bs);
    } else if d < 0x2000 {
      ReadTwo(d, flag, bs);
    } else {
      ReadThree(d, flag, bs);
    }
  }

  lemma {:induction false} ReadOne(d: nat, flag: nat, bs: seq<nat>)
    requires d < 0x40 && (flag == 0 || flag == 0x80) && |bs| >= 1
    requires bs[0] == d + flag
    ensures ReadLink(bs, 0) == Some(Link(d, 1, flag == 0x80))
  {
  }

  lemma {:induction false} ReadTwo(d: nat, flag: nat, bs: seq<nat>)
    requires 0x40 <= d < 0x2000 && (flag == 0 || flag == 0x80) && |bs| >= 2
    requires bs[0] == 0x40 + d / 0x100 + flag && bs[1] == d % 0x100
    ensures ReadLink(bs, 0) == Some(Link(d, 2, flag == 0x80))
  {
    var q := d / 0x100;
    assert bs[0] % 0x80 == 0x40 + q;
    assert (0x40 + q) % 0x20 == q;
  }

  lemma {:induction false} ReadThree(d: nat, flag: nat, bs: seq<nat>)
    requires 0x2000 <= d < Limit && (flag == 0 || flag == 0x80) && |bs| >= 3
    requires bs[0] == 0x60 + d / 0x1_0000 + flag && bs[1] == d / 0x100 % 0x100 && bs[2] == d % 0x100
    ensures ReadLink(bs, 0) == Some(Link(d, 3, flag == 0x80))
  {
    var q := d / 0x1_0000;
    assert bs[0] % 0x80 == 0x60 + q;
    assert (0x60 + q) % 0x20 == q;
    var h := d / 0x100;
    assert h == q * 0x100 + h % 0x100;
    assert d == h * 0x100 + d % 0x100;
  }

  /** Reading ignores whatever comes before. */
  lemma {:induction false} ReadLinkShift(p: seq<nat>, bs: seq<nat>, i: nat)
    ensures ReadLink(p + bs, |p| + i) == ReadLink(bs, i)
  {
    if i < |bs| {
      assert (p + bs)[|p| + i] == bs[i];
      if i + 1 < |bs| {
        assert (p + bs)[|p| + i + 1] == bs[i + 1];
      }
      if i + 2 < |bs| {
        assert (p + bs)[|p| + i + 2] == bs[i + 2];
      }
    }
  }

  lemma {:induction false} ReadLinksShift(p: seq<nat>, bs: seq<nat>, i: nat)
    ensures ReadLinks(p + bs, |p| + i) == ReadLinks(bs, i)
    decreases |bs| - i
  {
    ReadLinkShift(p, bs, i);
    match ReadLink(bs, i)
    case None =>
    case Some(l) =>
      if !l.end {
        ReadLinksShift(p, bs, i + l.size);
      }
  }

  // ---------------------------------------------------------------------------
  // A list of offsets

  /** Every distance is one that the loop accepts. */
  predicate Valid(ds: seq<int>) {
    forall k :: 0 <= k < |ds| ==> 0 < ds[k] < Limit
  }

  /** `buf` after the inner loop: the offsets one after the other. */
  function Links(ds: seq<int>): (bs: seq<nat>)
    requires Valid(ds)
    ensures |ds| <= |bs| <= 3 * |ds|
  {
    if ds == [] then [] else Links(ds[..|ds| - 1]) + EncodeOffset(ds[|ds| - 1])
  }

  lemma {:induction false} LinksCons(ds: seq<int>)
    requires Valid(ds) && ds != []
    ensures Valid(ds[1..]) && Links(ds) == EncodeOffset(ds[0]) + Links(ds[1..])
    decreases |ds|
  {
    if |ds| > 1 {
      var init := ds[..|ds| - 1];
      assert init[1..] == ds[1..][..|ds[1..]| - 1];
      LinksCons(init);
    }
  }

  /** `buf` once `buf[last] |= (1 << 7)` has marked the last offset. */
  function Flagged(ds: seq<int>): (bs: seq<nat>)
    requires Valid(ds) && ds != []
    ensures |ds| <= |bs| <= 3 * |ds|
  {
    Links(ds[..|ds| - 1]) + Mark(EncodeOffset(ds[|ds| - 1]), true)
  }

  lemma {:induction false} Associative(a: seq<nat>, b: seq<nat>, c: seq<nat>)
    ensures (a + b) + c == a + (b + c)
  {
  }

  lemma {:induction false} FlaggedCons(ds: seq<int>)
    requires Valid(ds) && |ds| > 1
    ensures Valid(ds[1..]) && Flagged(ds) == EncodeOffset(ds[0]) + Flagged(ds[1..])
  {
    var n, init, tail := |ds|, ds[..|ds| - 1], ds[1..];
    LinksCons(init);
    assert init[0] == ds[0] && init[1..] == tail[..|tail| - 1] && tail[|tail| - 1] == ds[n - 1];
    var m := Mark(EncodeOffset(ds[n - 1]), true);
    var e, rest := EncodeOffset(ds[0]), Links(init[1..]);
    assert Flagged(ds) == (e + rest) + m;
    Associative(e, rest, m);
    assert Flagged(tail) == rest + m;
  }

  /** Decoding the marked offsets gives back the distances, whatever follows:
      the grammar's reading of `<offsets>` inverts `encode_links`. */
  lemma {:induction false} ReadFlagged(ds: seq<int>, rest: seq<nat>)
    requires Valid(ds) && ds != []
    ensures ReadLinks(Flagged(ds) + rest, 0) == Some(ds)
    decreases |ds|
  {
    var e := EncodeOffset(ds[0]);
    if |ds| == 1 {
      assert Flagged(ds) == Mark(e, true) by {
        assert ds[..0] == [];
      }
      ReadEncodeOffset(ds[0], true, rest);
      assert ds == [ds[0]];
    } else {
      assert Valid(ds[1..]);
      var tail := Flagged(ds[1..]) + rest;
      assert Flagged(ds) + rest == Mark(e, false) + tail by {
        FlaggedCons(ds);
      }
      ReadFlagged(ds[1..], rest);
      ReadOn(ds[0], ds[1..], tail);
      assert [ds[0]] + ds[1..] == ds;
    }
  }

  /** A link not marked as last is followed by the links after it. */
  lemma {:induction false} ReadOn(d: int, ds: seq<int>, tail: seq<nat>)
    requires 0 < d < Limit && ReadLinks(tail, 0) == Some(ds)
    ensures ReadLinks(Mark(EncodeOffset(d), false) + tail, 0) == Some([d] + ds)
  {
    var e := EncodeOffset(d);
    ReadEncodeOffset(d, false, tail);
    ReadLinksShift(e, tail, 0);
  }

  // ---------------------------------------------------------------------------
  // Sorting the children

  /** Every child is a node with a recorded offset. */
  predicate Keyed(cs: seq<Target>, offsets: map<nat, nat>) {
    forall c :: c in cs ==> c.At? && c.index in offsets
  }

  /** `offsets[id(c)]`, with 0 for a child without one. */
  function Off(offsets: map<nat, nat>, c: Target): nat {
    if c.At? && c.index in offsets then offsets[c.index] else 0
  }

  predicate Descending(cs: seq<Target>, offsets: map<nat, nat>) {
    forall i, j :: 0 <= i < j < |cs| ==> Off(offsets, cs[i]) >= Off(offsets, cs[j])
  }

  /** `x` placed after every element of the sorted `s` whose offset is at
      least its own. */
  function Insert(x: Target, s: seq<Target>, offsets: map<nat, nat>): (r: seq<Target>)
    requires Descending(s, offsets)
    ensures |r| == |s| + 1 && multiset(r) == multiset(s) + multiset{x}
    ensures forall c :: c in r ==> c == x || c in s
    ensures Descending(r, offsets)
  {
    if s == [] then [x]
    else
      var n := |s| - 1;
      if Off(offsets, s[n]) >= Off(offsets, x) then
        InsertLast(x, s, offsets);
        s + [x]
      else
        DescendingInit(s, offsets);
        var r' := Insert(x, s[..n], offsets);
        InsertBefore(x, s, r', offsets);
        r' + [s[n]]
  }

  lemma {:induction false} DescendingInit(s: seq<Target>, offsets: map<nat, nat>)
    requires s != [] && Descending(s, offsets)
    ensures Descending(s[..|s| - 1], offsets)
  {
  }

  /** `x` goes last when its offset is no larger than the last one's. */
  lemma {:induction false} InsertLast(x: Target, s: seq<Target>, offsets: map<nat, nat>)
    requires s != [] && Descending(s, offsets) && Off(offsets, s[|s| - 1]) >= Off(offsets, x)
    ensures Descending(s + [x], offsets)
  {
    var r := s + [x];
    forall i, j | 0 <= i < j < |r| ensures Off(offsets, r[i]) >= Off(offsets, r[j]) {
      if j == |s| {
        assert Off(offsets, s[i]) >= Off(offsets, s[|s| - 1]);
      }
    }
  }

  /** Otherwise the last element goes after `x` placed among the others. */
  lemma {:induction false} InsertBefore(x: Target, s: seq<Target>, r': seq<Target>, offsets: map<nat, nat>)
    requires s != [] && Descending(s, offsets) && Off(offsets, s[|s| - 1]) < Off(offsets, x)
    requires multiset(r') == multiset(s[..|s| - 1]) + multiset{x} && Descending(r', offsets)
    requires forall c :: c in r' ==> c == x || c in s[..|s| - 1]
    ensures multiset(r' + [s[|s| - 1]]) == multiset(s) + multiset{x}
    ensures forall c :: c in r' + [s[|s| - 1]] ==> c == x || c in s
    ensures Descending(r' + [s[|s| - 1]], offsets)
  {
    var n := |s| - 1;
    assert s == s[..n] + [s[n]];
    var r := r' + [s[n]];
    forall i, j | 0 <= i < j < |r| ensures Off(offsets, r[i]) >= Off(offsets, r[j]) {
      if j == |r'| {
        assert r[i] in r';
        if r[i] != x {
          var k :| 0 <= k < n && s[k] == r[i];
        }
      }
    }
  }

  /** Python's `sorted(children, key = lambda x: -offsets[id(x)])`: the
      children by decreasing offset, equal offsets in their original order. */
  function SortDesc(cs: seq<Target>, offsets: map<nat, nat>): (r: seq<Target>)
    ensures |r| == |cs| && multiset(r) == multiset(cs)
    ensures forall c :: c in r ==> c in cs
    ensures Descending(r, offsets)
  {
    if cs == [] then []
    else
      var n := |cs| - 1;
      assert cs == cs[..n] + [cs[n]];
      Insert(cs[n], SortDesc(cs[..n], offsets), offsets)
  }

  /** The distances of the inner loop for the sorted children `cs`, the first
      measured from `start`, each further one from the previous child. */
  function Dists(cs: seq<Target>, offsets: map<nat, nat>, start: int): (ds: seq<int>)
    requires Keyed(cs, offsets)
    ensures |ds| == |cs|
    ensures forall k {:trigger ds[k]} :: 0 <= k < |cs| ==>
      ds[k] == (if k == 0 then start else offsets[cs[k - 1].index]) - offsets[cs[k].index]
  {
    if cs == [] then []
    else
      assert cs[0] in cs && forall c :: c in cs[1..] ==> c in cs;
      [start - offsets[cs[0].index]] + Dists(cs[1..], offsets, offsets[cs[0].index])
  }

  /** Moving the start nearer to the first child never makes the offsets longer. */
  lemma {:induction false} LinksShorter(cs: seq<Target>, offsets: map<nat, nat>, start: int, start': int)
    requires Keyed(cs, offsets) && cs != [] && start' <= start
    requires Valid(Dists(cs, offsets, start)) && Valid(Dists(cs, offsets, start'))
    ensures |Links(Dists(cs, offsets, start'))| <= |Links(Dists(cs, offsets, start))|
  {
    var ds, ds' := Dists(cs, offsets, start), Dists(cs, offsets, start');
    LinksCons(ds);
    LinksCons(ds');
    assert ds[1..] == ds'[1..];
  }

  /** The links as `encode_links` returns them: read backwards, the marked
      offsets of the children sorted by decreasing offset, the first one
      measured from the end of the links themselves, where `current` bytes
      precede them. */
  ghost predicate Encoded(children: seq<Target>, offsets: map<nat, nat>, current: nat, out: seq<nat>) {
    Keyed(children, offsets) && children != [] && Written(SortDesc(children, offsets), offsets, current, out)
  }

  /** `out`, read backwards, is the marked offsets of the children `cs`, the
      first measured from the end of `out` itself. */
  ghost predicate Written(cs: seq<Target>, offsets: map<nat, nat>, current: nat, out: seq<nat>)
    requires Keyed(cs, offsets)
  {
    var ds := Dists(cs, offsets, current + |out|);
    Valid(ds) && ds != [] && out == Rev(Flagged(ds))
  }

  /** The links as returned, reversed back, are the marked distances. */
  lemma {:induction false} EncodedFlagged(children: seq<Target>, offsets: map<nat, nat>, current: nat, out: seq<nat>) returns (ds: seq<nat>)
    requires Encoded(children, offsets, current, out)
    ensures Keyed(SortDesc(children, offsets), offsets)
    ensures ds == Dists(SortDesc(children, offsets), offsets, current + |out|)
    ensures Valid(ds) && ds != [] && Rev(out) == Flagged(ds)
  {
    ds := Dists(SortDesc(children, offsets), offsets, current + |out|);
    RevRev(Flagged(ds));
  }

  /** Reversing the marked offsets gives the links as returned. */
  lemma {:induction false} WrittenRev(cs: seq<Target>, offsets: map<nat, nat>, current: nat, bs: seq<nat>)
    requires Keyed(cs, offsets) && SelfMeasured(cs, offsets, current, bs)
    ensures Written(cs, offsets, current, Rev(bs))
  {
    var ds := Dists(cs, offsets, current + |bs|);
    assert |Rev(bs)| == |bs|;
    assert Dists(cs, offsets, current + |Rev(bs)|) == ds;
  }

  /** `bs` are the marked offsets of the children `cs`, the first measured
      from the end of `bs` itself, where `current` bytes precede it. */
  ghost predicate SelfMeasured(cs: seq<Target>, offsets: map<nat, nat>, current: nat, bs: seq<nat>)
    requires Keyed(cs, offsets)
  {
    var ds := Dists(cs, offsets, current + |bs|);
    Valid(ds) && ds != [] && bs == Flagged(ds)
  }

  /** The links returned with the longest self-consistent length are the
      only such links: `encode_links` has one result. */
  lemma {:induction false} EncodedUnique(children: seq<Target>, offsets: map<nat, nat>, current: nat, out: seq<nat>, out': seq<nat>)
    requires Encoded(children, offsets, current, out) && Encoded(children, offsets, current, out')
    requires Longest(SortDesc(children, offsets), offsets, current, |out|)
    requires Longest(SortDesc(children, offsets), offsets, current, |out'|)
    ensures out == out'
  {
    var cs := SortDesc(children, offsets);
    EncodedSelfConsistent(children, offsets, current, out);
    EncodedSelfConsistent(children, offsets, current, out');
    WrittenByLength(cs, offsets, current, out, out');
  }

  /** Written links are fixed by their length. */
  lemma {:induction false} WrittenByLength(cs: seq<Target>, offsets: map<nat, nat>, current: nat, out: seq<nat>, out': seq<nat>)
    requires Keyed(cs, offsets) && Written(cs, offsets, current, out) && Written(cs, offsets, current, out')
    requires |out| == |out'|
    ensures out == out'
  {
  }

  /** One child written at offset 0, with 62 bytes before the links: one
      byte measured from its own end (distance 63) is consistent, but so are
      two bytes (distance 64), and the loop, which starts at three bytes and
      only shrinks, returns the two. */
  lemma {:induction false} ExampleLongest()
    ensures Encoded([At(0)], map[0 := 0], 62, [0xBF])
    ensures Encoded([At(0)], map[0 := 0], 62, [0x40, 0xC0])
    ensures !Longest(SortDesc([At(0)], map[0 := 0]), map[0 := 0], 62, 1)
    ensures Longest(SortDesc([At(0)], map[0 := 0]), map[0 := 0], 62, 2)
  {
    var cs, offsets := [At(0)], map[0 := 0];
    ExampleOneByte();
    ExampleTwoBytes();
    assert !SelfConsistent(cs, offsets, 62, 3) by {
      assert Dists(cs, offsets, 65) == [65];
    }
    assert Longest(cs, offsets, 62, 2) by {
      forall n | 2 < n <= 3 * |cs| ensures !SelfConsistent(cs, offsets, 62, n) {
        assert n == 3;
      }
    }
  }

  /** The one-byte links of `ExampleLongest`. */
  lemma {:induction false} ExampleOneByte()
    ensures SortDesc([At(0)], map[0 := 0]) == [At(0)]
    ensures Encoded([At(0)], map[0 := 0], 62, [0xBF])
  {
    var cs, offsets := [At(0)], map[0 := 0];
    assert Dists(cs, offsets, 63) == [63];
    assert Flagged([63]) == [0xBF];
  }

  /** The two-byte links of `ExampleLongest`. */
  lemma {:induction false} ExampleTwoBytes()
    ensures SelfConsistent([At(0)], map[0 := 0], 62, 2)
    ensures Encoded([At(0)], map[0 := 0], 62, [0x40, 0xC0])
  {
    var cs, offsets := [At(0)], map[0 := 0];
    assert SortDesc(cs, offsets) == cs;
    assert Dists(cs, offsets, 64) == [64];
    TwoBytes();
    assert Rev([0xC0, 0x40]) == [0x40, 0xC0];
  }

  /** The distance 64 takes two bytes. */
  lemma {:induction false} TwoBytes()
    ensures Valid([64]) && |Links([64])| == 2 && Flagged([64]) == [0xC0, 0x40]
  {
    assert EncodeOffset(64) == [0x40, 0x40];
    assert Links([64]) == [0x40, 0x40];
  }

  /** Returned links have a self-consistent length of at most three bytes per child. */
  lemma {:induction false} EncodedSelfConsistent(children: seq<Target>, offsets: map<nat, nat>, current: nat, out: seq<nat>)
    requires Encoded(children, offsets, current, out)
    ensures Keyed(SortDesc(children, offsets), offsets)
    ensures |out| <= 3 * |SortDesc(children, offsets)| && SelfConsistent(SortDesc(children, offsets), offsets, current, |out|)
  {
    var ds := EncodedFlagged(children, offsets, current, out);
    EncodedSize(children, offsets, current, out);
    LinksCons(ds);
    assert |out| == |Rev(out)| == |Flagged(ds)|;
  }

  /** Every link takes one to three bytes. */
  lemma {:induction false} EncodedSize(children: seq<Target>, offsets: map<nat, nat>, current: nat, out: seq<nat>)
    requires Encoded(children, offsets, current, out)
    ensures |children| <= |out| <= 3 * |children|
  {
    var ds := Dists(SortDesc(children, offsets), offsets, current + |out|);
    assert |ds| == |children| && |out| == |Flagged(ds)|;
  }

  /** Appending one accepted distance appends its bytes. */
  lemma {:induction false} LinksSnoc(ds: seq<int>, k: nat)
    requires k < |ds| && Valid(ds[..k]) && 0 < ds[k] < Limit
    ensures Valid(ds[..k + 1]) && Links(ds[..k + 1]) == Links(ds[..k]) + EncodeOffset(ds[k])
  {
    assert ds[..k + 1][..k] == ds[..k];
  }

  /** The state of the inner loop of `encode_links` after `k` children: the
      offsets so far, the next distance's starting point, and where the last
      offset written starts. */
  ghost predicate Passed(cs: seq<Target>, offsets: map<nat, nat>, start: int, k: nat, offset: int, buf: seq<nat>, last: nat)
    requires Keyed(cs, offsets) && k <= |cs|
  {
    var ds := Dists(cs, offsets, start);
    Valid(ds[..k]) && buf == Links(ds[..k])
    && offset == (if k == 0 then start else Off(offsets, cs[k - 1]))
    && (k > 0 ==> Valid(ds[..k - 1]) && last == |Links(ds[..k - 1])|)
  }

  /** An accepted distance extends the pass by one child. */
  lemma {:induction false} PassStep(cs: seq<Target>, offsets: map<nat, nat>, start: int, k: nat, offset: int, buf: seq<nat>, last: nat, distance: int)
    requires Keyed(cs, offsets) && k < |cs| && Passed(cs, offsets, start, k, offset, buf, last)
    requires distance == offset - Off(offsets, cs[k]) && 0 < distance < Limit
    ensures Passed(cs, offsets, start, k + 1, offset - distance, buf + EncodeOffset(distance), |buf|)
  {
    var ds := Dists(cs, offsets, start);
    assert ds[k] == distance by {
      assert cs[k] in cs && (k > 0 ==> cs[k - 1] in cs);
    }
    LinksSnoc(ds, k);
    assert ds[..k + 1][..k] == ds[..k];
  }

  /** A rejected distance is one of the distances of the whole list. */
  lemma {:induction false} PassFail(cs: seq<Target>, offsets: map<nat, nat>, start: int, k: nat, offset: int, buf: seq<nat>, last: nat, distance: int)
    requires Keyed(cs, offsets) && k < |cs| && Passed(cs, offsets, start, k, offset, buf, last)
    requires distance == offset - Off(offsets, cs[k]) && !(0 < distance < Limit)
    ensures !Valid(Dists(cs, offsets, start))
  {
    var ds := Dists(cs, offsets, start);
    assert cs[k] in cs && (k > 0 ==> cs[k - 1] in cs);
    assert ds[k] == offset - Off(offsets, cs[k]);
  }

  /** After the last child, the pass holds the offsets of the whole list. */
  lemma {:induction false} PassDone(cs: seq<Target>, offsets: map<nat, nat>, start: int, offset: int, buf: seq<nat>, last: nat)
    requires Keyed(cs, offsets) && cs != [] && Passed(cs, offsets, start, |cs|, offset, buf, last)
    ensures var ds := Dists(cs, offsets, start);
      Valid(ds) && buf == Links(ds) && last == |Links(ds[..|ds| - 1])|
  {
    var ds := Dists(cs, offsets, start);
    assert ds[..|cs|] == ds;
  }

  /** One pass of the inner loop of `encode_links` over the sorted children
      `cs`, with the first distance measured from `start`: the unmarked
      offsets and the position of the last one, or the failed range check. */
  method LinksPass(cs: seq<Target>, offsets: map<nat, nat>, start: int) returns (res: Result<(seq<nat>, nat)>)
    requires Keyed(cs, offsets) && cs != []
    ensures res.Ok? <==> Valid(Dists(cs, offsets, start))
    ensures res.Err? ==> res.error == AssertionError
    ensures res.Ok? ==> var ds := Dists(cs, offsets, start);
      res.value.0 == Links(ds) && res.value.1 == |Links(ds[..|ds| - 1])|
  {
    var offset: int := start;
    var buf: seq<nat> := [];
    var last: nat := 0;
    for k := 0 to |cs|
      invariant Passed(cs, offsets, start, k, offset, buf, last)
    {
      assert cs[k] in cs;
      var distance := offset - offsets[cs[k].index];
      if !(distance > 0 && distance < Limit) {
        PassFail(cs, offsets, start, k, offset, buf, last, distance);
        return Err(AssertionError);
      }
      PassStep(cs, offsets, start, k, offset, buf, last, distance);
      last := |buf|;
      buf := buf + EncodeOffset(distance);
      offset := offset - distance;
    }
    PassDone(cs, offsets, start, offset, buf, last);
    return Ok((buf, last));
  }

  /** `buf[last] |= 0x80`: setting the high bit of the last offset's first
      byte turns the unmarked offsets into the marked ones. */
  lemma {:induction false} FlagLast(ds: seq<int>, buf: seq<nat>, last: nat)
    requires Valid(ds) && ds != [] && buf == Links(ds) && last == |Links(ds[..|ds| - 1])|
    ensures last < |buf| && buf[last := Or(buf[last], 0x80)] == Flagged(ds)
  {
    var init := Links(ds[..|ds| - 1]);
    var e := EncodeOffset(ds[|ds| - 1]);
    assert buf == init + e;
    SetHighBit(e[0]);
  }

  /** `encode_links(children, offsets, current)`, where `current` is the
      length of the output so far. */
  method EncodeLinks(children: seq<Target>, offsets: map<nat, nat>, current: nat) returns (res: Result<seq<nat>>)
    ensures children == [] ==> res == Err(IndexError)
    ensures children != [] && children[0] == Sink ==> res == if |children| == 1 then Ok([]) else Err(AssertionError)
    ensures children != [] && children[0] != Sink && !Keyed(children, offsets) ==> res == Err(KeyError)
    ensures children != [] && children[0] != Sink && Keyed(children, offsets) ==>
      if res.Ok? then Encoded(children, offsets, current, res.value) else res.error == AssertionError
    ensures children != [] && children[0] != Sink && Keyed(children, offsets) && InRange(SortDesc(children, offsets), offsets, current) ==>
      res.Ok?
    ensures children != [] && children[0] != Sink && Keyed(children, offsets) && res.Ok? ==>
      Longest(SortDesc(children, offsets), offsets, current, |res.value|)
  {
    if |children| == 0 {
      return Err(IndexError);
    }
    if children[0] == Sink {
      if |children| != 1 {
        return Err(AssertionError);
      }
      return Ok([]);
    }
    if !Keyed(children, offsets) {
      return Err(KeyError);
    }
    var cs := SortDesc(children, offsets);
    var links := Settle(cs, offsets, current);
    if links.Err? {
      return Err(AssertionError);
    }
    WrittenRev(cs, offsets, current, links.value);
    return Ok(Rev(links.value));
  }

  /** The guess `guess` is no shorter than the offsets it leads to, if
      they can be encoded at all. */
  ghost predicate Fits(cs: seq<Target>, offsets: map<nat, nat>, current: nat, guess: nat)
    requires Keyed(cs, offsets)
  {
    Valid(Dists(cs, offsets, current + guess)) ==> |Links(Dists(cs, offsets, current + guess))| <= guess
  }

  /** One round of the `while True` loop of `encode_links`: a pass with the
      guessed length, and whether the guess was exact. When it was not, the
      new guess is strictly shorter and still fits. */
  method Attempt(cs: seq<Target>, offsets: map<nat, nat>, current: nat, guess: nat) returns (res: Result<(seq<nat>, nat)>, exact: bool)
    requires Keyed(cs, offsets) && cs != [] && Fits(cs, offsets, current, guess)
    ensures res.Ok? <==> Valid(Dists(cs, offsets, current + guess))
    ensures res.Err? ==> res.error == AssertionError
    ensures res.Ok? ==> var ds := Dists(cs, offsets, current + guess);
      Valid(ds) && res.value.0 == Links(ds) && res.value.1 == |Links(ds[..|ds| - 1])|
    ensures res.Ok? ==> (exact <==> |res.value.0| == guess)
    ensures res.Ok? && !exact ==> |res.value.0| < guess && Fits(cs, offsets, current, |res.value.0|)
  {
    res := LinksPass(cs, offsets, current + guess);
    exact := res.Ok? && |res.value.0| == guess;
    if res.Ok? && !exact {
      Refit(cs, offsets, current, guess, res.value.0);
    }
  }

  /** A pass whose length differs from the guess is shorter, and its length
      is a guess that fits. */
  lemma {:induction false} Refit(cs: seq<Target>, offsets: map<nat, nat>, current: nat, guess: nat, buf: seq<nat>)
    requires Keyed(cs, offsets) && cs != [] && Fits(cs, offsets, current, guess)
    requires Valid(Dists(cs, offsets, current + guess)) && buf == Links(Dists(cs, offsets, current + guess))
    requires |buf| != guess
    ensures |buf| < guess && Fits(cs, offsets, current, |buf|)
  {
    var long := Dists(cs, offsets, current + guess);
    assert |buf| < guess by {
      assert Valid(long) && buf == Links(long);
    }
    FitsShorter(cs, offsets, current, guess, |buf|);
  }

  /** The length of the offsets for one guess, when shorter, is itself a
      guess that fits. */
  lemma {:induction false} FitsShorter(cs: seq<Target>, offsets: map<nat, nat>, current: nat, guess: nat, n: nat)
    requires Keyed(cs, offsets) && cs != [] && n <= guess
    requires Valid(Dists(cs, offsets, current + guess)) && |Links(Dists(cs, offsets, current + guess))| == n
    ensures Fits(cs, offsets, current, n)
  {
    if Valid(Dists(cs, offsets, current + n)) {
      LinksShorter(cs, offsets, current + guess, current + n);
    }
  }

  /** Marked offsets as long as the guess they were measured with are
      measured from their own end. */
  lemma {:induction false} Landed(cs: seq<Target>, offsets: map<nat, nat>, current: nat, guess: nat, links: seq<nat>)
    requires Keyed(cs, offsets) && cs != [] && Valid(Dists(cs, offsets, current + guess))
    requires links == Flagged(Dists(cs, offsets, current + guess)) && |links| == guess
    ensures SelfMeasured(cs, offsets, current, links)
  {
    var ds := Dists(cs, offsets, current + guess);
    assert Dists(cs, offsets, current + |links|) == ds;
    assert ds != [] by {
      assert |ds| == |cs|;
    }
  }

  /** Links of length `n` measured from their own end: a guess of `n`
      that the loop would accept as exact. */
  ghost predicate SelfConsistent(cs: seq<Target>, offsets: map<nat, nat>, current: nat, n: nat)
    requires Keyed(cs, offsets)
  {
    Valid(Dists(cs, offsets, current + n)) && |Links(Dists(cs, offsets, current + n))| == n
  }

  /** No guess longer than `len`, up to three bytes per link, is exact:
      `len` is the longest self-consistent length. */
  ghost predicate Longest(cs: seq<Target>, offsets: map<nat, nat>, current: nat, len: nat)
    requires Keyed(cs, offsets)
  {
    forall n :: len < n <= 3 * |cs| ==> !SelfConsistent(cs, offsets, current, n)
  }

  /** A guess whose pass came out shorter rules out itself and every length
      between the two: those passes are no longer, so shorter than their
      guess. */
  lemma {:induction false} Overshot(cs: seq<Target>, offsets: map<nat, nat>, current: nat, guess: nat, n: nat)
    requires Keyed(cs, offsets) && cs != [] && Valid(Dists(cs, offsets, current + guess))
    requires |Links(Dists(cs, offsets, current + guess))| < n <= guess
    ensures !SelfConsistent(cs, offsets, current, n)
  {
    if Valid(Dists(cs, offsets, current + n)) {
      LinksShorter(cs, offsets, current + guess, current + n);
    }
  }

  /** The distances of the sorted children `cs` are in range both when
      their links take one byte each and when they take three, the shortest
      and the longest guess `encode_links` can make. */
  ghost predicate InRange(cs: seq<Target>, offsets: map<nat, nat>, current: nat)
    requires Keyed(cs, offsets)
  {
    Valid(Dists(cs, offsets, current + |cs|)) && Valid(Dists(cs, offsets, current + 3 * |cs|))
  }

  /** Only the first distance depends on where the links end, and it grows
      with that end, so distances in range for the shortest and the longest
      guess are in range for every guess between them. */
  lemma {:induction false} InRangeBetween(cs: seq<Target>, offsets: map<nat, nat>, current: nat, guess: nat)
    requires Keyed(cs, offsets) && InRange(cs, offsets, current)
    requires |cs| <= guess <= 3 * |cs|
    ensures Valid(Dists(cs, offsets, current + guess))
  {
    var lo, mid, hi := Dists(cs, offsets, current + |cs|), Dists(cs, offsets, current + guess), Dists(cs, offsets, current + 3 * |cs|);
    forall k | 0 <= k < |cs|
      ensures 0 < mid[k] < Limit
    {
      if k == 0 {
        assert lo[0] <= mid[0] <= hi[0];
      } else {
        assert mid[k] == lo[k];
      }
    }
  }

  /** No two recorded nodes share an offset. */
  predicate Injective(offsets: map<nat, nat>) {
    forall y, z :: y in offsets && z in offsets && y != z ==> offsets[y] != offsets[z]
  }

  /** No element of `s` occurs more than once in it. */
  lemma {:induction false} DistinctOnce(s: seq<Target>, c: Target)
    requires Distinct(s)
    ensures multiset(s)[c] <= 1
    decreases |s|
  {
    if s != [] {
      assert s == [s[0]] + s[1..];
      assert Distinct(s[1..]) by {
        forall i, j | 0 <= i < j < |s[1..]| ensures s[1..][i] != s[1..][j] {
          assert s[1..][i] == s[i + 1] && s[1..][j] == s[j + 1];
        }
      }
      DistinctOnce(s[1..], c);
      if c == s[0] {
        assert c !in s[1..] by {
          forall i | 0 <= i < |s[1..]| ensures s[1..][i] != c {
            assert s[1..][i] == s[i + 1];
          }
        }
      }
    }
  }

  /** A permutation of a list without repeats has none either. */
  lemma {:induction false} DistinctPermuted(cs: seq<Target>, r: seq<Target>)
    requires Distinct(cs) && multiset(r) == multiset(cs)
    ensures Distinct(r)
  {
    forall i, j | 0 <= i < j < |r| ensures r[i] != r[j] {
      if r[i] == r[j] {
        assert r == r[..i] + [r[i]] + r[i + 1..j] + [r[j]] + r[j + 1..];
        assert multiset(r)[r[i]] >= 2;
        DistinctOnce(cs, r[i]);
        assert false;
      }
    }
  }

  /** Sorted distinct children at distinct offsets, none past `current`,
      with at most `Limit - current` bytes for their links: every distance
      measured from `current + guess` is in range. */
  lemma {:induction false} DistsInRange(r: seq<Target>, offsets: map<nat, nat>, current: nat, guess: nat)
    requires Keyed(r, offsets) && Distinct(r) && Descending(r, offsets) && Injective(offsets)
    requires forall c :: c in r ==> Off(offsets, c) <= current
    requires 1 <= guess && current + guess < Limit
    ensures Valid(Dists(r, offsets, current + guess))
  {
    var ds := Dists(r, offsets, current + guess);
    forall k | 0 <= k < |r| ensures 0 < ds[k] < Limit {
      assert r[k] in r;
      if k > 0 {
        assert r[k - 1] in r;
        assert Off(offsets, r[k - 1]) >= Off(offsets, r[k]);
        assert r[k - 1].index != r[k].index;
      }
    }
  }

  /** Both ends of the span of guesses, for sorted children. */
  lemma {:induction false} SortedInRange(r: seq<Target>, offsets: map<nat, nat>, current: nat)
    requires Keyed(r, offsets) && r != [] && Distinct(r) && Descending(r, offsets) && Injective(offsets)
    requires forall c :: c in r ==> Off(offsets, c) <= current
    requires current + 3 * |r| < Limit
    ensures InRange(r, offsets, current)
  {
    DistsInRange(r, offsets, current, |r|);
    DistsInRange(r, offsets, current, 3 * |r|);
  }

  /** Sorting keeps the children, their offsets and their distinctness. */
  lemma {:induction false} SortedAlike(cs: seq<Target>, offsets: map<nat, nat>, current: nat)
    requires Keyed(cs, offsets) && Distinct(cs)
    requires forall c :: c in cs ==> Off(offsets, c) <= current
    ensures var r := SortDesc(cs, offsets);
      Keyed(r, offsets) && Distinct(r) && forall c :: c in r ==> Off(offsets, c) <= current
  {
    DistinctPermuted(cs, SortDesc(cs, offsets));
  }

  /** Distinct children at distinct offsets, none past `current`, whose
      links stay below the limit even at three bytes each, are in range for
      every guess `encode_links` can make. */
  lemma {:induction false} InRangeOf(cs: seq<Target>, offsets: map<nat, nat>, current: nat)
    requires Keyed(cs, offsets) && cs != [] && Distinct(cs) && Injective(offsets)
    requires forall c :: c in cs ==> Off(offsets, c) <= current
    requires current + 3 * |cs| < Limit
    ensures InRange(SortDesc(cs, offsets), offsets, current)
  {
    var r := SortDesc(cs, offsets);
    SortedAlike(cs, offsets, current);
    SortedInRange(r, offsets, current);
  }

  /** The `while True` loop of `encode_links` over the sorted children `cs`:
      encoding with a guessed length until the guess is exact, then marking
      the last offset. Every guess lies between one and three bytes per
      link, so the loop succeeds whenever the distances are in range for
      both ends of that span. */
  method Settle(cs: seq<Target>, offsets: map<nat, nat>, current: nat) returns (res: Result<seq<nat>>)
    requires Keyed(cs, offsets) && cs != []
    ensures res.Ok? ==> SelfMeasured(cs, offsets, current, res.value)
    ensures res.Err? ==> res.error == AssertionError
    ensures InRange(cs, offsets, current) ==> res.Ok?
    ensures res.Ok? ==> Longest(cs, offsets, current, |res.value|)
  {
    var guess: nat := 3 * |cs|;
    var buf: seq<nat>, last: nat;
    while true
      invariant Fits(cs, offsets, current, guess)
      invariant |cs| <= guess <= 3 * |cs|
      invariant Longest(cs, offsets, current, guess)
      decreases guess
    {
      if InRange(cs, offsets, current) {
        InRangeBetween(cs, offsets, current, guess);
      }
      var pass, exact := Attempt(cs, offsets, current, guess);
      if pass.Err? {
        return Err(AssertionError);
      }
      buf, last := pass.value.0, pass.value.1;
      if exact {
        break;
      }
      forall n | |buf| < n <= guess
        ensures !SelfConsistent(cs, offsets, current, n)
      {
        Overshot(cs, offsets, current, guess, n);
      }
      guess := |buf|;
    }
    FlagLast(Dists(cs, offsets, current + guess), buf, last);
    var links := buf[last := Or(buf[last], 0x80)];
    Landed(cs, offsets, current, guess, links);
    return Ok(links);
  }
}
