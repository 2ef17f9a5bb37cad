/** Cutting a canonical segment list at a character position and putting something in the gap.

    A cut is a segment index together with a byte index into that segment, as computed by the
    chunk's segment lookup. */
module Cuts {
  import opened Encodings
  import opened Ropes

  /** Segment `i`, byte `at` is a boundary between the first `o` cells and the others. */
  ghost predicate CutAt(e: Encoding, segs: seq<Segment>, o: nat, i: nat, at: nat) {
    && i < |segs| && o <= |View(e, segs)| && at <= |segs[i].text|
    && var s := segs[i];
    && WellFormed(e, s.text[..at]) && WellFormed(e, s.text[at..])
    && View(e, segs)[..o] == View(e, segs[..i]) + Cells(e, s.author, s.text[..at])
    && View(e, segs)[o..] == Cells(e, s.author, s.text[at..]) + View(e, segs[i + 1..])
  }

  /** The result of the segment lookup: the last segment that starts at or before `o`, and the byte
      index of character `o` in it. */
  ghost predicate Located(e: Encoding, segs: seq<Segment>, o: nat, i: nat, at: nat) {
    && i < |segs| && segs[i].offset <= o
    && var k := o - segs[i].offset;
    && k <= |Decode(e, segs[i].text)| && at == ByteIndex(e, segs[i].text, k)
    && (k == |Decode(e, segs[i].text)| ==> i == |segs| - 1)
  }

  /** Character `k` of segment `i` is a cut. */
  lemma CutInside(e: Encoding, segs: seq<Segment>, i: nat, k: nat, at: nat)
    requires Canonical(e, segs, 0) && i < |segs|
    requires k <= |Decode(e, segs[i].text)| && at == ByteIndex(e, segs[i].text, k)
    ensures CutAt(e, segs, segs[i].offset + k, i, at)
    ensures segs[i].text != [] && (at == 0 <==> k == 0) && (at == |segs[i].text| <==> k == |Decode(e, segs[i].text)|)
  {
    hide Canonical, View, Cells, WellFormed, Decode, ByteIndex;
    SegmentAt(e, segs, 0, i);
    var s := segs[i];
    CellsCut(e, s.author, s.text, k);
    CutMiddle(View(e, segs[..i]), Cells(e, s.author, s.text), View(e, segs[i + 1..]), k);
  }

  lemma LengthAt(e: Encoding, segs: seq<Segment>, i: nat)
    requires Canonical(e, segs, 0) && i < |segs|
    ensures |View(e, segs)| == segs[i].offset + |Decode(e, segs[i].text)| + |View(e, segs[i + 1..])|
    ensures i + 1 == |segs| ==> |View(e, segs[i + 1..])| == 0
    ensures i > 0 ==> segs[i].offset > 0
  {
    hide Canonical, Cells, Decode;
    SegmentAt(e, segs, 0, i);
    if i > 0 {
      EndCells(e, segs[..i], 0);
    }
  }

  lemma LocatedIsCut(e: Encoding, segs: seq<Segment>, o: nat, i: nat, at: nat)
    requires Canonical(e, segs, 0) && Located(e, segs, o, i, at)
    ensures CutAt(e, segs, o, i, at) && i < |segs| && at <= |segs[i].text| && segs[i].text != []
    ensures segs[i].offset <= o && (at == 0 <==> segs[i].offset == o)
    ensures at == |segs[i].text| <==> o == |View(e, segs)|
    ensures at == |segs[i].text| ==> i == |segs| - 1
    ensures at == 0 ==> (i == 0 <==> o == 0)
  {
    hide Canonical, View, Decode, ByteIndex;
    CutInside(e, segs, i, o - segs[i].offset, at);
    LengthAt(e, segs, i);
    if i == 0 {
      FirstOffset(e, segs);
    }
  }

  lemma FirstOffset(e: Encoding, segs: seq<Segment>)
    requires Canonical(e, segs, 0) && segs != []
    ensures segs[0].offset == 0
  {
  }

  /** Where a segment starts. */
  lemma CutAtStart(e: Encoding, segs: seq<Segment>, o: nat, i: nat)
    requires CutAt(e, segs, o, i, 0)
    ensures i < |segs| && o <= |View(e, segs)|
    ensures View(e, segs)[..o] == View(e, segs[..i])
    ensures View(e, segs)[o..] == View(e, segs[i..])
  {
    hide View;
    var t := segs[i];
    assert t.text[..0] == [] && t.text[0..] == t.text;
    NoCells(e, t.author);
    assert segs[i..] == [t] + segs[i + 1..];
    ViewJoin(e, [t], segs[i + 1..]);
    One(e, t, 0);
  }

  /** Where a segment ends. */
  lemma CutAtEnd(e: Encoding, segs: seq<Segment>, o: nat, i: nat)
    requires i < |segs| && o <= |View(e, segs)| && WellFormed(e, segs[i].text)
    requires View(e, segs)[..o] == View(e, segs[..i + 1]) && View(e, segs)[o..] == View(e, segs[i + 1..])
    ensures CutAt(e, segs, o, i, |segs[i].text|)
  {
    hide View;
    var s := segs[i];
    assert s.text[..|s.text|] == s.text && s.text[|s.text|..] == [];
    NoCells(e, s.author);
    assert segs[..i + 1] == segs[..i] + [s];
    ViewJoin(e, segs[..i], [s]);
    One(e, s, 0);
    assert Cells(e, s.author, []) + View(e, segs[i + 1..]) == View(e, segs[i + 1..]);
  }

  /** The start of a segment is also the end of the segment before it. */
  lemma CutBefore(e: Encoding, segs: seq<Segment>, o: nat, i: nat)
    requires Canonical(e, segs, 0) && CutAt(e, segs, o, i, 0) && i > 0
    ensures CutAt(e, segs, o, i - 1, |segs[i - 1].text|)
    ensures i < |segs| && segs[i - 1].text != [] && segs[i - 1].author != segs[i].author
  {
    CutAtStart(e, segs, o, i);
    hide View, Canonical, CutAt, Cells;
    SegmentAt(e, segs, 0, i - 1);
    Adjacent(e, segs, 0, i);
    CutAtEnd(e, segs, o, i - 1);
  }

  lemma CutBorder(e: Encoding, segs: seq<Segment>, o: nat, i: nat, at: nat)
    requires CutAt(e, segs, o, i, at)
    ensures at == 0 ==> o == |View(e, segs[..i])|
    ensures at == |segs[i].text| ==> o == |View(e, segs[..i + 1])|
  {
    hide View, Canonical, Contiguous, AllGood, Alternating, Cells;
    var s := segs[i];
    assert |View(e, segs)[..o]| == o;
    if at == 0 {
      assert s.text[..at] == [];
    }
    if at == |s.text| {
      assert s.text[..at] == s.text;
      assert segs[..i + 1] == segs[..i] + [s];
      AroundView(e, segs[..i], s, []);
    }
  }

  /** What stands in front of a cut, with `x` appended to the segment that is cut. */
  ghost function LeftOf(segs: seq<Segment>, i: nat, at: nat, x: seq<Byte>): seq<Segment>
    requires i < |segs| && at <= |segs[i].text|
  {
    segs[..i] + [segs[i].(text := segs[i].text[..at] + x)]
  }

  lemma LeftOfCut(e: Encoding, segs: seq<Segment>, o: nat, i: nat, at: nat)
    requires CutAt(e, segs, o, i, at)
    ensures i < |segs| && o <= |View(e, segs)| && at <= |segs[i].text| && WellFormed(e, segs[i].text[..at])
    ensures View(e, segs)[..o] == View(e, segs[..i]) + Cells(e, segs[i].author, segs[i].text[..at])
  {
  }

  /** A segment with the text `p` and `x` behind the segments `a`. */
  lemma AppendTwo(e: Encoding, a: seq<Segment>, s: Segment, p: seq<Byte>, x: seq<Byte>, t: Segment)
    requires Canonical(e, a, 0) && s.offset == |View(e, a)| && Border(a, [s])
    requires WellFormed(e, p) && WellFormed(e, x) && p + x != [] && t == s.(text := p + x)
    ensures Canonical(e, a + [t], 0)
    ensures View(e, a + [t]) == View(e, a) + Cells(e, s.author, p) + Cells(e, s.author, x)
  {
    hide View, Canonical, Contiguous, AllGood, Alternating, Cells, WellFormed;
    CellsJoin(e, s.author, p, x);
    Append(e, a, t, 0);
  }

  lemma Left(e: Encoding, segs: seq<Segment>, o: nat, i: nat, at: nat, x: seq<Byte>)
    requires Canonical(e, segs, 0) && CutAt(e, segs, o, i, at)
    requires WellFormed(e, x) && (at > 0 || x != [])
    ensures Canonical(e, LeftOf(segs, i, at, x), 0)
    ensures View(e, LeftOf(segs, i, at, x)) == View(e, segs)[..o] + Cells(e, segs[i].author, x)
    ensures LastOf(LeftOf(segs, i, at, x), segs[i].author)
  {
    hide View, Canonical, Cells, WellFormed;
    LeftOfCut(e, segs, o, i, at);
    SegmentAt(e, segs, 0, i);
    var s := segs[i];
    AppendTwo(e, segs[..i], s, s.text[..at], x, s.(text := s.text[..at] + x));
  }

  /** The last segment is by `author`. */
  ghost predicate LastOf(segs: seq<Segment>, author: nat) {
    segs != [] && segs[|segs| - 1].author == author
  }

  /** What stands behind a cut, moved by `d`. */
  ghost function Behind(segs: seq<Segment>, i: nat, d: int): seq<Segment>
    requires i < |segs|
  {
    Shift(segs[i + 1..], d)
  }

  /** The whole segments behind a cut, moved to start behind position `p` and the rest of the cut
      segment. */
  lemma BehindCanonical(e: Encoding, segs: seq<Segment>, o: nat, i: nat, at: nat, p: nat)
    requires Canonical(e, segs, 0) && CutAt(e, segs, o, i, at)
    ensures var r := Behind(segs, i, p - o);
      && Canonical(e, r, p + |Cells(e, segs[i].author, segs[i].text[at..])|)
      && View(e, r) == View(e, segs[i + 1..])
      && (r != [] ==> r[0].author != segs[i].author)
  {
    hide View, Canonical, Contiguous, AllGood, Alternating, Cells, WellFormed;
    var s := segs[i];
    SegmentAt(e, segs, 0, i);
    var q := s.offset + |Cells(e, s.author, s.text)|;
    var tail := |Cells(e, s.author, s.text[at..])|;
    assert |View(e, segs)| == |View(e, segs)[..o]| + |View(e, segs)[o..]|;
    assert q == o + tail;
    ShiftCanonical(e, segs[i + 1..], q, p - o);
  }

  /** What stands behind a cut, with `x` put in front of the segment that is cut and everything
      moved to start at `p`. */
  ghost function RightOf(segs: seq<Segment>, i: nat, at: nat, x: seq<Byte>, p: nat, d: int): seq<Segment>
    requires i < |segs| && at <= |segs[i].text|
  {
    [segs[i].(text := x + segs[i].text[at..], offset := p)] + Behind(segs, i, d)
  }

  lemma Right(e: Encoding, segs: seq<Segment>, o: nat, i: nat, at: nat, x: seq<Byte>, p: nat, n: nat)
    requires Canonical(e, segs, 0) && CutAt(e, segs, o, i, at)
    requires WellFormed(e, x) && (at < |segs[i].text| || x != [])
    requires n == |Cells(e, segs[i].author, x)|
    ensures Canonical(e, RightOf(segs, i, at, x, p, p + n - o), p)
    ensures View(e, RightOf(segs, i, at, x, p, p + n - o))
      == Cells(e, segs[i].author, x) + View(e, segs)[o..]
  {
    hide View, Canonical, Contiguous, AllGood, Alternating, Cells, WellFormed;
    var s := segs[i];
    var s' := s.(text := x + s.text[at..], offset := p);
    CellsJoin(e, s.author, x, s.text[at..]);
    BehindCanonical(e, segs, o, i, at, p + n);
    Prepend(e, s', Behind(segs, i, p + n - o));
  }

  /** What stands in front of a cut. */
  ghost function HeadOf(segs: seq<Segment>, i: nat, at: nat): seq<Segment>
    requires i < |segs| && at <= |segs[i].text|
  {
    segs[..i] + [segs[i].(text := segs[i].text[..at])]
  }

  lemma Head(e: Encoding, segs: seq<Segment>, o: nat, i: nat, at: nat)
    requires Canonical(e, segs, 0) && CutAt(e, segs, o, i, at) && at > 0
    ensures Canonical(e, HeadOf(segs, i, at), 0) && View(e, HeadOf(segs, i, at)) == View(e, segs)[..o]
  {
    hide View, Canonical, Contiguous, AllGood, Alternating;
    Left(e, segs, o, i, at, []);
    assert segs[i].text[..at] + [] == segs[i].text[..at];
    NoCells(e, segs[i].author);
  }

  /** What stands behind a cut, moved by `d` to start at `p`. */
  ghost function TailOf(segs: seq<Segment>, i: nat, at: nat, p: nat, d: int): seq<Segment>
    requires i < |segs| && at <= |segs[i].text|
  {
    [segs[i].(text := segs[i].text[at..], offset := p)] + Shift(segs[i + 1..], d)
  }

  lemma Tail(e: Encoding, segs: seq<Segment>, o: nat, i: nat, at: nat, p: nat)
    requires Canonical(e, segs, 0) && CutAt(e, segs, o, i, at) && at < |segs[i].text|
    ensures Canonical(e, TailOf(segs, i, at, p, p - o), p)
    ensures View(e, TailOf(segs, i, at, p, p - o)) == View(e, segs)[o..]
  {
    hide View, Canonical, Contiguous, AllGood, Alternating, Cells;
    NoCells(e, segs[i].author);
    Right(e, segs, o, i, at, [], p, 0);
    assert [] + segs[i].text[at..] == segs[i].text[at..];
    assert [] + View(e, segs)[o..] == View(e, segs)[o..];
  }

  lemma FirstOfTail(segs: seq<Segment>, i: nat, at: nat, p: nat, d: int)
    requires i < |segs| && at <= |segs[i].text|
    ensures TailOf(segs, i, at, p, d) != [] && TailOf(segs, i, at, p, d)[0].author == segs[i].author
  {
  }

  lemma NoCells(e: Encoding, author: nat)
    ensures WellFormed(e, []) && Cells(e, author, []) == []
  {
  }

  /** Replacing what lies between two cuts in segments of one author by `x` of the same author. */
  ghost function Bridged(segs: seq<Segment>, i: nat, at: nat, x: seq<Byte>, j: nat, bt: nat, d: int)
    : seq<Segment>
    requires i < |segs| && at <= |segs[i].text| && j < |segs| && bt <= |segs[j].text|
  {
    LeftOf(segs, i, at, x + segs[j].text[bt..]) + Behind(segs, j, d)
  }

  lemma Bridge(e: Encoding, segs: seq<Segment>, o: nat, i: nat, at: nat, x: seq<Byte>, q: nat, j: nat, bt: nat, d: int)
    requires Canonical(e, segs, 0) && CutAt(e, segs, o, i, at) && CutAt(e, segs, q, j, bt)
    requires segs[i].author == segs[j].author
    requires WellFormed(e, x) && (at > 0 || x != [] || bt < |segs[j].text|)
    requires d == o + |Cells(e, segs[i].author, x)| - q
    ensures Canonical(e, Bridged(segs, i, at, x, j, bt, d), 0)
    ensures View(e, Bridged(segs, i, at, x, j, bt, d))
      == View(e, segs)[..o] + Cells(e, segs[i].author, x) + View(e, segs)[q..]
  {
    hide View, Canonical, Contiguous, AllGood, Alternating, Cells, WellFormed, LeftOf, Behind;
    var author, rest := segs[i].author, segs[j].text[bt..];
    var n := |Cells(e, author, x)|;
    CellsJoin(e, author, x, rest);
    Left(e, segs, o, i, at, x + rest);
    BehindCanonical(e, segs, q, j, bt, o + n);
    var l, b := LeftOf(segs, i, at, x + rest), Behind(segs, j, d);
    Joined(e, l, b);
    Regroup(View(e, segs)[..o], Cells(e, author, x), Cells(e, author, rest), View(e, b));
  }

  lemma Joined(e: Encoding, l: seq<Segment>, r: seq<Segment>)
    requires Canonical(e, l, 0) && Canonical(e, r, |View(e, l)|) && Border(l, r)
    ensures Canonical(e, l + r, 0) && View(e, l + r) == View(e, l) + View(e, r)
  {
    CanonicalJoin(e, l, r, 0);
    ViewJoin(e, l, r);
  }

  lemma Regroup<T>(u: seq<T>, y: seq<T>, z: seq<T>, b: seq<T>)
    ensures u + (y + z) + b == u + y + (z + b)
  {
  }

  /** The two sides of a position between two segments. */
  lemma Between(e: Encoding, segs: seq<Segment>, i: nat)
    requires Canonical(e, segs, 0) && i <= |segs|
    ensures segs == segs[..i] + segs[i..]
    ensures View(e, segs) == View(e, segs[..i]) + View(e, segs[i..])
    ensures Canonical(e, segs[..i], 0) && Canonical(e, segs[i..], |View(e, segs[..i])|)
    ensures Border(segs[..i], segs[i..])
  {
    hide View, Canonical, Contiguous, AllGood, Alternating, Cells, WellFormed;
    assert segs == segs[..i] + segs[i..];
    CanonicalJoin(e, segs[..i], segs[i..], 0);
    ViewJoin(e, segs[..i], segs[i..]);
  }

  // ---------- One text ----------

  /** `w` put into `v` at position `o`. */
  function Inserted<T>(v: seq<T>, o: nat, w: seq<T>): (r: seq<T>)
    requires o <= |v|
    ensures |r| == |v| + |w|
  {
    v[..o] + w + v[o..]
  }

  /** Whether a character next to position `o` was written by `author`. */
  ghost predicate Neighbour(v: seq<Cell>, o: nat, author: nat)
    requires o <= |v|
  {
    (o > 0 && v[o - 1].author == author) || (o < |v| && v[o].author == author)
  }

  /** What becomes of the view `v` when a text is inserted. */
  ghost predicate Spliced(e: Encoding, v: seq<Cell>, o: nat, author: nat, text: seq<Byte>, segs: seq<Segment>) {
    && o <= |v|
    && View(e, segs) == Inserted(v, o, Cells(e, author, text))
    && (Canonical(e, segs, 0) <==> text != [] || Neighbour(v, o, author))
  }

  /** A new segment between two canonical parts. */
  lemma PutBetween(e: Encoding, l: seq<Segment>, r: seq<Segment>, s: Segment, n: nat, v: seq<Cell>)
    requires Canonical(e, l, 0) && Canonical(e, r, |View(e, l)|)
    requires v == View(e, l) + View(e, r)
    requires s.offset == |View(e, l)| && WellFormed(e, s.text) && n == |Cells(e, s.author, s.text)|
    requires Border(l, [s]) && Border([s], r)
    ensures Spliced(e, v, s.offset, s.author, s.text, l + [s] + Shift(r, n))
  {
    hide View, Canonical, Contiguous, AllGood, Alternating, Cells, WellFormed;
    if l != [] {
      EndCells(e, l, 0);
    } else {
      EmptyView(e);
    }
    if r != [] {
      EndCells(e, r, |View(e, l)|);
    } else {
      EmptyView(e);
    }
    ShiftCanonical(e, r, |View(e, l)|, n);
    Around(e, l, s, Shift(r, n), 0);
    AroundView(e, l, s, Shift(r, n));
  }

  lemma InsertFirst(e: Encoding, s: Segment)
    requires s.offset == 0 && WellFormed(e, s.text)
    ensures Spliced(e, [], 0, s.author, s.text, [s])
  {
    One(e, s, 0);
  }

  lemma EmptyView(e: Encoding)
    ensures View(e, []) == [] && WellFormed(e, [])
  {
  }

  /** The segment at a cut is split in two. */
  ghost function SplitAt(segs: seq<Segment>, o: nat, i: nat, at: nat): (r: seq<Segment>)
    requires i < |segs| && at <= |segs[i].text|
    ensures |r| == |segs| + 1
  {
    segs[..i] + [segs[i].(text := segs[i].text[..at])]
    + [segs[i].(text := segs[i].text[at..], offset := o)] + segs[i + 1..]
  }

  lemma SplitHalves(segs: seq<Segment>, o: nat, i: nat, at: nat)
    requires i < |segs| && at <= |segs[i].text|
    ensures SplitAt(segs, o, i, at)[..i + 1] == HeadOf(segs, i, at)
    ensures SplitAt(segs, o, i, at)[i + 1..] == TailOf(segs, i, at, o, 0)
  {
    assert Shift(segs[i + 1..], 0) == segs[i + 1..];
  }

  /** The cut lies inside a segment by another author: the segment is split. */
  lemma InsertInside(e: Encoding, segs: seq<Segment>, i: nat, at: nat, s: Segment, n: nat, now: seq<Segment>)
    requires Canonical(e, segs, 0) && CutAt(e, segs, s.offset, i, at)
    requires 0 < at < |segs[i].text| && segs[i].author != s.author
    requires WellFormed(e, s.text) && n == |Cells(e, s.author, s.text)|
    requires var mid := SplitAt(segs, s.offset, i, at); now == mid[..i + 1] + [s] + mid[i + 1..]
    ensures Spliced(e, View(e, segs), s.offset, s.author, s.text, now[..i + 2] + Shift(now[i + 2..], n))
  {
    hide View, Canonical, Contiguous, AllGood, Alternating, Cells, WellFormed, SplitAt;
    Head(e, segs, s.offset, i, at);
    Tail(e, segs, s.offset, i, at, s.offset);
    SplitHalves(segs, s.offset, i, at);
    var l, r := HeadOf(segs, i, at), TailOf(segs, i, at, s.offset, 0);
    PutBetween(e, l, r, s, n, View(e, segs));
    assert now[..i + 2] == l + [s] && now[i + 2..] == r;
  }

  /** The cut lies between two segments by other authors. */
  lemma InsertAtBorder(e: Encoding, segs: seq<Segment>, i: nat, s: Segment, n: nat, now: seq<Segment>)
    requires Canonical(e, segs, 0) && i <= |segs| && s.offset == |View(e, segs[..i])|
    requires i > 0 ==> segs[i - 1].author != s.author
    requires i < |segs| ==> segs[i].author != s.author
    requires WellFormed(e, s.text) && n == |Cells(e, s.author, s.text)|
    requires now == segs[..i] + [s] + segs[i..]
    ensures Spliced(e, View(e, segs), s.offset, s.author, s.text, now[..i + 1] + Shift(now[i + 1..], n))
  {
    hide View, Canonical, Contiguous, AllGood, Alternating, Cells, WellFormed;
    Between(e, segs, i);
    PutBetween(e, segs[..i], segs[i..], s, n, View(e, segs));
    assert now[..i + 1] == segs[..i] + [s] && now[i + 1..] == segs[i..];
  }

  lemma CutNeighbour(e: Encoding, segs: seq<Segment>, o: nat, i: nat, at: nat)
    requires CutAt(e, segs, o, i, at) && segs[i].text != []
    ensures Neighbour(View(e, segs), o, segs[i].author)
  {
    hide View, WellFormed, Decode;
    var s := segs[i];
    var x, y := Cells(e, s.author, s.text[..at]), Cells(e, s.author, s.text[at..]);
    if at > 0 {
      assert View(e, segs)[..o][o - 1] == x[|x| - 1];
    } else {
      assert View(e, segs)[o..][0] == y[0];
    }
  }

  /** The segment at the cut has the same author: the text becomes part of it. */
  lemma InsertMerged(e: Encoding, segs: seq<Segment>, o: nat, i: nat, at: nat, text: seq<Byte>, n: nat,
                     now: seq<Segment>)
    requires Canonical(e, segs, 0) && CutAt(e, segs, o, i, at)
    requires WellFormed(e, text) && n == |Cells(e, segs[i].author, text)|
    requires now == segs[i := segs[i].(text := segs[i].text[..at] + text + segs[i].text[at..])]
    ensures Spliced(e, View(e, segs), o, segs[i].author, text, now[..i + 1] + Shift(now[i + 1..], n))
  {
    hide View, Canonical, Contiguous, AllGood, Alternating, Cells, Neighbour;
    SegmentAt(e, segs, 0, i);
    CutNeighbour(e, segs, o, i, at);
    Bridge(e, segs, o, i, at, text, o, i, at, n);
    var x, y := segs[i].text[..at], segs[i].text[at..];
    assert x + text + y == x + (text + y);
    assert now[..i + 1] == LeftOf(segs, i, at, text + y);
    assert now[i + 1..] == segs[i + 1..];
  }

  // ---------- A hole ----------

  /** `v` without the `n` elements from position `b` on. */
  function Erased<T>(v: seq<T>, b: nat, n: nat): (r: seq<T>)
    requires b + n <= |v|
    ensures |r| == |v| - n
  {
    v[..b] + v[b + n..]
  }

  /** A segment ends before any later one starts. */
  lemma OffsetsAfter(e: Encoding, segs: seq<Segment>, j: nat, k: nat)
    requires Canonical(e, segs, 0) && j < k < |segs|
    ensures segs[j].offset + |Decode(e, segs[j].text)| <= segs[k].offset
  {
    SegmentAt(e, segs, 0, j);
    OffsetsBounded(e, segs[j + 1..], segs[j].offset + |Decode(e, segs[j].text)|);
    assert segs[k] == segs[j + 1..][k - j - 1];
  }

  /** A later position is found in the same segment or a later one, and the segments behind it can be
      moved up to it. */
  lemma LocatedInOrder(e: Encoding, segs: seq<Segment>, o: nat, i: nat, at: nat, q: nat, j: nat, bt: nat)
    requires Canonical(e, segs, 0) && o < q
    requires Located(e, segs, o, i, at) && Located(e, segs, q, j, bt)
    ensures i <= j
    ensures Movable(segs[j + 1..], 0 - q)
  {
    if j < i {
      OffsetsAfter(e, segs, j, i);
    }
    var tail := segs[j + 1..];
    forall k | 0 <= k < |tail| ensures tail[k].offset >= q {
      OffsetsAfter(e, segs, j, j + 1 + k);
    }
  }

  /** `segs`, with the segments from `from` on still to be moved up by `n` characters, is what
      remains of the view `v` when `n` characters are removed at `o`. */
  ghost predicate Hollowed(e: Encoding, v: seq<Cell>, o: nat, n: nat, segs: seq<Segment>, from: nat) {
    && o + n <= |v| && from <= |segs|
    && Movable(segs[from..], 0 - n)
    && var r := segs[..from] + Shift(segs[from..], 0 - n);
    && Canonical(e, r, 0) && View(e, r) == Erased(v, o, n)
  }

  lemma HollowedFacts(e: Encoding, v: seq<Cell>, o: nat, n: nat, segs: seq<Segment>, from: nat)
    requires Hollowed(e, v, o, n, segs, from)
    ensures o + n <= |v| && from <= |segs| && Movable(segs[from..], 0 - n)
    ensures Canonical(e, segs[..from] + Shift(segs[from..], 0 - n), 0)
    ensures View(e, segs[..from] + Shift(segs[from..], 0 - n)) == Erased(v, o, n)
  {
  }

  /** Both sides of the hole are by one author: they become one segment. */
  lemma EraseMerged(e: Encoding, segs: seq<Segment>, o: nat, i: nat, at: nat, n: nat, j: nat, bt: nat,
                    now: seq<Segment>)
    requires Canonical(e, segs, 0)
    requires CutAt(e, segs, o, i, at) && CutAt(e, segs, o + n, j, bt) && at > 0
    requires segs[i].author == segs[j].author && Movable(segs[j + 1..], 0 - (o + n))
    requires now == segs[..i] + [segs[i].(text := segs[i].text[..at] + segs[j].text[bt..])] + segs[j + 1..]
    ensures Hollowed(e, View(e, segs), o, n, now, i + 1)
  {
    hide View, Canonical, Contiguous, AllGood, Alternating;
    hide Cells, Bridged;
    NoCells(e, segs[i].author);
    Bridge(e, segs, o, i, at, [], o + n, j, bt, 0 - n);
    MergedShape(segs, i, at, j, bt, 0 - n, now);
    assert View(e, segs)[..o] + [] == View(e, segs)[..o];
  }

  lemma MergedShape(segs: seq<Segment>, i: nat, at: nat, j: nat, bt: nat, d: int, now: seq<Segment>)
    requires i < |segs| && at <= |segs[i].text| && j < |segs| && bt <= |segs[j].text|
    requires now == segs[..i] + [segs[i].(text := segs[i].text[..at] + segs[j].text[bt..])] + segs[j + 1..]
    ensures now[i + 1..] == segs[j + 1..]
    ensures now[..i + 1] + Shift(now[i + 1..], d) == Bridged(segs, i, at, [], j, bt, d)
  {
    hide Shift;
    var rest := segs[j].text[bt..];
    assert [] + rest == rest;
    assert now[..i + 1] == LeftOf(segs, i, at, rest);
    assert now[i + 1..] == segs[j + 1..];
  }

  /** The sides of the hole are by different authors: both border segments are cut. */
  lemma EraseApart(e: Encoding, segs: seq<Segment>, o: nat, i: nat, at: nat, n: nat, j: nat, bt: nat, now: seq<Segment>)
    requires Canonical(e, segs, 0)
    requires CutAt(e, segs, o, i, at) && CutAt(e, segs, o + n, j, bt) && at > 0 && bt < |segs[j].text|
    requires segs[i].author != segs[j].author && Movable(segs[j + 1..], 0 - (o + n))
    requires now == segs[..i] + [segs[i].(text := segs[i].text[..at])]
      + [segs[j].(text := segs[j].text[bt..], offset := o)] + segs[j + 1..]
    ensures Hollowed(e, View(e, segs), o, n, now, i + 2)
  {
    hide View, Canonical, Cells, WellFormed, Hollowed, Shift;
    Head(e, segs, o, i, at);
    Tail(e, segs, o + n, j, bt, o);
    ApartShape(segs, i, at, j, bt, o, 0 - n, now);
    HollowedJoin(e, View(e, segs), o, n, now, i + 2, HeadOf(segs, i, at), TailOf(segs, j, bt, o, 0 - n));
  }

  lemma HollowedJoin(e: Encoding, v: seq<Cell>, o: nat, n: nat, now: seq<Segment>, from: nat,
                     l: seq<Segment>, r: seq<Segment>)
    requires o + n <= |v| && from <= |now| && Movable(now[from..], 0 - n)
    requires now[..from] + Shift(now[from..], 0 - n) == l + r
    requires Canonical(e, l, 0) && Canonical(e, r, o) && Border(l, r)
    requires View(e, l) == v[..o] && View(e, r) == v[o + n..]
    ensures Hollowed(e, v, o, n, now, from)
  {
    hide View, Canonical;
    Joined(e, l, r);
  }

  lemma ApartShape(segs: seq<Segment>, i: nat, at: nat, j: nat, bt: nat, o: nat, d: int, now: seq<Segment>)
    requires i < |segs| && at <= |segs[i].text| && j < |segs| && bt <= |segs[j].text|
    requires now == segs[..i] + [segs[i].(text := segs[i].text[..at])]
      + [segs[j].(text := segs[j].text[bt..], offset := o)] + segs[j + 1..]
    ensures |now| >= i + 2 && now[i + 2..] == segs[j + 1..]
    ensures now[..i + 2] + Shift(now[i + 2..], d) == HeadOf(segs, i, at) + TailOf(segs, j, bt, o, d)
    ensures Border(HeadOf(segs, i, at), TailOf(segs, j, bt, o, d)) <==> segs[i].author != segs[j].author
  {
    hide Shift;
    assert now[i + 2..] == segs[j + 1..];
  }

  lemma EraseFront(e: Encoding, segs: seq<Segment>, n: nat, j: nat, bt: nat, now: seq<Segment>)
    requires Canonical(e, segs, 0) && CutAt(e, segs, n, j, bt) && 0 < bt < |segs[j].text|
    requires Movable(segs[j + 1..], 0 - n)
    requires now == [segs[j].(text := segs[j].text[bt..], offset := 0)] + segs[j + 1..]
    ensures Hollowed(e, View(e, segs), 0, n, now, 1)
  {
    hide View, Canonical, Contiguous, AllGood, Alternating, Shift;
    Tail(e, segs, n, j, bt, 0);
    assert now[1..] == segs[j + 1..];
    assert now[..1] + Shift(now[1..], 0 - n) == TailOf(segs, j, bt, 0, 0 - n);
    assert View(e, segs)[..0] + View(e, segs)[n..] == View(e, segs)[n..];
  }

  lemma NothingInFront<T>(s: seq<T>, n: nat)
    requires n <= |s|
    ensures s[..0] == [] && s[..0] + s[n..] == s[n..] && s[0..] == s
  {
  }

  lemma HeadAndTail<T>(s: seq<T>, j: nat)
    requires j < |s|
    ensures s[j..] == [s[j]] + s[j + 1..]
  {
  }

  lemma EraseSegments(e: Encoding, segs: seq<Segment>, n: nat, j: nat)
    requires Canonical(e, segs, 0) && CutAt(e, segs, n, j, 0)
    requires Movable(segs[j + 1..], 0 - n)
    ensures Hollowed(e, View(e, segs), 0, n, segs[j..], 0)
  {
    hide View, Canonical, Contiguous, AllGood, Alternating, Shift, Cells, WellFormed;
    CutBorder(e, segs, n, j, 0);
    Between(e, segs, j);
    SegmentAt(e, segs, 0, j);
    ShiftCanonical(e, segs[j..], n, 0 - n);
    NothingInFront(View(e, segs), n);
    NothingInFront(segs[j..], 0);
    HeadAndTail(segs, j);
    assert [] + Shift(segs[j..], 0 - n) == Shift(segs[j..], 0 - n);
  }

  lemma EraseBack(e: Encoding, segs: seq<Segment>, o: nat, i: nat, at: nat, now: seq<Segment>)
    requires Canonical(e, segs, 0) && CutAt(e, segs, o, i, at)
    requires now == if at == 0 then segs[..i] else segs[..i] + [segs[i].(text := segs[i].text[..at])]
    ensures Hollowed(e, View(e, segs), o, |View(e, segs)| - o, now, |now|)
  {
    hide View, Canonical, Contiguous, AllGood, Alternating;
    if at == 0 {
      CutBorder(e, segs, o, i, at);
      Between(e, segs, i);
    } else {
      Head(e, segs, o, i, at);
    }
    assert now[..|now|] + Shift(now[|now|..], 0 - (|View(e, segs)| - o)) == now;
  }

  lemma EraseAll(e: Encoding, v: seq<Cell>)
    ensures Hollowed(e, v, 0, |v|, [], 0)
  {
    assert [][..0] + Shift([][0..], 0 - |v|) == [];
  }

  /** The segments without those from `first` to before `last`. */
  ghost function WithoutRange<T>(s: seq<T>, first: nat, last: nat): seq<T>
    requires last <= |s|
  {
    if first < last then s[..first] + s[last..] else s
  }

  lemma WithoutBetween<T>(s: seq<T>, i: nat, a: T, j: nat, b: T)
    requires i < j < |s|
    ensures WithoutRange(s[i := a][j := b], i + 1, j) == s[..i] + [a] + [b] + s[j + 1..]
  {
    var t := s[i := a][j := b];
    assert t[..i + 1] == s[..i] + [a];
    assert t[j..] == [b] + s[j + 1..];
  }

  lemma WithoutTail<T>(s: seq<T>, i: nat, a: T, j: nat, to: nat)
    requires i <= j < |s| && to == if i == j then j else j + 1
    ensures WithoutRange(s[i := a], i + 1, to) == s[..i] + [a] + s[j + 1..]
  {
    var t := s[i := a];
    assert t[..i + 1] == s[..i] + [a];
    assert t[j + 1..] == s[j + 1..];
    assert t == t[..i + 1] + t[i + 1..];
  }

  /** The segment in front of the hole takes up the rest of the one behind it; `to` is where the range
      to remove ends. */
  lemma HoleMerged(e: Encoding, segs: seq<Segment>, o: nat, i: nat, at: nat, n: nat, j: nat, bt: nat,
                   now: seq<Segment>, to: nat)
    requires Canonical(e, segs, 0)
    requires CutAt(e, segs, o, i, at) && CutAt(e, segs, o + n, j, bt) && at > 0 && i <= j
    requires segs[i].author == segs[j].author && Movable(segs[j + 1..], 0 - (o + n))
    requires now == segs[i := segs[i].(text := segs[i].text[..at] + segs[j].text[bt..])]
    requires to == if i == j then j else j + 1
    ensures to <= |now|
    ensures Hollowed(e, View(e, segs), o, n, WithoutRange(now, i + 1, to),
                     if i + 1 < to then j + 1 - (to - (i + 1)) else j + 1)
  {
    hide View, Canonical, Hollowed, Movable;
    WithoutTail(segs, i, segs[i].(text := segs[i].text[..at] + segs[j].text[bt..]), j, to);
    EraseMerged(e, segs, o, i, at, n, j, bt, WithoutRange(now, i + 1, to));
  }

  /** Both border segments are cut; the range to remove is what is between them. */
  lemma HoleApart(e: Encoding, segs: seq<Segment>, o: nat, i: nat, at: nat, n: nat, j: nat, bt: nat, now: seq<Segment>)
    requires Canonical(e, segs, 0)
    requires CutAt(e, segs, o, i, at) && CutAt(e, segs, o + n, j, bt) && at > 0 && bt < |segs[j].text| && i < j
    requires segs[i].author != segs[j].author && Movable(segs[j + 1..], 0 - (o + n))
    requires now
      == segs[i := segs[i].(text := segs[i].text[..at])][j := segs[j].(text := segs[j].text[bt..], offset := o)]
    ensures j <= |now|
    ensures Hollowed(e, View(e, segs), o, n, WithoutRange(now, i + 1, j),
                     if i + 1 < j then j + 1 - (j - (i + 1)) else j + 1)
  {
    hide View, Canonical, Hollowed, Movable;
    WithoutBetween(segs, i, segs[i].(text := segs[i].text[..at]), j, segs[j].(text := segs[j].text[bt..], offset := o));
    EraseApart(e, segs, o, i, at, n, j, bt, WithoutRange(now, i + 1, j));
  }

  lemma HoleAll(e: Encoding, v: seq<Cell>, segs: seq<Segment>)
    ensures Hollowed(e, v, 0, |v|, WithoutRange(segs, 0, |segs|), 0)
  {
    hide Hollowed;
    EraseAll(e, v);
    assert WithoutRange(segs, 0, |segs|) == [];
  }

  lemma WithoutFront<T>(s: seq<T>, j: nat)
    requires j <= |s|
    ensures WithoutRange(s, 0, j) == s[j..]
  {
  }

  lemma FromReplaced<T>(s: seq<T>, j: nat, x: T)
    requires j < |s|
    ensures s[j := x][j..] == [x] + s[j + 1..]
  {
  }

  /** The segments in front of the cut go, and the one that is cut loses its first half. */
  lemma HoleFront(e: Encoding, segs: seq<Segment>, n: nat, j: nat, bt: nat, now: seq<Segment>)
    requires Canonical(e, segs, 0) && CutAt(e, segs, n, j, bt) && bt < |segs[j].text|
    requires Movable(segs[j + 1..], 0 - n)
    requires now == if bt > 0 then segs[j := segs[j].(text := segs[j].text[bt..], offset := 0)] else segs
    ensures j < |now|
    ensures Hollowed(e, View(e, segs), 0, n, WithoutRange(now, 0, j), if bt > 0 then 1 else 0)
  {
    assert j < |segs|;
    hide View, Canonical, Hollowed, Movable, CutAt, WithoutRange;
    WithoutFront(now, j);
    if bt > 0 {
      FromReplaced(segs, j, now[j]);
      EraseFront(e, segs, n, j, bt, now[j..]);
    } else {
      EraseSegments(e, segs, n, j);
    }
  }

  /** The segment that is cut loses its second half, or goes, and those behind it go. */
  lemma HoleBack(e: Encoding, segs: seq<Segment>, o: nat, i: nat, at: nat, now: seq<Segment>, from: nat)
    requires Canonical(e, segs, 0) && CutAt(e, segs, o, i, at)
    requires now == if at > 0 then segs[i := segs[i].(text := segs[i].text[..at])] else segs
    requires from == if at > 0 then i + 1 else i
    ensures from <= |now|
    ensures Hollowed(e, View(e, segs), o, |View(e, segs)| - o, WithoutRange(now, from, |now|), from)
  {
    hide View, Canonical, Hollowed;
    assert WithoutRange(now, from, |now|) == now[..from];
    if at > 0 {
      assert now[..from] == segs[..i] + [now[i]];
    }
    EraseBack(e, segs, o, i, at, now[..from]);
  }
}
