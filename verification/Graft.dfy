/** Putting a chunk of several segments into the gap of a cut.

    The outermost segments of the inserted chunk become part of the segments they touch if the
    authors match; the others are copied in between. */
module Grafts {
  import opened Encodings
  import opened Ropes
  import opened Cuts

  /** `a` is the part in front of the gap, including the first `f` segments of `t`. */
  ghost predicate LeftReady(e: Encoding, v: seq<Cell>, o: nat, t: seq<Segment>, a: seq<Segment>, f: nat) {
    && o <= |v| && f <= 1 < |t|
    && Canonical(e, a, 0) && View(e, a) == v[..o] + View(e, t[..f])
    && if f == 1 then a != [] && a[|a| - 1].author == t[0].author else Border(a, t)
  }

  /** `b` is the part behind the gap, including the segments of `t` from `l` on. */
  ghost predicate RightReady(e: Encoding, v: seq<Cell>, o: nat, t: seq<Segment>, b: seq<Segment>, l: nat) {
    && o <= |v| && 1 <= |t| - 1 <= l <= |t|
    && Canonical(e, b, o + |View(e, t[..l])|) && View(e, b) == View(e, t[l..]) + v[o..]
    && if l < |t| then b != [] && b[0].author == t[l].author else Border(t, b)
  }

  lemma LeftNone(e: Encoding, v: seq<Cell>, t: seq<Segment>)
    requires |t| > 1
    ensures LeftReady(e, v, 0, t, [], 0)
  {
    assert t[..0] == [];
  }

  lemma LeftApart(e: Encoding, segs: seq<Segment>, o: nat, i: nat, at: nat, t: seq<Segment>)
    requires Canonical(e, segs, 0) && CutAt(e, segs, o, i, at) && at > 0
    requires |t| > 1 && segs[i].author != t[0].author
    ensures LeftReady(e, View(e, segs), o, t, HeadOf(segs, i, at), 0)
  {
    hide Canonical;
    Head(e, segs, o, i, at);
    assert t[..0] == [];
    assert View(e, segs)[..o] + [] == View(e, segs)[..o];
  }

  lemma LeftMerged(e: Encoding, segs: seq<Segment>, o: nat, i: nat, at: nat, t: seq<Segment>)
    requires Canonical(e, segs, 0) && CutAt(e, segs, o, i, at) && at > 0
    requires |t| > 1 && Good(e, t[0]) && segs[i].author == t[0].author
    ensures LeftReady(e, View(e, segs), o, t, LeftOf(segs, i, at, t[0].text), 1)
  {
    hide Canonical, View;
    Left(e, segs, o, i, at, t[0].text);
    assert t[..1] == [t[0]];
    One(e, t[0], 0);
  }

  lemma RightNone(e: Encoding, v: seq<Cell>, t: seq<Segment>)
    requires |t| > 1
    ensures RightReady(e, v, |v|, t, [], |t|)
  {
    assert t[|t|..] == [] && v[|v|..] == [];
  }

  lemma RightApart(e: Encoding, segs: seq<Segment>, o: nat, j: nat, bt: nat, t: seq<Segment>)
    requires Canonical(e, segs, 0) && CutAt(e, segs, o, j, bt) && bt < |segs[j].text|
    requires |t| > 1 && t[|t| - 1].author != segs[j].author
    ensures RightReady(e, View(e, segs), o, t, TailOf(segs, j, bt, o + |View(e, t)|, |View(e, t)|), |t|)
  {
    hide Canonical, View, Cells, WellFormed, TailOf, RightReady;
    var n := |View(e, t)|;
    FirstOfTail(segs, j, bt, o + n, n);
    Tail(e, segs, o, j, bt, o + n);
    RightLast(e, View(e, segs), o, t, TailOf(segs, j, bt, o + n, n));
  }

  lemma RightLast(e: Encoding, v: seq<Cell>, o: nat, t: seq<Segment>, b: seq<Segment>)
    requires o <= |v| && |t| > 1 && Canonical(e, b, o + |View(e, t)|) && View(e, b) == v[o..] && Border(t, b)
    ensures RightReady(e, v, o, t, b, |t|)
  {
    hide Canonical, View;
    EmptyView(e);
    assert t[..|t|] == t && t[|t|..] == [];
    assert [] + v[o..] == v[o..];
  }

  lemma LastSegment(e: Encoding, t: seq<Segment>)
    requires t != [] && Canonical(e, t, 0)
    ensures var l := |t| - 1; var n := |Cells(e, t[l].author, t[l].text)|;
      && Good(e, t[l]) && t[l..] == [t[l]]
      && View(e, t[l..]) == Cells(e, t[l].author, t[l].text)
      && t[l].offset == |View(e, t[..l])| && |View(e, t)| == t[l].offset + n
  {
    hide Canonical, View, Cells, Good;
    var l := |t| - 1;
    SegmentAt(e, t, 0, l);
    One(e, t[l], 0);
    EmptyView(e);
    assert t[l + 1..] == [];
  }

  lemma RightMerged(e: Encoding, segs: seq<Segment>, o: nat, j: nat, bt: nat, t: seq<Segment>, last: Segment)
    requires Canonical(e, segs, 0) && CutAt(e, segs, o, j, bt) && bt < |segs[j].text|
    requires |t| > 1 && Canonical(e, t, 0)
    requires last == t[|t| - 1] && last.author == segs[j].author
    ensures RightReady(e, View(e, segs), o, t,
                       RightOf(segs, j, bt, last.text, o + last.offset, |View(e, t)|), |t| - 1)
  {
    hide Canonical, View, Cells, WellFormed;
    LastSegment(e, t);
    Right(e, segs, o, j, bt, last.text, o + last.offset, |Cells(e, last.author, last.text)|);
  }

  /** The parts and the segments copied between them. */
  lemma Grafted(e: Encoding, v: seq<Cell>, o: nat, t: seq<Segment>, a: seq<Segment>, f: nat, b: seq<Segment>, l: nat)
    requires Canonical(e, t, 0) && LeftReady(e, v, o, t, a, f) && RightReady(e, v, o, t, b, l)
    ensures Canonical(e, a + Shift(t[f..l], o) + b, 0)
    ensures View(e, a + Shift(t[f..l], o) + b) == Inserted(v, o, View(e, t))
  {
    hide Canonical, View, Border;
    var m := Shift(t[f..l], o);
    var x, y, z := View(e, t[..f]), View(e, t[f..l]), View(e, t[l..]);
    ThreeParts(e, t, f, l);
    GraftBorders(e, t, a, f, b, l, m);
    ShiftCanonical(e, t[f..l], |x|, o);
    assert |View(e, a)| == o + |x|;
    ViewJoin(e, a, m);
    CanonicalJoin(e, a, m, 0);
    ViewJoin(e, a + m, b);
    CanonicalJoin(e, a + m, b, 0);
    hide LeftReady, RightReady;
    assert v[..o] + x + y + (z + v[o..]) == v[..o] + (x + y + z) + v[o..];
  }

  lemma ThreeParts(e: Encoding, t: seq<Segment>, f: nat, l: nat)
    requires Canonical(e, t, 0) && f <= l <= |t|
    ensures View(e, t) == View(e, t[..f]) + View(e, t[f..l]) + View(e, t[l..])
    ensures |View(e, t[..l])| == |View(e, t[..f])| + |View(e, t[f..l])|
    ensures Canonical(e, t[f..l], |View(e, t[..f])|)
  {
    hide Canonical, View;
    Between(e, t, l);
    Between(e, t[..l], f);
    assert t[..l][..f] == t[..f] && t[..l][f..] == t[f..l];
  }

  lemma GraftBorders(e: Encoding, t: seq<Segment>, a: seq<Segment>, f: nat, b: seq<Segment>, l: nat, m: seq<Segment>)
    requires Canonical(e, t, 0) && f <= 1 <= |t| - 1 <= l <= |t|
    requires |m| == l - f && forall k :: 0 <= k < |m| ==> m[k].author == t[f + k].author
    requires if f == 1 then a != [] && a[|a| - 1].author == t[0].author else Border(a, t)
    requires if l < |t| then b != [] && b[0].author == t[l].author else Border(t, b)
    ensures Border(a, m) && Border(a + m, b)
  {
    hide Canonical, View;
    Adjacent(e, t, 0, 1);
    Adjacent(e, t, 0, |t| - 1);
    if m != [] {
      assert (a + m)[|a + m| - 1] == m[|m| - 1] && m[|m| - 1].author == t[l - 1].author;
      assert m[0].author == t[f].author;
    } else {
      assert a + m == a;
    }
  }

  // ---------- The gap as the chunk prepares it ----------

  /** `segs` is ready for the segments `f` to `l` of `t` to be copied in front of segment `iter`, and
      for the segments from `beyond` on to be moved behind the inserted text. */
  ghost predicate Ready(e: Encoding, v: seq<Cell>, o: nat, t: seq<Segment>,
                        segs: seq<Segment>, iter: nat, beyond: nat, f: nat, l: nat) {
    && f <= l <= |t| && iter <= beyond <= |segs|
    && LeftReady(e, v, o, t, segs[..iter], f)
    && RightReady(e, v, o, t, segs[iter..beyond] + Shift(segs[beyond..], |View(e, t)|), l)
  }

  /** In front of a gap between two segments: the segment that ends there may be appended to. */
  lemma AroundLeft(e: Encoding, segs: seq<Segment>, o: nat, i: nat, t: seq<Segment>, f: nat, a: seq<Segment>)
    requires Canonical(e, segs, 0) && o <= |View(e, segs)| && i < |segs| && |t| > 1 && Canonical(e, t, 0)
    requires o > 0 ==> CutAt(e, segs, o, i, |segs[i].text|)
    requires f == if o > 0 && segs[i].author == t[0].author then 1 else 0
    requires |a| == if o > 0 then i + 1 else 0
    requires forall k :: 0 <= k < |a| ==>
      a[k] == if k == i && f == 1 then segs[i].(text := segs[i].text + t[0].text) else segs[k]
    ensures LeftReady(e, View(e, segs), o, t, a, f)
  {
    hide Canonical, View, LeftReady;
    if o == 0 {
      LeftNone(e, View(e, segs), t);
    } else {
      SegmentAt(e, segs, 0, i);
      assert segs[i].text[..|segs[i].text|] == segs[i].text;
      if f == 1 {
        SegmentAt(e, t, 0, 0);
        LeftMerged(e, segs, o, i, |segs[i].text|, t);
        assert a == LeftOf(segs, i, |segs[i].text|, t[0].text);
      } else {
        LeftApart(e, segs, o, i, |segs[i].text|, t);
        assert a == HeadOf(segs, i, |segs[i].text|);
      }
    }
  }

  /** Behind a gap between two segments: the segment that starts there is prepended to. */
  lemma AroundRightMerged(e: Encoding, segs: seq<Segment>, o: nat, j: nat, t: seq<Segment>, last: Segment,
                          b: seq<Segment>)
    requires Canonical(e, segs, 0) && CutAt(e, segs, o, j, 0)
    requires |t| > 1 && Canonical(e, t, 0) && last == t[|t| - 1] && segs[j].author == last.author
    requires b == [segs[j].(text := last.text + segs[j].text, offset := o + last.offset)]
                  + Shift(segs[j + 1..], |View(e, t)|)
    ensures RightReady(e, View(e, segs), o, t, b, |t| - 1)
  {
    hide Canonical, View, RightReady;
    StartsAt(e, segs, o, j);
    RightMerged(e, segs, o, j, 0, t, last);
  }

  /** Behind a gap between two segments: the segment that starts there stays as it is. */
  lemma AroundRightApart(e: Encoding, segs: seq<Segment>, o: nat, j: nat, t: seq<Segment>, b: seq<Segment>)
    requires Canonical(e, segs, 0) && CutAt(e, segs, o, j, 0)
    requires |t| > 1 && segs[j].author != t[|t| - 1].author
    requires b == [Moved(segs[j], |View(e, t)|)] + Shift(segs[j + 1..], |View(e, t)|)
    ensures RightReady(e, View(e, segs), o, t, b, |t|)
  {
    hide Canonical, View, RightReady;
    StartsAt(e, segs, o, j);
    RightApart(e, segs, o, j, 0, t);
  }

  /** One segment is replaced, or none. */
  ghost function Replaced(segs: seq<Segment>, i: nat, replace: bool, s: Segment): seq<Segment>
    requires i < |segs|
  {
    if replace then segs[i := s] else segs
  }

  /** The segments next to a gap between two segments, after the outermost ones of `t` are merged into
      them where the authors match. */
  ghost predicate MergedInto(segs: seq<Segment>, o: nat, length: nat, i: nat, j: nat, t: seq<Segment>,
                             now: seq<Segment>, f: nat, l: nat)
    requires i < |segs| && j < |segs| && |t| > 1
  {
    var first, last := t[0], t[|t| - 1];
    && f == (if o > 0 && segs[i].author == first.author then 1 else 0)
    && l == (if o < length && segs[j].author == last.author then |t| - 1 else |t|)
    && now == Replaced(Replaced(segs, i, f == 1, segs[i].(text := segs[i].text + first.text)), j, l < |t|,
                       segs[j].(text := last.text + segs[j].text, offset := o + last.offset))
  }

  lemma ShapeRight(segs: seq<Segment>, j: nat, d: int, now: seq<Segment>, s: Segment)
    requires j < |segs| == |now| && now[j + 1..] == segs[j + 1..]
    ensures now[j] == s ==> now[j..j + 1] + Shift(now[j + 1..], d) == [s] + Shift(segs[j + 1..], d)
    ensures now[j] == segs[j] ==> now[j..j] + Shift(now[j..], d) == [Moved(segs[j], d)] + Shift(segs[j + 1..], d)
  {
    hide Moved;
    assert now[j..] == [now[j]] + now[j + 1..];
  }

  lemma MergedLeft(e: Encoding, segs: seq<Segment>, o: nat, i: nat, j: nat, t: seq<Segment>, now: seq<Segment>,
                   iter: nat, f: nat, l: nat)
    requires Canonical(e, segs, 0) && o <= |View(e, segs)| && i < |segs| && j < |segs| && |t| > 1 && Canonical(e, t, 0)
    requires o > 0 ==> CutAt(e, segs, o, i, |segs[i].text|)
    requires MergedInto(segs, o, |View(e, segs)|, i, j, t, now, f, l)
    requires iter == if o > 0 then i + 1 else 0
    requires o > 0 ==> i < j || (i == j && o == |View(e, segs)|)
    ensures LeftReady(e, View(e, segs), o, t, now[..iter], f)
  {
    hide Canonical, View, LeftReady, CutAt;
    AroundLeft(e, segs, o, i, t, f, now[..iter]);
  }

  lemma MergedAt(segs: seq<Segment>, o: nat, length: nat, i: nat, j: nat, t: seq<Segment>, now: seq<Segment>, f: nat,
                 l: nat)
    requires i < |segs| && j < |segs| && |t| > 1 && MergedInto(segs, o, length, i, j, t, now, f, l)
    requires i <= j && (i == j ==> o == 0) && o < length
    ensures |now| == |segs| && now[j + 1..] == segs[j + 1..]
    ensures l == if segs[j].author == t[|t| - 1].author then |t| - 1 else |t|
    ensures now[j] == if l == |t| then segs[j]
      else segs[j].(text := t[|t| - 1].text + segs[j].text, offset := o + t[|t| - 1].offset)
  {
  }

  lemma MergedRight(e: Encoding, segs: seq<Segment>, o: nat, i: nat, j: nat, t: seq<Segment>, now: seq<Segment>,
                    beyond: nat, f: nat, l: nat)
    requires Canonical(e, segs, 0) && o < |View(e, segs)| && i < |segs| && j < |segs| && |t| > 1 && Canonical(e, t, 0)
    requires CutAt(e, segs, o, j, 0)
    requires MergedInto(segs, o, |View(e, segs)|, i, j, t, now, f, l)
    requires i <= j && (i == j ==> o == 0) && beyond == j + |t| - l
    ensures RightReady(e, View(e, segs), o, t, now[j..beyond] + Shift(now[beyond..], |View(e, t)|), l)
  {
    hide Canonical, View, RightReady, CutAt, Shift, MergedInto, Moved;
    MergedAt(segs, o, |View(e, segs)|, i, j, t, now, f, l);
    ShapeRight(segs, j, |View(e, t)|, now, now[j]);
    if l < |t| {
      assert beyond == j + 1;
      AroundRightMerged(e, segs, o, j, t, t[|t| - 1], now[j..j + 1] + Shift(now[j + 1..], |View(e, t)|));
    } else {
      assert beyond == j;
      AroundRightApart(e, segs, o, j, t, now[j..j] + Shift(now[j..], |View(e, t)|));
    }
  }

  lemma MergedReady(e: Encoding, segs: seq<Segment>, o: nat, i: nat, j: nat, t: seq<Segment>, now: seq<Segment>,
                    iter: nat, beyond: nat, f: nat, l: nat)
    requires Canonical(e, segs, 0) && o <= |View(e, segs)| && i < |segs| && j < |segs| && |t| > 1 && Canonical(e, t, 0)
    requires |View(e, segs)| > 0
    requires o > 0 ==> CutAt(e, segs, o, i, |segs[i].text|)
    requires o < |View(e, segs)| ==> CutAt(e, segs, o, j, 0)
    requires if o == 0 then i == j == 0
      else if o == |View(e, segs)| then i == j == |segs| - 1
      else j == i + 1
    requires MergedInto(segs, o, |View(e, segs)|, i, j, t, now, f, l)
    requires iter == (if o > 0 then i + 1 else 0)
    requires beyond == if o == |View(e, segs)| then |segs| else j + |t| - l
    ensures Ready(e, View(e, segs), o, t, now, iter, beyond, f, l)
  {
    hide Canonical, View, CutAt, LeftReady, RightReady, MergedInto;
    assert f <= 1 && |t| - 1 <= l <= |t| && |now| == |segs| by {
      MergedSizes(segs, o, |View(e, segs)|, i, j, t, now, f, l);
    }
    MergedLeft(e, segs, o, i, j, t, now, iter, f, l);
    if o < |View(e, segs)| {
      MergedRight(e, segs, o, i, j, t, now, beyond, f, l);
    } else {
      assert l == |t| by { MergedSizes(segs, o, |View(e, segs)|, i, j, t, now, f, l); }
      RightNone(e, View(e, segs), t);
      assert now[iter..beyond] + Shift(now[beyond..], |View(e, t)|) == [];
    }
  }

  lemma MergedSizes(segs: seq<Segment>, o: nat, length: nat, i: nat, j: nat, t: seq<Segment>, now: seq<Segment>,
                    f: nat, l: nat)
    requires i < |segs| && j < |segs| && |t| > 1 && MergedInto(segs, o, length, i, j, t, now, f, l)
    ensures f <= 1 && |t| - 1 <= l <= |t| && |now| == |segs|
    ensures o >= length ==> l == |t|
  {
  }

  lemma StartsAt(e: Encoding, segs: seq<Segment>, o: nat, j: nat)
    requires Canonical(e, segs, 0) && CutAt(e, segs, o, j, 0)
    ensures segs[j].text != [] && segs[j].offset == o && segs[j].text[0..] == segs[j].text
  {
    hide Canonical, View;
    SegmentAt(e, segs, 0, j);
    CutBorder(e, segs, o, j, 0);
  }

  /** Splitting the segment around the gap. */
  lemma GraftSplit(e: Encoding, segs: seq<Segment>, o: nat, i: nat, at: nat, t: seq<Segment>,
                   f: nat, l: nat, now: seq<Segment>)
    requires Canonical(e, segs, 0) && CutAt(e, segs, o, i, at) && 0 < at < |segs[i].text|
    requires |t| > 1 && Canonical(e, t, 0)
    requires f == if segs[i].author == t[0].author then 1 else 0
    requires l == if segs[i].author == t[|t| - 1].author then |t| - 1 else |t|
    requires |now| == |segs| + 1 && now[..i] == segs[..i] && now[i + 2..] == segs[i + 1..]
    requires now[i] == segs[i].(text := segs[i].text[..at] + if f == 1 then t[0].text else [])
    requires now[i + 1] ==
      if l < |t| then segs[i].(text := t[l].text + segs[i].text[at..], offset := o + t[l].offset)
      else segs[i].(text := segs[i].text[at..], offset := o + |View(e, t)|)
    ensures Ready(e, View(e, segs), o, t, now, i + 1, i + 2, f, l)
  {
    hide Canonical, View, LeftReady, RightReady;
    SplitLeft(e, segs, o, i, at, t, f, now[..i + 1]);
    SplitRight(e, segs, o, i, at, t, l, now[i + 1..i + 2] + Shift(now[i + 2..], |View(e, t)|));
  }

  lemma SplitLeft(e: Encoding, segs: seq<Segment>, o: nat, i: nat, at: nat, t: seq<Segment>, f: nat, a: seq<Segment>)
    requires Canonical(e, segs, 0) && CutAt(e, segs, o, i, at) && 0 < at
    requires |t| > 1 && Canonical(e, t, 0)
    requires f == if segs[i].author == t[0].author then 1 else 0
    requires |a| == i + 1 && a[..i] == segs[..i]
    requires a[i] == segs[i].(text := segs[i].text[..at] + if f == 1 then t[0].text else [])
    ensures LeftReady(e, View(e, segs), o, t, a, f)
  {
    hide Canonical, View, LeftReady;
    if f == 1 {
      SegmentAt(e, t, 0, 0);
      LeftMerged(e, segs, o, i, at, t);
      assert a == LeftOf(segs, i, at, t[0].text);
    } else {
      LeftApart(e, segs, o, i, at, t);
      assert segs[i].text[..at] + [] == segs[i].text[..at];
      assert a == HeadOf(segs, i, at);
    }
  }

  lemma SplitRight(e: Encoding, segs: seq<Segment>, o: nat, i: nat, at: nat, t: seq<Segment>, l: nat, b: seq<Segment>)
    requires Canonical(e, segs, 0) && CutAt(e, segs, o, i, at) && at < |segs[i].text|
    requires |t| > 1 && Canonical(e, t, 0)
    requires l == if segs[i].author == t[|t| - 1].author then |t| - 1 else |t|
    requires b == [if l < |t| then segs[i].(text := t[l].text + segs[i].text[at..], offset := o + t[l].offset)
                   else segs[i].(text := segs[i].text[at..], offset := o + |View(e, t)|)]
                  + Shift(segs[i + 1..], |View(e, t)|)
    ensures RightReady(e, View(e, segs), o, t, b, l)
  {
    hide Canonical, View, RightReady;
    if l < |t| {
      RightMerged(e, segs, o, i, at, t, t[l]);
    } else {
      RightApart(e, segs, o, i, at, t);
    }
  }

  lemma ReadyBounds(e: Encoding, v: seq<Cell>, o: nat, t: seq<Segment>,
                    segs: seq<Segment>, iter: nat, beyond: nat, f: nat, l: nat)
    requires Ready(e, v, o, t, segs, iter, beyond, f, l)
    ensures f <= l <= |t| && iter <= beyond <= |segs| && o <= |v|
  {
  }

  /** What remains to be done is copying and moving. */
  lemma {:induction false} Finished(e: Encoding, v: seq<Cell>, o: nat, t: seq<Segment>,
                 segs: seq<Segment>, iter: nat, was: nat, f: nat, l: nat, now: seq<Segment>, beyond: nat)
    requires Canonical(e, t, 0) && Ready(e, v, o, t, segs, iter, was, f, l) && beyond == was + (l - f)
    requires now == segs[..iter] + Shift(t[f..l], o) + segs[iter..]
    ensures o <= |v| && beyond <= |now|
    ensures Canonical(e, now[..beyond] + Shift(now[beyond..], |View(e, t)|), 0)
    ensures View(e, now[..beyond] + Shift(now[beyond..], |View(e, t)|)) == Inserted(v, o, View(e, t))
  {
    hide Canonical, View, LeftReady, RightReady;
    var b := segs[iter..was] + Shift(segs[was..], |View(e, t)|);
    LeftBound(e, v, o, t, segs[..iter], f);
    Grafted(e, v, o, t, segs[..iter], f, b, l);
    assert now[..beyond] == segs[..iter] + Shift(t[f..l], o) + segs[iter..was];
    assert now[beyond..] == segs[was..];
    assert now[..beyond] + Shift(now[beyond..], |View(e, t)|) == segs[..iter] + Shift(t[f..l], o) + b;
  }

  lemma LeftBound(e: Encoding, v: seq<Cell>, o: nat, t: seq<Segment>, a: seq<Segment>, f: nat)
    requires LeftReady(e, v, o, t, a, f)
    ensures o <= |v|
  {
  }

  /** Inserting nothing, or into nothing. */
  lemma GraftEmpty(e: Encoding, segs: seq<Segment>, o: nat, t: seq<Segment>, now: seq<Segment>)
    requires Canonical(e, segs, 0) && Canonical(e, t, 0) && o <= |View(e, segs)|
    requires |View(e, segs)| == 0 || |View(e, t)| == 0
    requires now == segs + Shift(t, 0)
    ensures Canonical(e, now, 0) && View(e, now) == Inserted(View(e, segs), o, View(e, t))
  {
    hide View, Canonical, Shift, Inserted;
    ShiftNothing(t);
    EmptyView(e);
    if |View(e, segs)| == 0 {
      EmptyLength(e, segs);
      assert now == t;
      InsertNothing(View(e, t), 0);
    } else {
      EmptyLength(e, t);
      assert now == segs;
      InsertNothing(View(e, segs), o);
    }
  }

  lemma ShiftNothing(t: seq<Segment>)
    ensures Shift(t, 0) == t
  {
  }

  lemma InsertNothing<T>(v: seq<T>, o: nat)
    ensures o <= |v| ==> Inserted(v, o, []) == v
    ensures Inserted([], 0, v) == v
  {
  }

  /** A chunk of one segment. */
  lemma OnlySegment(e: Encoding, s: Segment)
    requires Canonical(e, [s], 0)
    ensures Good(e, s) && View(e, [s]) == Cells(e, s.author, s.text)
  {
    One(e, s, 0);
  }
}
