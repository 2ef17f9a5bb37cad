/** The value of a chunk: its segments, the authored characters they stand for, and the canonical
    form in which the chunk keeps them. */
module Ropes {
  import opened Encodings

  /** A character together with the user who wrote it. */
  datatype Cell = Cell(symbol: Char, author: nat)

  /** A run of text by one author.  `offset` is the position of its first character in the chunk. */
  datatype Segment = Segment(author: nat, text: seq<Byte>, offset: nat)

  ghost function Paint(cs: seq<Char>, author: nat): (r: seq<Cell>)
    ensures |r| == |cs| && forall i :: 0 <= i < |cs| ==> r[i] == Cell(cs[i], author)
  {
    seq(|cs|, i requires 0 <= i < |cs| => Cell(cs[i], author))
  }

  ghost function Cells(e: Encoding, author: nat, text: seq<Byte>): (r: seq<Cell>)
    ensures |r| == |Decode(e, text)|
    ensures r == [] <==> text == []
  {
    Paint(Decode(e, text), author)
  }

  /** What the segments stand for. */
  ghost function View(e: Encoding, segs: seq<Segment>): seq<Cell> {
    if segs == [] then [] else Cells(e, segs[0].author, segs[0].text) + View(e, segs[1..])
  }

  ghost predicate Good(e: Encoding, s: Segment) {
    s.text != [] && WellFormed(e, s.text)
  }

  /** The last segment of `a` and the first one of `b` cannot be merged. */
  ghost predicate Border(a: seq<Segment>, b: seq<Segment>) {
    a == [] || b == [] || a[|a| - 1].author != b[0].author
  }

  ghost predicate Alternating(segs: seq<Segment>) {
    |segs| < 2 || (segs[0].author != segs[1].author && Alternating(segs[1..]))
  }

  ghost predicate AllGood(e: Encoding, segs: seq<Segment>) {
    segs == [] || (Good(e, segs[0]) && AllGood(e, segs[1..]))
  }

  /** Each segment starts where the one before it ends, the first one at `base`. */
  ghost predicate Contiguous(e: Encoding, segs: seq<Segment>, base: nat) {
    segs == [] ||
    (&& segs[0].offset == base
     && Contiguous(e, segs[1..], base + |Cells(e, segs[0].author, segs[0].text)|))
  }

  /** The form in which a chunk keeps its segments: contiguous, none empty, each made of complete
      characters, neighbours by different authors. */
  ghost predicate Canonical(e: Encoding, segs: seq<Segment>, base: nat) {
    && AllGood(e, segs)
    && Contiguous(e, segs, base)
    && Alternating(segs)
  }

  // ---------- Sequences ----------

  lemma CutMiddle<T>(a: seq<T>, c: seq<T>, b: seq<T>, k: nat)
    requires k <= |c|
    ensures (a + c + b)[..|a| + k] == a + c[..k]
    ensures (a + c + b)[|a| + k..] == c[k..] + b
  {
  }

  // ---------- Cells ----------

  lemma CellsJoin(e: Encoding, author: nat, a: seq<Byte>, b: seq<Byte>)
    requires WellFormed(e, a) && WellFormed(e, b)
    ensures WellFormed(e, a + b)
    ensures Cells(e, author, a + b) == Cells(e, author, a) + Cells(e, author, b)
  {
    DecodeJoin(e, a, b);
  }

  lemma CellsCut(e: Encoding, author: nat, t: seq<Byte>, k: nat)
    requires WellFormed(e, t) && k <= |Decode(e, t)|
    ensures var i := ByteIndex(e, t, k);
      && i <= |t|
      && WellFormed(e, t[..i]) && Cells(e, author, t[..i]) == Cells(e, author, t)[..k]
      && WellFormed(e, t[i..]) && Cells(e, author, t[i..]) == Cells(e, author, t)[k..]
      && (i == 0 <==> k == 0) && (i == |t| <==> k == |Decode(e, t)|)
  {
    DecodeCut(e, t, k);
    var i := ByteIndex(e, t, k);
    assert i == 0 <==> Decode(e, t[..i]) == [];
    assert i == |t| <==> Decode(e, t[i..]) == [];
  }

  lemma CellsInjective(e: Encoding, author: nat, a: seq<Byte>, b: seq<Byte>)
    requires Cells(e, author, a) == Cells(e, author, b)
    ensures a == b
  {
    forall i | 0 <= i < |Decode(e, a)| ensures Decode(e, a)[i] == Decode(e, b)[i] {
      assert Cells(e, author, a)[i] == Cells(e, author, b)[i];
    }
    assert Decode(e, a) == Decode(e, b);
    EncodeDecode(e, a);
    EncodeDecode(e, b);
  }

  // ---------- Concatenation ----------

  lemma {:induction false} ViewJoin(e: Encoding, a: seq<Segment>, b: seq<Segment>)
    ensures View(e, a + b) == View(e, a) + View(e, b)
  {
    if a == [] {
      assert a + b == b;
    } else {
      assert (a + b)[1..] == a[1..] + b;
      ViewJoin(e, a[1..], b);
    }
  }

  lemma {:induction false} ContiguousJoin(e: Encoding, a: seq<Segment>, b: seq<Segment>, base: nat)
    ensures Contiguous(e, a + b, base) <==>
      Contiguous(e, a, base) && Contiguous(e, b, base + |View(e, a)|)
  {
    if a == [] {
      assert a + b == b;
    } else {
      assert (a + b)[1..] == a[1..] + b;
      ContiguousJoin(e, a[1..], b, base + |Cells(e, a[0].author, a[0].text)|);
    }
  }

  lemma {:induction false} AlternatingJoin(a: seq<Segment>, b: seq<Segment>)
    ensures Alternating(a + b) <==> Alternating(a) && Alternating(b) && Border(a, b)
  {
    if a == [] {
      assert a + b == b;
    } else {
      assert (a + b)[1..] == a[1..] + b;
      AlternatingJoin(a[1..], b);
    }
  }

  lemma {:induction false} AllGoodJoin(e: Encoding, a: seq<Segment>, b: seq<Segment>)
    ensures AllGood(e, a + b) <==> AllGood(e, a) && AllGood(e, b)
  {
    if a == [] {
      assert a + b == b;
    } else {
      assert (a + b)[1..] == a[1..] + b;
      AllGoodJoin(e, a[1..], b);
    }
  }

  lemma CanonicalJoin(e: Encoding, a: seq<Segment>, b: seq<Segment>, base: nat)
    ensures Canonical(e, a + b, base) <==>
      Canonical(e, a, base) && Canonical(e, b, base + |View(e, a)|) && Border(a, b)
  {
    ContiguousJoin(e, a, b, base);
    AlternatingJoin(a, b);
    AllGoodJoin(e, a, b);
  }

  lemma One(e: Encoding, s: Segment, base: nat)
    ensures View(e, [s]) == Cells(e, s.author, s.text)
    ensures Canonical(e, [s], base) <==> Good(e, s) && s.offset == base
  {
    var rest := [s][1..];
    assert rest == [];
    assert AllGood(e, rest) && View(e, rest) == [];
    assert Contiguous(e, rest, base + |Cells(e, s.author, s.text)|);
  }

  // ---------- Shifting ----------

  function Moved(s: Segment, d: int): Segment {
    if s.offset + d >= 0 then s.(offset := s.offset + d) else s.(offset := 0)
  }

  /** Moving by `d` does not move any segment in front of the chunk. */
  ghost predicate Movable(segs: seq<Segment>, d: int) {
    forall i :: 0 <= i < |segs| ==> segs[i].offset + d >= 0
  }

  ghost function Shift(segs: seq<Segment>, d: int): (r: seq<Segment>)
    ensures |r| == |segs|
    ensures forall i :: 0 <= i < |segs| ==> r[i] == Moved(segs[i], d)
  {
    seq(|segs|, i requires 0 <= i < |segs| => Moved(segs[i], d))
  }

  lemma {:induction false} OffsetsBounded(e: Encoding, segs: seq<Segment>, base: nat)
    requires Contiguous(e, segs, base)
    ensures forall i :: 0 <= i < |segs| ==> base <= segs[i].offset <= base + |View(e, segs)|
  {
    if segs != [] {
      OffsetsBounded(e, segs[1..], base + |Cells(e, segs[0].author, segs[0].text)|);
      assert forall i :: 0 < i < |segs| ==> segs[i] == segs[1..][i - 1];
    }
  }

  lemma {:induction false} ShiftContiguous(e: Encoding, segs: seq<Segment>, base: nat, d: int)
    requires Contiguous(e, segs, base) && base + d >= 0
    ensures Contiguous(e, Shift(segs, d), base + d)
    ensures View(e, Shift(segs, d)) == View(e, segs)
  {
    if segs != [] {
      ShiftContiguous(e, segs[1..], base + |Cells(e, segs[0].author, segs[0].text)|, d);
      assert Shift(segs, d)[1..] == Shift(segs[1..], d);
    }
  }

  lemma {:induction false} ShiftKeeps(e: Encoding, segs: seq<Segment>, d: int)
    ensures AllGood(e, Shift(segs, d)) <==> AllGood(e, segs)
    ensures Alternating(Shift(segs, d)) <==> Alternating(segs)
  {
    if segs != [] {
      ShiftKeeps(e, segs[1..], d);
      assert Shift(segs, d)[1..] == Shift(segs[1..], d);
    }
  }

  lemma ShiftCanonical(e: Encoding, segs: seq<Segment>, base: nat, d: int)
    requires Canonical(e, segs, base) && base + d >= 0
    ensures Canonical(e, Shift(segs, d), base + d)
    ensures View(e, Shift(segs, d)) == View(e, segs)
  {
    ShiftContiguous(e, segs, base, d);
    ShiftKeeps(e, segs, d);
  }

  // ---------- Segments in place ----------

  lemma AroundView(e: Encoding, a: seq<Segment>, s: Segment, b: seq<Segment>)
    ensures View(e, a + [s]) == View(e, a) + Cells(e, s.author, s.text)
    ensures View(e, a + [s] + b) == View(e, a) + Cells(e, s.author, s.text) + View(e, b)
  {
    hide View, Contiguous, AllGood, Alternating, Cells, WellFormed;
    ViewJoin(e, a + [s], b);
    ViewJoin(e, a, [s]);
    One(e, s, 0);
  }

  lemma Around(e: Encoding, a: seq<Segment>, s: Segment, b: seq<Segment>, base: nat)
    ensures Canonical(e, a + [s] + b, base) <==>
      && Good(e, s) && s.offset == base + |View(e, a)|
      && Canonical(e, a, base) && Border(a, [s])
      && Canonical(e, b, s.offset + |Cells(e, s.author, s.text)|) && Border([s], b)
  {
    hide View, Canonical, Contiguous, AllGood, Alternating, Cells, WellFormed;
    var c := a + [s];
    AroundView(e, a, s, b);
    CanonicalJoin(e, c, b, base);
    CanonicalJoin(e, a, [s], base);
    One(e, s, base + |View(e, a)|);
    assert c[|c| - 1] == s;
  }

  lemma Append(e: Encoding, a: seq<Segment>, s: Segment, base: nat)
    requires Canonical(e, a, base) && Good(e, s) && s.offset == base + |View(e, a)| && Border(a, [s])
    ensures Canonical(e, a + [s], base)
    ensures View(e, a + [s]) == View(e, a) + Cells(e, s.author, s.text)
  {
    hide View, Canonical, Contiguous, AllGood, Alternating, Cells, WellFormed;
    CanonicalJoin(e, a, [s], base);
    ViewJoin(e, a, [s]);
    One(e, s, s.offset);
  }

  lemma Prepend(e: Encoding, s: Segment, b: seq<Segment>)
    requires Good(e, s) && Canonical(e, b, s.offset + |Cells(e, s.author, s.text)|) && Border([s], b)
    ensures Canonical(e, [s] + b, s.offset)
    ensures View(e, [s] + b) == Cells(e, s.author, s.text) + View(e, b)
  {
    hide View, Canonical, Contiguous, AllGood, Alternating, Cells, WellFormed;
    CanonicalJoin(e, [s], b, s.offset);
    ViewJoin(e, [s], b);
    One(e, s, s.offset);
  }

  /** What a segment of a canonical chunk covers. */
  lemma SegmentAt(e: Encoding, segs: seq<Segment>, base: nat, i: nat)
    requires Canonical(e, segs, base) && i < |segs|
    ensures var s, a, b := segs[i], segs[..i], segs[i + 1..];
      var cells := Cells(e, s.author, s.text);
      && segs == a + [s] + b
      && Good(e, s) && cells != []
      && Canonical(e, a, base)
      && s.offset == base + |View(e, a)|
      && Canonical(e, b, s.offset + |cells|)
      && View(e, segs) == View(e, a) + cells + View(e, b)
      && Border(a, [s]) && Border([s], b)
  {
    hide View, Canonical, Contiguous, AllGood, Alternating, Cells, WellFormed;
    assert segs == segs[..i] + [segs[i]] + segs[i + 1..];
    Around(e, segs[..i], segs[i], segs[i + 1..], base);
    AroundView(e, segs[..i], segs[i], segs[i + 1..]);
  }

  lemma Adjacent(e: Encoding, segs: seq<Segment>, base: nat, k: nat)
    requires Canonical(e, segs, base) && 0 < k < |segs|
    ensures segs[k - 1].author != segs[k].author
  {
    hide Canonical, View, Cells;
    SegmentAt(e, segs, base, k);
    assert segs[..k][k - 1] == segs[k - 1];
  }

  /** The outermost cells of a canonical chunk belong to its outermost segments. */
  lemma EndCells(e: Encoding, segs: seq<Segment>, base: nat)
    requires segs != [] && Canonical(e, segs, base)
    ensures var v := View(e, segs);
      && v != []
      && v[0].author == segs[0].author
      && v[|v| - 1].author == segs[|segs| - 1].author
  {
    SegmentAt(e, segs, base, 0);
    SegmentAt(e, segs, base, |segs| - 1);
    assert View(e, segs[..0]) == [] && View(e, segs[|segs|..]) == [];
  }

  lemma EmptyLength(e: Encoding, segs: seq<Segment>)
    requires Canonical(e, segs, 0) && |View(e, segs)| == 0
    ensures segs == []
  {
  }

  // ---------- Uniqueness ----------

  /** The first segment of a canonical chunk is the longest run of its author. */
  lemma FirstRun(e: Encoding, segs: seq<Segment>, base: nat)
    requires segs != [] && Canonical(e, segs, base)
    ensures var v, n := View(e, segs), |Cells(e, segs[0].author, segs[0].text)|;
      && 0 < n <= |v|
      && (forall i :: 0 <= i < n ==> v[i].author == segs[0].author)
      && (n < |v| ==> v[n].author != segs[0].author)
      && v[..n] == Cells(e, segs[0].author, segs[0].text)
      && v[n..] == View(e, segs[1..])
      && Canonical(e, segs[1..], base + n)
  {
    var rest := segs[1..];
    if rest != [] {
      assert AllGood(e, rest);
      assert Cells(e, rest[0].author, rest[0].text) != [];
      assert View(e, rest)[0].author == rest[0].author;
    }
  }

  /** A view has exactly one canonical segmentation. */
  lemma {:induction false} CanonicalUnique(e: Encoding, a: seq<Segment>, b: seq<Segment>, base: nat)
    requires Canonical(e, a, base) && Canonical(e, b, base)
    requires View(e, a) == View(e, b)
    ensures a == b
  {
    if a != [] {
      FirstRun(e, a, base);
    }
    if b != [] {
      FirstRun(e, b, base);
    }
    if a != [] && b != [] {
      var n, m := |Cells(e, a[0].author, a[0].text)|, |Cells(e, b[0].author, b[0].text)|;
      assert n == m;
      CellsInjective(e, a[0].author, a[0].text, b[0].text);
      CanonicalUnique(e, a[1..], b[1..], base + n);
      assert a == [a[0]] + a[1..] && b == [b[0]] + b[1..];
    }
  }
}
