/** Copying a range of characters out of a canonical segment list. */
module Slices {
  import opened Encodings
  import opened Ropes
  import opened Cuts

  /** Character `o` starts at byte `at` of segment `i`, or ends the segment there. */
  ghost predicate Marks(e: Encoding, segs: seq<Segment>, o: nat, i: nat, at: nat) {
    && i < |segs| && segs[i].offset <= o
    && o - segs[i].offset <= |Decode(e, segs[i].text)|
    && at == ByteIndex(e, segs[i].text, o - segs[i].offset)
  }

  lemma PieceOfText(e: Encoding, t: seq<Byte>, k: nat, m: nat)
    requires WellFormed(e, t) && k < m <= |Decode(e, t)|
    ensures ByteIndex(e, t, k) < ByteIndex(e, t, m) <= |t|
    ensures WellFormed(e, t[ByteIndex(e, t, k)..ByteIndex(e, t, m)])
    ensures Decode(e, t[ByteIndex(e, t, k)..ByteIndex(e, t, m)]) == Decode(e, t)[k..m]
  {
    hide Decode, WellFormed;
    var cs := Decode(e, t);
    var at, bt := ByteIndex(e, t, k), ByteIndex(e, t, m);
    DecodeCut(e, t, m);
    var p := t[..bt];
    assert cs[..m][..k] == cs[..k] && cs[..m][k..] == cs[k..m];
    DecodeCut(e, p, k);
    assert p[at..] == t[at..bt];
    assert Decode(e, p[at..]) != [];
  }

  /** The bytes between two marks in one segment. */
  lemma Piece(e: Encoding, segs: seq<Segment>, i: nat, o: nat, at: nat, q: nat, bt: nat)
    requires Canonical(e, segs, 0) && Marks(e, segs, o, i, at) && Marks(e, segs, q, i, bt) && o < q
    ensures at < bt <= |segs[i].text| && q <= |View(e, segs)|
    ensures WellFormed(e, segs[i].text[at..bt])
    ensures Cells(e, segs[i].author, segs[i].text[at..bt]) == View(e, segs)[o..q]
  {
    hide Canonical, View, WellFormed, Decode;
    var s := segs[i];
    var k, m := o - s.offset, q - s.offset;
    SegmentAt(e, segs, 0, i);
    PieceOfText(e, s.text, k, m);
    var a, c, b := View(e, segs[..i]), Cells(e, s.author, s.text), View(e, segs[i + 1..]);
    assert Cells(e, s.author, s.text[at..bt]) == c[k..m];
    assert (a + c + b)[|a| + k..|a| + m] == c[k..m];
  }

  /** Where a segment ends and the next one begins. */
  lemma NextMark(e: Encoding, segs: seq<Segment>, i: nat)
    requires Canonical(e, segs, 0) && i + 1 < |segs|
    ensures Marks(e, segs, segs[i + 1].offset, i, |segs[i].text|)
    ensures Marks(e, segs, segs[i + 1].offset, i + 1, 0)
    ensures segs[i].offset < segs[i + 1].offset && segs[i].author != segs[i + 1].author
  {
    hide Canonical, View, WellFormed, Decode;
    var s := segs[i];
    SegmentAt(e, segs, 0, i);
    var b := segs[i + 1..];
    var n := |Cells(e, s.author, s.text)|;
    SegmentAt(e, b, s.offset + n, 0);
    EmptyView(e);
    assert b[..0] == [];
    EncodeDecode(e, s.text);
    assert Decode(e, s.text)[..n] == Decode(e, s.text);
    assert Decode(e, b[0].text)[..0] == [];
  }

  lemma LocatedMarks(e: Encoding, segs: seq<Segment>, o: nat, i: nat, at: nat)
    requires Canonical(e, segs, 0) && Located(e, segs, o, i, at)
    ensures Marks(e, segs, o, i, at) && i < |segs| && segs[i].offset <= o && at <= |segs[i].text|
    ensures at > 0 ==> segs[i].offset < o
    ensures i + 1 < |segs| ==> o < segs[i + 1].offset
  {
    hide Canonical, View;
    assert Decode(e, segs[i].text)[..0] == [];
    SegmentAt(e, segs, 0, i);
    DecodeCut(e, segs[i].text, o - segs[i].offset);
    if i + 1 < |segs| {
      OffsetsAfter(e, segs, i, i + 1);
    }
  }

  lemma OffsetsIncrease(e: Encoding, segs: seq<Segment>, i: nat, j: nat)
    requires Canonical(e, segs, 0) && i <= j < |segs|
    ensures segs[i].offset <= segs[j].offset
  {
    if i < j {
      OffsetsAfter(e, segs, i, j);
    }
  }

  lemma MarkBefore(e: Encoding, segs: seq<Segment>, q: nat, i: nat)
    requires Canonical(e, segs, 0) && Marks(e, segs, q, i, 0) && q > 0
    ensures i > 0 && Marks(e, segs, q, i - 1, |segs[i - 1].text|)
    ensures segs[i - 1].offset < q == segs[i].offset
  {
    hide Canonical, View, WellFormed, Cells;
    SegmentAt(e, segs, 0, i);
    CellsCut(e, segs[i].author, segs[i].text, q - segs[i].offset);
    EmptyView(e);
    NextMark(e, segs, i - 1);
  }

  /** The next piece of a copy. */
  lemma CopyPiece(e: Encoding, segs: seq<Segment>, i: nat, o: nat, at: nat, q: nat, bt: nat,
                  begin: nat, copy: seq<Segment>)
    requires Canonical(e, segs, 0) && Marks(e, segs, o, i, at) && Marks(e, segs, q, i, bt) && begin <= o < q
    requires o <= |View(e, segs)|
    requires Canonical(e, copy, 0) && View(e, copy) == View(e, segs)[begin..o]
    requires copy == [] || copy[|copy| - 1].author != segs[i].author
    ensures at < bt <= |segs[i].text| && q <= |View(e, segs)|
    ensures Canonical(e, copy + [Segment(segs[i].author, segs[i].text[at..bt], o - begin)], 0)
    ensures View(e, copy + [Segment(segs[i].author, segs[i].text[at..bt], o - begin)])
      == View(e, segs)[begin..q]
  {
    hide Canonical, View, WellFormed, Cells;
    Piece(e, segs, i, o, at, q, bt);
    Append(e, copy, Segment(segs[i].author, segs[i].text[at..bt], o - begin), 0);
    assert View(e, segs)[begin..o] + View(e, segs)[o..q] == View(e, segs)[begin..q];
  }

  // ---------- The text of a chunk ----------

  /** The bytes of the segments, one after the other. */
  ghost function Bytes(segs: seq<Segment>): seq<Byte> {
    if segs == [] then [] else segs[0].text + Bytes(segs[1..])
  }

  /** The text of each segment. */
  ghost function Texts(segs: seq<Segment>): (r: seq<seq<Byte>>)
    ensures |r| == |segs| && forall i :: 0 <= i < |segs| ==> r[i] == segs[i].text
  {
    seq(|segs|, i requires 0 <= i < |segs| => segs[i].text)
  }

  /** The characters without their authors. */
  ghost function Symbols(v: seq<Cell>): (r: seq<Char>)
    ensures |r| == |v| && forall i :: 0 <= i < |v| ==> r[i] == v[i].symbol
  {
    seq(|v|, i requires 0 <= i < |v| => v[i].symbol)
  }

  lemma SymbolsJoin(a: seq<Cell>, b: seq<Cell>)
    ensures Symbols(a + b) == Symbols(a) + Symbols(b)
  {
  }

  lemma SymbolsOfCells(e: Encoding, author: nat, text: seq<Byte>)
    ensures Encode(Symbols(Cells(e, author, text))) == text
  {
    assert Symbols(Cells(e, author, text)) == Decode(e, text);
    EncodeDecode(e, text);
  }

  lemma EncodeNothing()
    ensures Encode(Symbols([])) == []
  {
  }

  /** The bytes of a chunk are the encoding of its characters. */
  lemma {:induction false} BytesAreEncoded(e: Encoding, segs: seq<Segment>)
    ensures Bytes(segs) == Encode(Symbols(View(e, segs)))
  {
    hide Encode, Cells, Symbols;
    EncodeNothing();
    if segs != [] {
      var cells, rest := Cells(e, segs[0].author, segs[0].text), View(e, segs[1..]);
      BytesAreEncoded(e, segs[1..]);
      SymbolsJoin(cells, rest);
      SymbolsOfCells(e, segs[0].author, segs[0].text);
      EncodeJoin(Symbols(cells), Symbols(rest));
    }
  }

  /** The text of a segment in terms of the characters and authors at its place. */
  lemma SegmentText(e: Encoding, segs: seq<Segment>, i: nat)
    requires Canonical(e, segs, 0) && i < |segs|
    ensures segs[i].offset + |Decode(e, segs[i].text)| <= |View(e, segs)|
    ensures var here := View(e, segs)[segs[i].offset..segs[i].offset + |Decode(e, segs[i].text)|];
      && segs[i].text == Encode(Symbols(here))
      && forall k :: 0 <= k < |here| ==> here[k].author == segs[i].author
  {
    hide Canonical, View, Decode, Encode, Symbols;
    SegmentAt(e, segs, 0, i);
    var s := segs[i];
    var a, c, b := View(e, segs[..i]), Cells(e, s.author, s.text), View(e, segs[i + 1..]);
    CutOut(a, c, b);
    SymbolsOfCells(e, s.author, s.text);
  }

  lemma CutOut<T>(a: seq<T>, c: seq<T>, b: seq<T>)
    ensures (a + c + b)[|a|..|a| + |c|] == c
  {
  }

  /** The authors of the segments. */
  ghost function Authors(segs: seq<Segment>): (r: seq<nat>)
    ensures |r| == |segs| && forall i :: 0 <= i < |segs| ==> r[i] == segs[i].author
  {
    seq(|segs|, i requires 0 <= i < |segs| => segs[i].author)
  }

  /** Equal texts and authors of the segments, in other words equal chunks. */
  lemma TextsAndAuthors(e: Encoding, a: seq<Segment>, b: seq<Segment>)
    requires Canonical(e, a, 0) && Canonical(e, b, 0)
    ensures View(e, a) == View(e, b) <==> Texts(a) == Texts(b) && Authors(a) == Authors(b)
  {
    if View(e, a) == View(e, b) {
      CanonicalUnique(e, a, b, 0);
    } else if Texts(a) == Texts(b) && Authors(a) == Authors(b) {
      SameView(e, a, b);
    }
  }

  lemma {:induction false} SameView(e: Encoding, a: seq<Segment>, b: seq<Segment>)
    requires Texts(a) == Texts(b) && Authors(a) == Authors(b)
    ensures View(e, a) == View(e, b)
  {
    if a != [] {
      assert |a| == |Texts(a)| == |b|;
      assert a[0].text == Texts(a)[0] == Texts(b)[0] == b[0].text;
      assert a[0].author == Authors(a)[0] == Authors(b)[0] == b[0].author;
      forall i | 0 <= i < |a| - 1
        ensures a[1..][i].text == b[1..][i].text && a[1..][i].author == b[1..][i].author
      {
        assert Texts(a)[i + 1] == Texts(b)[i + 1] && Authors(a)[i + 1] == Authors(b)[i + 1];
      }
      assert Texts(a[1..]) == Texts(b[1..]) && Authors(a[1..]) == Authors(b[1..]);
      SameView(e, a[1..], b[1..]);
    } else {
      assert |b| == |Texts(b)| == 0;
    }
  }

  /** The same letter by two authors compares as equal. */
  lemma EqualIgnoresAuthors()
    ensures var a, b := [Segment(1, [0x61], 0)], [Segment(2, [0x61], 0)];
      && Canonical(Utf8, a, 0) && Canonical(Utf8, b, 0)
      && Texts(a) == Texts(b) && View(Utf8, a) != View(Utf8, b)
  {
    var a, b := Segment(1, [0x61], 0), Segment(2, [0x61], 0);
    var c: Char := [0x61];
    assert [c][1..] == [] && Encode([c]) == c;
    DecodeEncode(Utf8, [c]);
    One(Utf8, a, 0);
    One(Utf8, b, 0);
    assert View(Utf8, [a])[0] != View(Utf8, [b])[0];
    assert Texts([a]) == Texts([b]);
  }
}
