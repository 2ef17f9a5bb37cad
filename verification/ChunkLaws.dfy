/** Laws that relate several operations of the chunk, stated for the segment lists themselves and not
    only for the text they stand for. */
module ChunkLaws {
  import opened Encodings
  import opened Ropes
  import opened Cuts
  import opened TextChunk

  /** Erasing undoes inserting, and reinserting what was cut out undoes erasing: a canonical segment
      list with the resulting view is the original one. */
  lemma RoundTrips(e: Encoding, segs: seq<Segment>, now: seq<Segment>, o: nat, w: seq<Cell>)
    requires Canonical(e, segs, 0) && Canonical(e, now, 0) && o <= |View(e, segs)|
    ensures View(e, now) == Erased(Inserted(View(e, segs), o, w), o, |w|) ==> now == segs
    ensures Reinserted(View(e, segs), View(e, now), o, w) ==> now == segs
  {
    hide View, Canonical;
    var v := View(e, segs);
    assert Erased(Inserted(v, o, w), o, |w|) == v;
    if Reinserted(v, View(e, now), o, w) {
      assert Inserted(Erased(v, o, |w|), o, w) == v;
    }
    if View(e, now) == v {
      CanonicalUnique(e, now, segs, 0);
    }
  }

  /** `u` is `v` after its part `w` at `o` was erased and inserted again. */
  ghost predicate Reinserted(v: seq<Cell>, u: seq<Cell>, o: nat, w: seq<Cell>) {
    && o + |w| <= |v| && w == v[o..o + |w|]
    && u == Inserted(Erased(v, o, |w|), o, w)
  }

  method InsertThenErase(c: Chunk, o: nat, text: Chunk)
    requires c.Valid() && text.Valid() && text != c && o <= c.length && c.encoding == text.encoding
    modifies c
    ensures c.Valid() && c.segments == old(c.segments)
  {
    hide View, Canonical;
    ghost var was := c.segments;
    c.InsertChunk(o, text);
    c.Erase(o, text.length);
    RoundTrips(c.encoding, was, c.segments, o, text.Contents());
  }

  method EraseThenReinsert(c: Chunk, begin: nat, count: nat)
    requires c.Valid() && begin + count <= c.length
    modifies c
    ensures c.Valid() && c.segments == old(c.segments)
  {
    hide View, Canonical;
    ghost var was := c.segments;
    var cut := c.Substring(begin, count);
    c.Erase(begin, count);
    c.InsertChunk(begin, cut);
    RoundTrips(c.encoding, was, c.segments, begin, cut.Contents());
  }

  lemma InsertMore<T>(v: seq<T>, o: nat, x: seq<T>, y: seq<T>)
    requires o <= |v|
    ensures Inserted(Inserted(v, o, x), o + |x|, y) == Inserted(v, o, x + y)
  {
  }

  /** One more segment of `t` is inserted behind the ones before it. */
  lemma NextPiece(e: Encoding, v: seq<Cell>, o: nat, t: seq<Segment>, i: nat)
    requires Canonical(e, t, 0) && i < |t| && o <= |v|
    ensures Good(e, t[i]) && t[i].offset == |View(e, t[..i])|
    ensures Inserted(Inserted(v, o, View(e, t[..i])), o + t[i].offset, Cells(e, t[i].author, t[i].text))
      == Inserted(v, o, View(e, t[..i + 1]))
  {
    hide Canonical, View, Cells, Inserted;
    SegmentAt(e, t, 0, i);
    AroundView(e, t[..i], t[i], []);
    assert t[..i + 1] == t[..i] + [t[i]];
    InsertMore(v, o, View(e, t[..i]), Cells(e, t[i].author, t[i].text));
  }

  /** Inserting the segments of a chunk one at a time. */
  method InsertPiecewise(c: Chunk, o: nat, text: Chunk)
    requires c.Valid() && text.Valid() && text != c && o <= c.length && c.encoding == text.encoding
    modifies c
    ensures c.Valid() && c.Contents() == Inserted(old(c.Contents()), o, text.Contents())
  {
    hide View, Canonical, Cells, Neighbour;
    ghost var e, v, t := c.encoding, c.Contents(), text.segments;
    EmptyView(e);
    assert t[..0] == [] && v == Inserted(v, o, []);
    for i := 0 to |text.segments|
      invariant c.Valid() && text.Valid() && text.segments == t
      invariant c.Contents() == Inserted(v, o, View(e, t[..i]))
    {
      NextPiece(e, v, o, t, i);
      var segment := text.segments[i];
      var next := text.NextOffset(i);
      c.InsertText(o + segment.offset, segment.text, next - segment.offset, segment.author);
    }
    assert t[..|t|] == t;
  }

  /** Inserting a chunk at once gives the same segments as inserting its segments one at a time. */
  method BulkIsPiecewise(c: Chunk, d: Chunk, o: nat, text: Chunk)
    requires c.Valid() && d.Valid() && text.Valid() && c != d && text != c && text != d
    requires c.encoding == d.encoding == text.encoding
    requires c.segments == d.segments && o <= c.length
    modifies c, d
    ensures c.Valid() && d.Valid() && c.segments == d.segments && c.length == d.length
  {
    hide View, Canonical;
    c.InsertChunk(o, text);
    InsertPiecewise(d, o, text);
    CanonicalUnique(c.encoding, c.segments, d.segments, 0);
  }

  /** Inserting nothing can leave a segment without text, which is not canonical. */
  method EmptyTextBreaksForm() returns (c: Chunk)
    ensures fresh(c) && !c.Valid() && c.Contents() == []
  {
    c := new Chunk(Utf8);
    EmptyView(Utf8);
    NoCells(Utf8, 1);
    c.InsertText(0, [], 0, 1);
  }
}
