/** `InfTextChunkIter`: walking over the segments of a chunk. */
module ChunkIter {
  import opened Encodings
  import opened Ropes
  import opened Slices
  import opened TextChunk

  /** Points to segment `first`; `second` is the one behind it. */
  class Iter {
    var chunk: Chunk?
    var first: nat
    var second: nat

    ghost predicate Valid()
      reads this, chunk
    {
      chunk != null && chunk.Valid() && first < |chunk.segments| && second == first + 1
    }

    /** The characters that the segment stands for. */
    ghost function Here(): seq<Cell>
      requires Valid()
      reads this, chunk
    {
      SegmentText(chunk.encoding, chunk.segments, first);
      var s := chunk.segments[first];
      chunk.Contents()[s.offset..s.offset + |Decode(chunk.encoding, s.text)|]
    }

    /** An iterator has to be initialised before it can be used. */
    constructor ()
      ensures chunk == null
    {
      chunk := null;
      first, second := 0, 0;
    }

    /** Fails for an empty chunk, in which there is nothing to point to. */
    method InitBegin(chunk: Chunk) returns (ok: bool)
      requires chunk.Valid()
      modifies this
      ensures ok <==> chunk.Contents() != []
      ensures if ok then Valid() && this.chunk == chunk && first == 0 else unchanged(this)
    {
      NonEmpty(chunk.encoding, chunk.segments);
      ok := chunk.length > 0;
      if ok {
        this.chunk := chunk;
        first := 0;
        second := 1;
      }
    }

    method InitEnd(chunk: Chunk) returns (ok: bool)
      requires chunk.Valid()
      modifies this
      ensures ok <==> chunk.Contents() != []
      ensures if ok then Valid() && this.chunk == chunk && second == |chunk.segments| else unchanged(this)
    {
      NonEmpty(chunk.encoding, chunk.segments);
      ok := chunk.length > 0;
      if ok {
        this.chunk := chunk;
        second := |chunk.segments|;
        first := |chunk.segments| - 1;
      }
    }

    method Next() returns (moved: bool)
      requires Valid()
      modifies this`first, this`second
      ensures Valid() && moved == (old(second) < |chunk.segments|)
      ensures first == old(first) + if moved then 1 else 0
    {
      moved := second != |chunk.segments|;
      if moved {
        first := second;
        second := first + 1;
      }
    }

    method Prev() returns (moved: bool)
      requires Valid()
      modifies this`first, this`second
      ensures Valid() && moved == (old(first) > 0)
      ensures first == old(first) - if moved then 1 else 0
    {
      moved := first != 0;
      if moved {
        second := first;
        first := first - 1;
      }
    }

    /** The bytes of exactly the characters that the segment stands for. */
    method GetText() returns (text: seq<Byte>)
      requires Valid()
      ensures text == chunk.segments[first].text
      ensures text == Encode(Symbols(Here()))
    {
      hide View, Canonical, Encode, Symbols, Decode;
      SegmentText(chunk.encoding, chunk.segments, first);
      text := chunk.segments[first].text;
    }

    /** The author of all of these characters. */
    method GetAuthor() returns (author: nat)
      requires Valid()
      ensures forall k :: 0 <= k < |Here()| ==> Here()[k].author == author
    {
      hide View, Canonical, Encode, Symbols, Decode;
      SegmentText(chunk.encoding, chunk.segments, first);
      author := chunk.segments[first].author;
    }

    /** The number of characters in front of the segment. */
    method GetOffset() returns (offset: nat)
      requires Valid()
      ensures offset == |View(chunk.encoding, chunk.segments[..first])|
      ensures offset + |Here()| <= |chunk.Contents()| && chunk.Contents()[offset..offset + |Here()|] == Here()
    {
      hide View, Canonical, Encode, Symbols, Decode;
      SegmentAt(chunk.encoding, chunk.segments, 0, first);
      SegmentText(chunk.encoding, chunk.segments, first);
      offset := chunk.segments[first].offset;
    }

    /** The number of bytes of these characters. */
    method GetBytes() returns (bytes: nat)
      requires Valid()
      ensures bytes == |Encode(Symbols(Here()))|
    {
      hide View, Canonical, Encode, Symbols, Decode;
      SegmentText(chunk.encoding, chunk.segments, first);
      bytes := |chunk.segments[first].text|;
    }

    /** The number of characters in the segment, from the offsets alone. */
    method GetLength() returns (length: nat)
      requires Valid()
      ensures length == |Decode(chunk.encoding, chunk.segments[first].text)| == |Here()|
    {
      SegmentAt(chunk.encoding, chunk.segments, 0, first);
      var next := chunk.NextOffset(first);
      if second == |chunk.segments| {
        length := chunk.length - chunk.segments[first].offset;
      } else {
        length := chunk.segments[second].offset - chunk.segments[first].offset;
      }
    }
  }

  lemma NonEmpty(e: Encoding, segs: seq<Segment>)
    ensures |View(e, segs)| > 0 ==> segs != []
  {
  }

  /** The numbers below `n` in their order, and from `n` downwards. */
  ghost function Upwards(n: nat): (s: seq<nat>)
    ensures |s| == n && forall i :: 0 <= i < n ==> s[i] == i
  {
    seq(n, i requires 0 <= i < n => i)
  }

  ghost function Downwards(n: nat): (s: seq<nat>)
    ensures |s| == n && forall i :: 0 <= i < n ==> s[i] == n - 1 - i
  {
    seq(n, i requires 0 <= i < n => n - 1 - i)
  }

  /** Walking forwards visits every segment exactly once and in order; the texts make up the text of the
      chunk, and the lengths add up to its length. */
  method WalkForwards(chunk: Chunk) returns (text: seq<Byte>, total: nat, ghost visited: seq<nat>)
    requires chunk.Valid()
    ensures visited == Upwards(|chunk.segments|)
    ensures text == Bytes(chunk.segments) == Encode(Symbols(chunk.Contents())) && total == chunk.length
  {
    hide View, Canonical, Cells, Encode, Symbols;
    ghost var e, segs := chunk.encoding, chunk.segments;
    BytesAreEncoded(e, segs);
    text, total, visited := [], 0, [];
    var iter := new Iter();
    var moved := iter.InitBegin(chunk);
    EmptyWalk(e, segs);
    while moved
      invariant chunk.Valid() && chunk.segments == segs && (moved ==> iter.Valid() && iter.chunk == chunk)
      invariant visited == Upwards(|visited|) && |visited| <= |segs|
      invariant if moved then iter.first == |visited| else |visited| == |segs|
      invariant text == Bytes(segs[..|visited|]) && total == |View(e, segs[..|visited|])|
      decreases |segs| - |visited|, moved
    {
      var piece := iter.GetText();
      var count := iter.GetLength();
      StepOfWalk(e, segs, iter.first);
      text := text + piece;
      total := total + count;
      visited := visited + [iter.first];
      moved := iter.Next();
    }
    assert segs[..|segs|] == segs;
  }

  lemma EmptyWalk(e: Encoding, segs: seq<Segment>)
    ensures Bytes(segs[..0]) == Bytes(segs[|segs|..]) == [] && View(e, segs[..0]) == View(e, segs[|segs|..]) == []
    ensures View(e, segs) == [] && Canonical(e, segs, 0) ==> segs == []
  {
  }

  lemma StartOfWalk(e: Encoding, segs: seq<Segment>)
    requires segs != []
    ensures Bytes(segs[..1]) == segs[0].text
    ensures |View(e, segs[..1])| == |Decode(e, segs[0].text)|
  {
    assert segs[..1] == [segs[0]];
    One(e, segs[0], 0);
    assert Bytes([segs[0]][1..]) == [];
  }

  lemma {:induction false} BytesJoin(a: seq<Segment>, b: seq<Segment>)
    ensures Bytes(a + b) == Bytes(a) + Bytes(b)
  {
    if a == [] {
      assert a + b == b;
    } else {
      assert (a + b)[1..] == a[1..] + b;
      BytesJoin(a[1..], b);
    }
  }

  lemma StepOfWalk(e: Encoding, segs: seq<Segment>, i: nat)
    requires i < |segs|
    ensures Bytes(segs[..i + 1]) == Bytes(segs[..i]) + segs[i].text
    ensures |View(e, segs[..i + 1])| == |View(e, segs[..i])| + |Decode(e, segs[i].text)|
  {
    hide View;
    assert segs[..i + 1] == segs[..i] + [segs[i]];
    BytesJoin(segs[..i], [segs[i]]);
    ViewJoin(e, segs[..i], [segs[i]]);
    StartOfWalk(e, segs[i..]);
    assert segs[i..][..1] == [segs[i]];
  }

  lemma StepBack(e: Encoding, segs: seq<Segment>, i: nat)
    requires i < |segs|
    ensures Bytes(segs[i..]) == segs[i].text + Bytes(segs[i + 1..])
    ensures |View(e, segs[i..])| == |Decode(e, segs[i].text)| + |View(e, segs[i + 1..])|
  {
    assert segs[i..][1..] == segs[i + 1..];
  }

  /** Walking backwards visits every segment exactly once and in the opposite order; the texts, put in
      front of each other, make up the text of the chunk, and the lengths add up to its length. */
  method WalkBackwards(chunk: Chunk) returns (text: seq<Byte>, total: nat, ghost visited: seq<nat>)
    requires chunk.Valid()
    ensures visited == Downwards(|chunk.segments|)
    ensures text == Bytes(chunk.segments) == Encode(Symbols(chunk.Contents())) && total == chunk.length
  {
    hide View, Canonical, Cells, Encode, Symbols;
    ghost var e, segs := chunk.encoding, chunk.segments;
    BytesAreEncoded(e, segs);
    text, total, visited := [], 0, [];
    var iter := new Iter();
    var moved := iter.InitEnd(chunk);
    EmptyWalk(e, segs);
    while moved
      invariant chunk.Valid() && chunk.segments == segs && (moved ==> iter.Valid() && iter.chunk == chunk)
      invariant |visited| <= |segs| && forall i :: 0 <= i < |visited| ==> visited[i] == |segs| - 1 - i
      invariant if moved then iter.first == |segs| - 1 - |visited| else |visited| == |segs|
      invariant text == Bytes(segs[|segs| - |visited|..]) && total == |View(e, segs[|segs| - |visited|..])|
      decreases |segs| - |visited|, moved
    {
      var piece := iter.GetText();
      var count := iter.GetLength();
      StepBack(e, segs, iter.first);
      text := piece + text;
      total := total + count;
      visited := visited + [iter.first];
      moved := iter.Prev();
    }
    assert segs[0..] == segs;
  }
}
