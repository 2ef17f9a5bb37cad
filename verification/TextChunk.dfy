/** `InfTextChunk`: text by several authors, kept as a sequence of segments that the operations
    change in place. */
module TextChunk {
  import opened Encodings
  import opened Ropes
  import opened Cuts
  import opened Grafts
  import opened Slices

  class Chunk {
    const encoding: Encoding
    var segments: seq<Segment>
    var length: nat  // in characters

    /** The authored characters of the chunk. */
    ghost function Contents(): seq<Cell>
      reads this
    {
      View(encoding, segments)
    }

    ghost predicate Valid()
      reads this
    {
      Canonical(encoding, segments, 0) && length == |Contents()|
    }

    constructor (encoding: Encoding)
      ensures Valid() && segments == [] && Contents() == [] && this.encoding == encoding
    {
      this.encoding := encoding;
      segments := [];
      length := 0;
    }

    /** The character position at which the segment after `iter` starts. */
    method NextOffset(iter: nat) returns (offset: nat)
      requires Valid() && iter < |segments|
      ensures offset == segments[iter].offset + |Decode(encoding, segments[iter].text)|
    {
      SegmentAt(encoding, segments, 0, iter);
      if iter + 1 == |segments| {
        assert segments[iter + 1..] == [];
        offset := length;
      } else {
        assert segments[iter + 1..] != [];
        offset := segments[iter + 1].offset;
      }
    }

    /** The first segment that starts behind character `pos`, as found by the sequence search with
        the comparison function that sorts equal offsets in front. */
    method Search(pos: nat) returns (iter: nat)
      ensures iter <= |segments|
      ensures forall i :: 0 <= i < iter ==> segments[i].offset <= pos
      ensures iter < |segments| ==> pos < segments[iter].offset
    {
      iter := 0;
      while iter < |segments| && segments[iter].offset <= pos
        invariant iter <= |segments|
        invariant forall i :: 0 <= i < iter ==> segments[i].offset <= pos
      {
        iter := iter + 1;
      }
    }

    /** The segment and the byte in it at which character `pos` starts. */
    method GetSegment(pos: nat) returns (iter: nat, index: nat)
      requires Valid() && pos <= length
      ensures length == 0 ==> iter == 0 && index == 0
      ensures length > 0 ==> Located(encoding, segments, pos, iter, index)
    {
      iter := Search(pos);
      index := 0;
      if length > 0 {
        assert segments[0].offset == 0;
        iter := iter - 1;
        var found := segments[iter];
        SegmentAt(encoding, segments, 0, iter);
        var next := NextOffset(iter);
        if pos == next {
          index := |found.text|;
          CellsCut(encoding, found.author, found.text, pos - found.offset);
        } else {
          index := GetByteIndex(encoding, found.text, pos - found.offset);
        }
      }
    }

    /** Moves all segments from `from` on by `delta` characters. */
    method AdjustOffsets(from: nat, delta: int)
      requires from <= |segments|
      requires Movable(segments[from..], delta)
      modifies this`segments
      ensures segments == old(segments)[..from] + Shift(old(segments)[from..], delta)
    {
      ghost var was := segments;
      var iter := from;
      while iter < |segments|
        invariant from <= iter <= |segments| == |was|
        invariant forall i :: 0 <= i < from ==> segments[i] == was[i]
        invariant forall i :: from <= i < iter ==> segments[i] == Moved(was[i], delta)
        invariant forall i :: iter <= i < |was| ==> segments[i] == was[i]
      {
        var segment := segments[iter];
        assert segment == was[from..][iter - from];
        segments := segments[iter := segment.(offset := segment.offset + delta)];
        iter := iter + 1;
      }
      assert segments == was[..from] + Shift(was[from..], delta);
    }

    /** Splits a segment; its second half starts at `offset`. */
    method SplitSegment(offset: nat, iter: nat, index: nat)
      requires iter < |segments| && index <= |segments[iter].text|
      modifies this`segments
      ensures segments == SplitAt(old(segments), offset, iter, index)
    {
      var segment := segments[iter];
      var newSegment := Segment(segment.author, segment.text[index..], offset);
      segments := segments[..iter + 1] + [newSegment] + segments[iter + 1..];
      segments := segments[iter := segment.(text := segment.text[..index])];
    }

    /** The part of `InsertText` for a cut next to no text of the same author: a new segment, between
        the halves of a segment if need be.  Returns the first segment behind it. */
    method InsertSegment(newSegment: Segment, cut: nat, index: nat, count: nat) returns (iter: nat)
      requires Valid() && cut < |segments| && index <= |segments[cut].text|
      requires CutAt(encoding, segments, newSegment.offset, cut, index)
      requires segments[cut].author != newSegment.author
      requires index == 0 ==> cut == 0
      requires index == |segments[cut].text| && cut + 1 < |segments| ==>
        segments[cut + 1].author != newSegment.author
      requires WellFormed(encoding, newSegment.text) && count == |Decode(encoding, newSegment.text)|
      modifies this`segments
      ensures iter <= |segments|
      ensures Spliced(encoding, old(Contents()), newSegment.offset, newSegment.author, newSegment.text,
                      segments[..iter] + Shift(segments[iter..], count))
    {
      hide View, Canonical, Cells, WellFormed, Neighbour, SplitAt, CutAt, Spliced;
      ghost var was := segments;
      iter := cut;
      var segment := segments[iter];
      if 0 < index < |segment.text| {
        SplitSegment(newSegment.offset, iter, index);
        iter := iter + 1;
        segments := segments[..iter] + [newSegment] + segments[iter..];
        iter := iter + 1;
        InsertInside(encoding, was, cut, index, newSegment, count, segments);
      } else {
        CutBorder(encoding, was, newSegment.offset, cut, index);
        if index == |segment.text| {
          iter := iter + 1;
        }
        segments := segments[..iter] + [newSegment] + segments[iter..];
        iter := iter + 1;
        InsertAtBorder(encoding, was, iter - 1, newSegment, count, segments);
      }
    }

    /** Inserts `count` characters by one author.  The contents are spliced whatever the text is; the
        chunk stays canonical exactly when the text is not empty or has a neighbour by its author. */
    method InsertText(offset: nat, text: seq<Byte>, count: nat, author: nat)
      requires Valid() && offset <= length
      requires WellFormed(encoding, text) && count == |Decode(encoding, text)|
      modifies this`segments, this`length
      ensures Contents() == Inserted(old(Contents()), offset, Cells(encoding, author, text))
      ensures length == |Contents()|
      ensures Valid() <==> text != [] || Neighbour(old(Contents()), offset, author)
    {
      hide View, Canonical, Cells, WellFormed, Neighbour, CutAt, Located, Shift, Inserted;
      ghost var was := segments;
      if length > 0 {
        var iter, index := GetSegment(offset);
        LocatedIsCut(encoding, was, offset, iter, index);
        var segment := segments[iter];
        if segment.author != author && offset > 0 && index == 0 {
          CutBefore(encoding, was, offset, iter);
          iter := iter - 1;
          segment := segments[iter];
          index := |segment.text|;
        }
        if segment.author != author {
          iter := InsertSegment(Segment(author, text, offset), iter, index, count);
        } else {
          segments := segments[iter := segment.(text := segment.text[..index] + text + segment.text[index..])];
          InsertMerged(encoding, was, offset, iter, index, text, count, segments);
          iter := iter + 1;
        }
        AdjustOffsets(iter, count);
        length := length + count;
      } else {
        var newSegment := Segment(author, text, 0);
        EmptyLength(encoding, was);
        InsertFirst(encoding, newSegment);
        segments := segments + [newSegment];
        length := count;
        assert segments == [newSegment];
      }
    }

    /** Copies the segments `first` to `last` of another chunk in front of segment `iter`. */
    method CopySegments(from: seq<Segment>, first: nat, last: nat, iter: nat, offset: nat)
      requires first <= last <= |from| && iter <= |segments|
      modifies this`segments
      ensures segments == old(segments)[..iter] + Shift(from[first..last], offset) + old(segments)[iter..]
    {
      ghost var was := segments;
      var textIter, at := first, iter;
      while textIter != last
        invariant first <= textIter <= last && at == iter + (textIter - first) <= |segments|
        invariant segments[..at] == was[..iter] + Shift(from[first..textIter], offset)
        invariant segments[at..] == was[iter..]
      {
        var segment := from[textIter];
        var newSegment := segment.(offset := offset + segment.offset);
        assert Shift(from[first..textIter + 1], offset) == Shift(from[first..textIter], offset) + [newSegment];
        ghost var head, tail := segments[..at], segments[at..];
        segments := segments[..at] + [newSegment] + segments[at..];
        at := at + 1;
        assert segments[..at] == head + [newSegment] && segments[at..] == tail;
        textIter := textIter + 1;
      }
      assert segments == segments[..at] + segments[at..];
    }

    /** The part of `InsertChunk` for a gap between two segments or at an end of the chunk: merges the
        outermost inserted segments into the segments next to the gap where the authors match. */
    method MergeAround(offset: nat, text: Chunk, firstMerge: nat, lastMerge: nat, index: nat)
      returns (iter: nat, beyond: nat, firstIter: nat, lastIter: nat)
      requires Valid() && text.Valid() && text != this && text.encoding == encoding
      requires offset <= length && 0 < length && |text.segments| > 1
      requires firstMerge < |segments| && lastMerge < |segments|
      requires index == if offset == 0 then 0 else |segments[firstMerge].text|
      requires offset > 0 ==> index > 0 && CutAt(encoding, segments, offset, firstMerge, index)
      requires offset < length ==> CutAt(encoding, segments, offset, lastMerge, 0)
      requires if offset == 0 then firstMerge == lastMerge == 0
        else if offset == length then firstMerge == lastMerge == |segments| - 1
        else lastMerge == firstMerge + 1
      modifies this`segments
      ensures Ready(encoding, old(Contents()), offset, text.segments, segments, iter, beyond, firstIter, lastIter)
    {
      hide View, Canonical, CutAt, Ready;
      ghost var was, t := segments, text.segments;
      var first, last := text.segments[0], text.segments[|text.segments| - 1];
      iter, beyond := firstMerge, lastMerge;
      firstIter, lastIter := 0, |text.segments| - 1;
      if segments[firstMerge].author == first.author && offset > 0 {
        var segment := segments[firstMerge];
        segments := segments[firstMerge := segment.(text := segment.text + first.text)];
        firstIter := 1;
      }
      if segments[lastMerge].author == last.author && offset < length {
        var segment := segments[lastMerge];
        segments := segments[lastMerge := segment.(text := last.text + segment.text, offset := offset + last.offset)];
        beyond := beyond + 1;
      } else {
        lastIter := lastIter + 1;
        if index > 0 {
          beyond := iter + 1;
        }
      }
      if index > 0 {
        iter := iter + 1;
      }
      MergedReady(encoding, was, offset, firstMerge, lastMerge, t, segments, iter, beyond, firstIter, lastIter);
    }

    /** The part of `InsertChunk` for a gap inside a segment: splits it, and merges the outermost
        inserted segments into the two halves where the authors match. */
    method SplitAround(offset: nat, text: Chunk, merge: nat, index: nat)
      returns (iter: nat, beyond: nat, firstIter: nat, lastIter: nat)
      requires Valid() && text.Valid() && text != this && text.encoding == encoding
      requires |text.segments| > 1 && merge < |segments|
      requires CutAt(encoding, segments, offset, merge, index) && 0 < index < |segments[merge].text|
      modifies this`segments
      ensures Ready(encoding, old(Contents()), offset, text.segments, segments, iter, beyond, firstIter, lastIter)
    {
      hide View, Canonical, CutAt, LeftReady, RightReady, Ready;
      ghost var was := segments;
      var first, last := text.segments[0], text.segments[|text.segments| - 1];
      var segment := segments[merge];
      firstIter, lastIter := 0, |text.segments| - 1;
      var newSegment;
      if segment.author == last.author {
        newSegment := Segment(segment.author, last.text + segment.text[index..], offset + last.offset);
      } else {
        newSegment := Segment(segment.author, segment.text[index..], offset + text.length);
        lastIter := lastIter + 1;
      }
      iter := merge + 1;
      segments := segments[..iter] + [newSegment] + segments[iter..];
      beyond := iter + 1;
      if segment.author == first.author {
        segments := segments[merge := segment.(text := segment.text[..index] + first.text)];
        firstIter := 1;
      } else {
        segments := segments[merge := segment.(text := segment.text[..index])];
        assert segment.text[..index] + [] == segment.text[..index];
      }
      GraftSplit(encoding, was, offset, merge, index, text.segments, firstIter, lastIter, segments);
    }

    /** Inserts another chunk of the same encoding. */
    method InsertChunk(offset: nat, text: Chunk)
      requires Valid() && text.Valid() && text != this
      requires offset <= length && encoding == text.encoding
      modifies this`segments, this`length
      ensures Valid() && Contents() == Inserted(old(Contents()), offset, text.Contents())
    {
      hide View, Canonical, CutAt, Located, Ready, Neighbour, Cells;
      ghost var was, v, t := segments, Contents(), text.segments;
      EmptyView(encoding);
      if length > 0 && text.length > 0 {
        if |text.segments| == 1 {
          var segment := text.segments[0];
          assert text.segments == [segment];
          OnlySegment(encoding, segment);
          InsertText(offset, segment.text, text.length, segment.author);
        } else {
          var iter, index := GetSegment(offset);
          LocatedIsCut(encoding, was, offset, iter, index);
          var firstMerge, lastMerge := iter, iter;
          if index == 0 && offset > 0 {
            CutBefore(encoding, was, offset, iter);
            firstMerge := iter - 1;
            index := |segments[firstMerge].text|;
          }
          var beyond, firstIter, lastIter;
          if offset == 0 || offset == length || firstMerge != lastMerge {
            iter, beyond, firstIter, lastIter := MergeAround(offset, text, firstMerge, lastMerge, index);
          } else {
            iter, beyond, firstIter, lastIter := SplitAround(offset, text, firstMerge, index);
          }
          ghost var ready, from := segments, beyond;
          ReadyBounds(encoding, v, offset, t, ready, iter, from, firstIter, lastIter);
          CopySegments(text.segments, firstIter, lastIter, iter, offset);
          beyond := beyond + (lastIter - firstIter);
          Finished(encoding, v, offset, t, ready, iter, from, firstIter, lastIter, segments, beyond);
          AdjustOffsets(beyond, text.length);
          length := length + text.length;
        }
      } else {
        CopySegments(text.segments, 0, |text.segments|, |segments|, 0);
        length := length + text.length;
        assert t[0..|t|] == t && was[..|was|] == was && was[|was|..] == [];
        GraftEmpty(encoding, was, offset, t, segments);
      }
    }

    /** Removes the segments from `first` to before `last`; nothing if there are none. */
    method RemoveRange(first: nat, last: nat)
      requires last <= |segments|
      modifies this`segments
      ensures segments == WithoutRange(old(segments), first, last)
    {
      if first < last {
        segments := segments[..first] + segments[last..];
      }
    }

    /** The part of `Erase` for a range with text on both sides: cuts the border segments, or joins
        them if they have one author.  Returns the range of segments to remove and the first segment
        behind it whose offset is still to be adjusted. */
    method EraseInside(begin: nat, count: nat, iter: nat, index: nat, lastIter: nat, lastIndex: nat)
      returns (from: nat, to: nat, beyond: nat)
      requires Valid() && count > 0 && begin > 0 && begin + count < length
      requires Located(encoding, segments, begin, iter, index)
      requires Located(encoding, segments, begin + count, lastIter, lastIndex)
      modifies this`segments
      ensures to <= |segments| && from <= beyond && to <= beyond
      ensures Hollowed(encoding, old(Contents()), begin, count, WithoutRange(segments, from, to),
                       if from < to then beyond - (to - from) else beyond)
    {
      hide View, Canonical, CutAt, Located, Hollowed, Movable;
      ghost var was := segments;
      LocatedIsCut(encoding, was, begin, iter, index);
      LocatedIsCut(encoding, was, begin + count, lastIter, lastIndex);
      LocatedInOrder(encoding, was, begin, iter, index, begin + count, lastIter, lastIndex);
      var firstIter, firstIndex := iter, index;
      to := lastIter;
      if firstIndex == 0 {
        CutBefore(encoding, was, begin, firstIter);
        firstIter := firstIter - 1;
        firstIndex := |segments[firstIter].text|;
      }
      var first, last := segments[firstIter], segments[lastIter];
      from := firstIter + 1;
      beyond := lastIter + 1;
      if first.author == last.author {
        var joined := first.(text := first.text[..firstIndex] + last.text[lastIndex..]);
        segments := segments[firstIter := joined];
        if firstIter != lastIter {
          to := lastIter + 1;
        }
        HoleMerged(encoding, was, begin, firstIter, firstIndex, count, lastIter, lastIndex, segments, to);
      } else {
        segments := segments[firstIter := first.(text := first.text[..firstIndex])];
        segments := segments[lastIter := last.(text := last.text[lastIndex..], offset := begin)];
        HoleApart(encoding, was, begin, firstIter, firstIndex, count, lastIter, lastIndex, segments);
      }
    }

    /** The part of `Erase` for a range that begins or ends with the chunk. */
    method EraseOutside(begin: nat, count: nat, firstIter: nat, firstIndex: nat, lastIter: nat, lastIndex: nat)
      returns (from: nat, to: nat, beyond: nat)
      requires Valid() && count > 0 && begin + count <= length && (begin == 0 || begin + count == length)
      requires Located(encoding, segments, begin, firstIter, firstIndex)
      requires Located(encoding, segments, begin + count, lastIter, lastIndex)
      modifies this`segments
      ensures to <= |segments| && from <= beyond && to <= beyond
      ensures Hollowed(encoding, old(Contents()), begin, count, WithoutRange(segments, from, to),
                       if from < to then beyond - (to - from) else beyond)
    {
      hide View, Canonical, CutAt, Located, Hollowed, Movable;
      ghost var was := segments;
      LocatedIsCut(encoding, was, begin, firstIter, firstIndex);
      LocatedIsCut(encoding, was, begin + count, lastIter, lastIndex);
      LocatedInOrder(encoding, was, begin, firstIter, firstIndex, begin + count, lastIter, lastIndex);
      var first, last := segments[firstIter], segments[lastIter];
      from, to := firstIter, lastIter;
      if begin == 0 && count == length {
        to := lastIter + 1;
        beyond := to;
        HoleAll(encoding, Contents(), segments);
      } else if begin == 0 {
        if lastIndex > 0 {
          segments := segments[lastIter := last.(text := last.text[lastIndex..], offset := 0)];
          beyond := lastIter + 1;
        } else {
          beyond := lastIter;
        }
        HoleFront(encoding, was, count, lastIter, lastIndex, segments);
      } else {
        if firstIndex > 0 {
          segments := segments[firstIter := first.(text := first.text[..firstIndex])];
          from := firstIter + 1;
        }
        to := lastIter + 1;
        beyond := to;
        HoleBack(encoding, was, begin, firstIter, firstIndex, segments, from);
      }
    }

    /** Removes `count` characters. */
    method Erase(begin: nat, count: nat)
      requires Valid() && begin + count <= length
      modifies this`segments, this`length
      ensures Valid() && Contents() == Erased(old(Contents()), begin, count)
    {
      hide View, Canonical, Located, Shift, Hollowed, Movable;
      ghost var v := Contents();
      if length > 0 && count > 0 {
        var firstIter, firstIndex := GetSegment(begin);
        var lastIter, lastIndex := GetSegment(begin + count);
        var from, to, beyond;
        if begin > 0 && begin + count < length {
          from, to, beyond := EraseInside(begin, count, firstIter, firstIndex, lastIter, lastIndex);
        } else {
          from, to, beyond := EraseOutside(begin, count, firstIter, firstIndex, lastIter, lastIndex);
        }
        RemoveRange(from, to);
        if from < to {
          beyond := beyond - (to - from);
        }
        HollowedFacts(encoding, v, begin, count, segments, beyond);
        AdjustOffsets(beyond, 0 - count);
      } else {
        assert v[..begin] + v[begin..] == v;
      }
      length := length - count;
    }

    /** A new chunk with the `count` characters from `begin` on. */
    method Substring(begin: nat, count: nat) returns (result: Chunk)
      requires Valid() && begin + count <= length
      ensures fresh(result) && result.Valid() && result.encoding == encoding
      ensures result.Contents() == Contents()[begin..begin + count]
    {
      hide View, Canonical, Marks, Cells, Located;
      result := new Chunk(encoding);
      ghost var v := Contents();
      if length > 0 && count > 0 {
        var beginIter: nat, beginIndex: nat := GetSegment(begin);
        var endIter, endIndex := GetSegment(begin + count);
        LocatedInOrder(encoding, segments, begin, beginIter, beginIndex, begin + count, endIter, endIndex);
        LocatedMarks(encoding, segments, begin, beginIter, beginIndex);
        LocatedMarks(encoding, segments, begin + count, endIter, endIndex);
        if endIndex == 0 {
          MarkBefore(encoding, segments, begin + count, endIter);
          endIter := endIter - 1;
          endIndex := |segments[endIter].text|;
        }
        ghost var o := begin;
        var currentLength := 0;
        var segment := segments[beginIter];
        while beginIter != endIter
          invariant beginIter <= endIter < |segments| && segment == segments[beginIter]
          invariant begin <= o < begin + count && currentLength == o - begin
          invariant segments[endIter].offset < begin + count
          invariant beginIter < endIter ==> o < segments[beginIter + 1].offset
          invariant Marks(encoding, segments, o, beginIter, beginIndex)
          invariant beginIndex <= |segment.text|
          invariant Canonical(encoding, result.segments, 0)
          invariant View(encoding, result.segments) == v[begin..o]
          invariant result.segments == []
            || result.segments[|result.segments| - 1].author != segment.author
          invariant v == Contents()
        {
          NextMark(encoding, segments, beginIter);
          OffsetsIncrease(encoding, segments, beginIter + 1, endIter);
          if beginIter + 1 < endIter {
            NextMark(encoding, segments, beginIter + 1);
          }
          ghost var q := segments[beginIter + 1].offset;
          CopyPiece(encoding, segments, beginIter, o, beginIndex, q, |segment.text|, begin, result.segments);
          var newSegment := Segment(segment.author, segment.text[beginIndex..], currentLength);
          assert segment.text[beginIndex..] == segment.text[beginIndex..|segment.text|];
          beginIter := beginIter + 1;
          segment := segments[beginIter];
          currentLength := segment.offset - begin;
          beginIndex := 0;
          result.segments := result.segments + [newSegment];
          o := q;
        }
        CopyPiece(encoding, segments, endIter, o, beginIndex, begin + count, endIndex, begin, result.segments);
        var newSegment := Segment(segment.author, segment.text[beginIndex..endIndex], currentLength);
        result.segments := result.segments + [newSegment];
        result.length := count;
      }
    }

    /** A copy that shares nothing with this chunk. */
    method Copy() returns (newChunk: Chunk)
      requires Valid()
      ensures fresh(newChunk) && newChunk.Valid() && newChunk.encoding == encoding
      ensures newChunk.segments == segments && newChunk.length == length
    {
      newChunk := new Chunk(encoding);
      var iter := 0;
      while iter != |segments|
        invariant 0 <= iter <= |segments|
        invariant newChunk.segments == segments[..iter]
      {
        var segment := segments[iter];
        newChunk.segments := newChunk.segments + [Segment(segment.author, segment.text, segment.offset)];
        iter := iter + 1;
      }
      assert segments[..iter] == segments;
      newChunk.length := length;
    }

    /** The bytes of the chunk. */
    method GetText() returns (text: seq<Byte>)
      requires Valid()
      ensures text == Bytes(segments)
      ensures text == Encode(Symbols(Contents()))
    {
      text := [];
      var iter := 0;
      while iter != |segments|
        invariant 0 <= iter <= |segments|
        invariant text + Bytes(segments[iter..]) == Bytes(segments)
      {
        text := text + segments[iter].text;
        assert segments[iter..][1..] == segments[iter + 1..];
        iter := iter + 1;
      }
      BytesAreEncoded(encoding, segments);
    }

    /** Compares two chunks segment by segment. */
    method Equal(other: Chunk) returns (result: bool)
      requires Valid() && other.Valid() && encoding == other.encoding
      ensures result <==> Texts(segments) == Texts(other.segments)
      ensures Contents() == other.Contents() ==> result
      ensures Authors(segments) == Authors(other.segments) ==> (result <==> Contents() == other.Contents())
      ensures Contents() == other.Contents() <==> result && Authors(segments) == Authors(other.segments)
    {
      TextsAndAuthors(encoding, segments, other.segments);
      hide View, Canonical;
      var iter1, iter2 := 0, 0;
      while iter1 != |segments| && iter2 != |other.segments|
        invariant 0 <= iter1 == iter2 <= |segments|
        invariant iter2 <= |other.segments|
        invariant forall i :: 0 <= i < iter1 ==> segments[i].text == other.segments[i].text
      {
        if segments[iter1].text != other.segments[iter2].text {
          assert Texts(segments)[iter1] != Texts(other.segments)[iter1];
          return false;
        }
        iter1, iter2 := iter1 + 1, iter2 + 1;
      }
      if iter1 != |segments| || iter2 != |other.segments| {
        return false;
      }
      return true;
    }
  }
}
