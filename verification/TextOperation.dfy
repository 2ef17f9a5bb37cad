/** The insert and delete operations as objects that hold a chunk.  Their methods do what the
    functions on operation values say. */
module TextOperations {
  import opened Ropes
  import opened TextChunk
  import opened TextBuffer
  import opened Operations

  class DefaultInsert {
    const position: nat
    const chunk: Chunk

    ghost predicate Valid()
      reads chunk
    {
      chunk.Valid()
    }

    ghost function Model(): Operation
      reads chunk
    {
      Insert(position, chunk.Contents())
    }

    /** The operation holds a copy of the chunk it is given. */
    constructor (position: nat, text: Chunk)
      requires text.Valid()
      ensures Valid() && fresh(chunk) && chunk.encoding == text.encoding
      ensures Model() == Insert(position, text.Contents())
    {
      var copy := text.Copy();
      this.position := position;
      this.chunk := copy;
    }

    /** Fails, without changing anything, if the position is behind the end of the document. */
    method ApplyTo(buffer: Buffer) returns (ok: bool)
      requires Valid() && buffer.Valid() && buffer.chunk != chunk && buffer.chunk.encoding == chunk.encoding
      modifies buffer, buffer.chunk
      ensures buffer.Valid()
      ensures Outcome(ok, buffer.Contents()) == Apply(Model(), old(buffer.Contents()))
      ensures buffer.modified == (ok || old(buffer.modified))
      ensures buffer.log == old(buffer.log) + if ok then [Model()] else []
    {
      var length := buffer.GetLength();
      if position > length {
        return false;
      }
      buffer.InsertText(position, chunk);
      return true;
    }

    method MakeReverse() returns (reverse: DefaultDelete)
      requires Valid()
      ensures fresh(reverse) && fresh(reverse.chunk) && reverse.Valid() && reverse.Model() == Revert(Model())
      ensures reverse.chunk.encoding == chunk.encoding
    {
      reverse := new DefaultDelete(position, chunk);
    }

    method TransformPosition(position: nat) returns (r: DefaultInsert)
      requires Valid()
      ensures fresh(r) && fresh(r.chunk) && r.Valid() && r.Model() == At(Model(), position)
      ensures r.chunk.encoding == chunk.encoding
    {
      r := new DefaultInsert(position, chunk);
    }

    method TransformInsert(against: DefaultInsert, opLcs: DefaultInsert, agLcs: DefaultInsert, cid: Cid)
      returns (r: DefaultInsert)
      requires Valid() && against.Valid() && opLcs.Valid() && agLcs.Valid()
      ensures fresh(r) && fresh(r.chunk) && r.Valid() && r.chunk.encoding == chunk.encoding
      ensures r.Model() == InsertInsert(Model(), against.Model(), opLcs.Model(), agLcs.Model(), cid)
    {
      if position < against.position {
        r := new DefaultInsert(position, chunk);
      } else if position > against.position {
        r := TransformPosition(position + against.chunk.length);
      } else if opLcs.position < agLcs.position || (opLcs.position == agLcs.position && cid == Other) {
        r := new DefaultInsert(position, chunk);
      } else {
        r := TransformPosition(position + against.chunk.length);
      }
    }

    method TransformDelete(against: DefaultDelete) returns (r: DefaultInsert)
      requires Valid() && against.Valid()
      ensures fresh(r) && r.Valid() && r.Model() == InsertDelete(Model(), against.Model())
      ensures fresh(r.chunk) && r.chunk.encoding == chunk.encoding
    {
      var length := against.chunk.length;
      if position >= against.position + length {
        r := TransformPosition(position - length);
      } else if position < against.position {
        r := new DefaultInsert(position, chunk);
      } else {
        r := TransformPosition(against.position);
      }
    }
  }

  class DefaultDelete {
    const position: nat
    const chunk: Chunk

    ghost predicate Valid()
      reads chunk
    {
      chunk.Valid()
    }

    ghost function Model(): Operation
      reads chunk
    {
      Delete(position, chunk.Contents())
    }

    constructor (position: nat, text: Chunk)
      requires text.Valid()
      ensures Valid() && fresh(chunk) && chunk.encoding == text.encoding
      ensures Model() == Delete(position, text.Contents())
    {
      var copy := text.Copy();
      this.position := position;
      this.chunk := copy;
    }

    /** Fails, without changing anything, if the range reaches behind the end of the document.  What
        is announced is the text of the document, whatever text the operation carries. */
    method ApplyTo(buffer: Buffer) returns (ok: bool)
      requires Valid() && buffer.Valid() && buffer.chunk != chunk
      modifies buffer, buffer.chunk
      ensures buffer.Valid()
      ensures Outcome(ok, buffer.Contents()) == Apply(Model(), old(buffer.Contents()))
      ensures buffer.modified == (ok || old(buffer.modified))
      ensures buffer.log == old(buffer.log) + if !ok then [] else
        [Delete(position, old(buffer.Contents())[position..position + chunk.length])]
    {
      hide View, Canonical, Replay, Replayable;
      var length := buffer.GetLength();
      if position + chunk.length > length {
        return false;
      }
      buffer.EraseText(position, chunk.length);
      return true;
    }

    method MakeReverse() returns (reverse: DefaultInsert)
      requires Valid()
      ensures fresh(reverse) && fresh(reverse.chunk) && reverse.Valid() && reverse.Model() == Revert(Model())
      ensures reverse.chunk.encoding == chunk.encoding
    {
      reverse := new DefaultInsert(position, chunk);
    }

    method TransformPosition(position: nat) returns (r: DefaultDelete)
      requires Valid()
      ensures fresh(r) && fresh(r.chunk) && r.Valid() && r.Model() == At(Model(), position)
      ensures r.chunk.encoding == chunk.encoding
    {
      r := new DefaultDelete(position, chunk);
    }

    /** The operation without the `length` characters from `begin` on of its own chunk. */
    method TransformOverlap(position: nat, begin: nat, length: nat) returns (r: DefaultDelete)
      requires Valid() && begin + length <= chunk.length
      ensures fresh(r) && r.Valid() && r.Model() == Overlap(Model(), position, begin, length)
      ensures fresh(r.chunk) && r.chunk.encoding == chunk.encoding
    {
      hide View, Canonical;
      var copy := chunk.Copy();
      assert copy.Contents() == chunk.Contents();
      copy.Erase(begin, length);
      r := new DefaultDelete(position, copy);
    }

    method TransformSplit(splitPos: nat, splitLen: nat) returns (first: DefaultDelete, second: DefaultDelete)
      requires Valid() && splitPos <= chunk.length
      ensures fresh(first) && fresh(second) && first.Valid() && second.Valid()
      ensures fresh(first.chunk) && fresh(second.chunk)
      ensures first.chunk.encoding == second.chunk.encoding == chunk.encoding
      ensures Operation.Split(first.Model(), second.Model()) == SplitDelete(Model(), splitPos, splitLen)
    {
      hide View, Canonical;
      var firstChunk := chunk.Substring(0, splitPos);
      var secondChunk := chunk.Substring(splitPos, chunk.length - splitPos);
      ghost var v := chunk.Contents();
      assert v[0..splitPos] == v[..splitPos] && v[splitPos..splitPos + (chunk.length - splitPos)] == v[splitPos..];
      first := new DefaultDelete(position, firstChunk);
      second := new DefaultDelete(position + splitLen, secondChunk);
    }

    /** Without a second operation the result is not split. */
    method TransformInsert(against: DefaultInsert) returns (first: DefaultDelete, second: DefaultDelete?)
      requires Valid() && against.Valid()
      ensures fresh(first) && first.Valid() && (second != null ==> fresh(second) && second.Valid())
      ensures (if second == null then first.Model() else Operation.Split(first.Model(), second.Model()))
        == DeleteInsert(Model(), against.Model())
      ensures fresh(first.chunk) && first.chunk.encoding == chunk.encoding
      ensures second != null ==> fresh(second.chunk) && second.chunk.encoding == chunk.encoding
    {
      hide View, Canonical;
      second := null;
      if against.position >= position + chunk.length {
        first := new DefaultDelete(position, chunk);
      } else if against.position <= position {
        first := TransformPosition(position + against.chunk.length);
      } else {
        first, second := TransformSplit(against.position - position, against.chunk.length);
      }
    }

    method TransformDelete(against: DefaultDelete) returns (r: DefaultDelete)
      requires Valid() && against.Valid()
      ensures fresh(r) && r.Valid() && r.Model() == DeleteDelete(Model(), against.Model())
      ensures fresh(r.chunk) && r.chunk.encoding == chunk.encoding
    {
      hide View, Canonical;
      var ownEnd, otherEnd := position + chunk.length, against.position + against.chunk.length;
      if ownEnd <= against.position {
        r := new DefaultDelete(position, chunk);
      } else if position >= otherEnd {
        r := TransformPosition(position - against.chunk.length);
      } else if against.position <= position && otherEnd >= ownEnd {
        r := TransformOverlap(against.position, 0, chunk.length);
      } else if against.position <= position && otherEnd < ownEnd {
        r := TransformOverlap(against.position, 0, otherEnd - position);
      } else if against.position > position && otherEnd >= ownEnd {
        r := TransformOverlap(position, against.position - position, ownEnd - against.position);
      } else {
        r := TransformOverlap(position, against.position - position, against.chunk.length);
      }
    }
  }
}
