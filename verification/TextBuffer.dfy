/** `InfTextDefaultBuffer`: a chunk whose changes are announced.  The announcements are recorded in a
    log of operations. */
module TextBuffer {
  import opened Encodings
  import opened Ropes
  import opened Cuts
  import opened TextChunk
  import opened Operations
  import opened Undo

  /** The text that results from performing the logged operations, beginning with no text. */
  ghost function Replay(log: seq<Operation>): seq<Cell> {
    if log == [] then [] else Apply(log[|log| - 1], Replay(log[..|log| - 1])).doc
  }

  /** Each logged operation could be performed in its turn, and carries the text it deletes. */
  ghost predicate Replayable(log: seq<Operation>) {
    log == [] || (
      && Replayable(log[..|log| - 1])
      && Faithful(log[|log| - 1], Replay(log[..|log| - 1])))
  }

  /** The text that results from reverting the logged operations, the last one first. */
  ghost function Unwound(log: seq<Operation>, v: seq<Cell>): seq<Cell> {
    if log == [] then v else Unwound(log[..|log| - 1], Apply(Revert(log[|log| - 1]), v).doc)
  }

  /** Reverting everything leads back to no text. */
  lemma {:induction false} UnwindsToNothing(log: seq<Operation>)
    requires Replayable(log)
    ensures Unwound(log, Replay(log)) == []
  {
    if log != [] {
      var init, last := log[..|log| - 1], log[|log| - 1];
      RevertRestores(last, Replay(init));
      UnwindsToNothing(init);
    }
  }

  lemma ReplayNext(log: seq<Operation>, op: Operation)
    ensures Replay(log + [op]) == Apply(op, Replay(log)).doc
    ensures Replayable(log + [op]) <==> Replayable(log) && Faithful(op, Replay(log))
  {
    assert (log + [op])[..|log|] == log;
  }

  class Buffer {
    const chunk: Chunk
    var modified: bool
    ghost var log: seq<Operation>

    ghost predicate Valid()
      reads this, chunk
    {
      chunk.Valid() && Replayable(log) && Replay(log) == chunk.Contents()
    }

    ghost function Contents(): seq<Cell>
      reads chunk
    {
      chunk.Contents()
    }

    constructor (encoding: Encoding)
      ensures Valid() && fresh(chunk) && chunk.encoding == encoding
      ensures Contents() == [] && log == [] && !modified
    {
      chunk := new Chunk(encoding);
      modified := false;
      log := [];
    }

    method GetLength() returns (length: nat)
      requires Valid()
      ensures length == |Contents()|
    {
      length := chunk.length;
    }

    method GetSlice(pos: nat, len: nat) returns (slice: Chunk)
      requires Valid() && pos + len <= |Contents()|
      ensures fresh(slice) && slice.Valid() && slice.encoding == chunk.encoding
      ensures slice.Contents() == Contents()[pos..pos + len]
    {
      slice := chunk.Substring(pos, len);
    }

    /** Inserts a chunk and announces it. */
    method InsertText(pos: nat, text: Chunk)
      requires Valid() && text.Valid() && text != chunk && text.encoding == chunk.encoding
      requires pos <= |Contents()|
      modifies this, chunk
      ensures Valid() && modified
      ensures Contents() == Inserted(old(Contents()), pos, text.Contents())
      ensures log == old(log) + [Insert(pos, text.Contents())]
    {
      hide View, Canonical, Replay, Replayable;
      ReplayNext(log, Insert(pos, text.Contents()));
      chunk.InsertChunk(pos, text);
      log := log + [Insert(pos, text.Contents())];
      if !modified {
        modified := true;
      }
    }

    /** Erases a range and announces the text that was there. */
    method EraseText(pos: nat, len: nat)
      requires Valid() && pos + len <= |Contents()|
      modifies this, chunk
      ensures Valid() && modified
      ensures Contents() == Erased(old(Contents()), pos, len)
      ensures log == old(log) + [Delete(pos, old(Contents())[pos..pos + len])]
    {
      hide View, Canonical, Replay, Replayable;
      var slice := chunk.Substring(pos, len);
      chunk.Erase(pos, len);
      ReplayNext(log, Delete(pos, slice.Contents()));
      log := log + [Delete(pos, slice.Contents())];
      if !modified {
        modified := true;
      }
    }
  }
}
