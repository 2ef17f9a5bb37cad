/** Editing operations on a text and their transformation against each other.

    Operations are values; the chunk of an operation is given by the authored characters it holds. */
module Operations {
  import opened Ropes
  import opened Cuts

  /** Which of two operations gives way if nothing else decides it. */
  datatype Cid = Self | Other {
    function Flip(): Cid {
      if this == Self then Other else Self
    }
  }

  /** Insertion or deletion of a text, or two operations one after the other. */
  datatype Operation =
    | Insert(pos: nat, text: seq<Cell>)
    | Delete(pos: nat, text: seq<Cell>)
    | Split(first: Operation, second: Operation)
  {
    /** The number of insertions in the operation. */
    function Inserts(): nat {
      match this
      case Insert(_, _) => 1
      case Delete(_, _) => 0
      case Split(first, second) => first.Inserts() + second.Inserts()
    }

    /** The number of operations that are not split. */
    function Leaves(): (n: nat)
      ensures n >= 1
    {
      match this
      case Split(first, second) => first.Leaves() + second.Leaves()
      case _ => 1
    }

    function Position(): nat {
      if Split? then 0 else pos
    }
  }

  // ---------- Application ----------

  /** Whether the operation could be applied, and the document afterwards. */
  datatype Outcome = Outcome(ok: bool, doc: seq<Cell>)

  function Apply(op: Operation, doc: seq<Cell>): Outcome {
    match op
    case Insert(pos, text) =>
      if pos > |doc| then Outcome(false, doc) else Outcome(true, Inserted(doc, pos, text))
    case Delete(pos, text) =>
      if pos + |text| > |doc| then Outcome(false, doc) else Outcome(true, Erased(doc, pos, |text|))
    case Split(first, second) =>
      var o := Apply(first, doc);
      if o.ok then Apply(second, o.doc) else o
  }

  /** The operation that undoes `op`. */
  function Revert(op: Operation): Operation {
    match op
    case Insert(pos, text) => Delete(pos, text)
    case Delete(pos, text) => Insert(pos, text)
    case Split(first, second) => Split(Revert(second), Revert(first))
  }

  // ---------- Transformation of a single operation ----------

  /** The operation at another position. */
  function At(op: Operation, pos: nat): (r: Operation)
    requires !op.Split?
  {
    if op.Insert? then Insert(pos, op.text) else Delete(pos, op.text)
  }

  /** The part of the deletion that is left when `length` characters from `begin` on are gone. */
  function Overlap(op: Operation, pos: nat, begin: nat, length: nat): Operation
    requires op.Delete? && begin + length <= |op.text|
  {
    Delete(pos, Erased(op.text, begin, length))
  }

  /** The deletion around `splitLen` characters inserted `splitPos` characters behind its start. */
  function SplitDelete(op: Operation, splitPos: nat, splitLen: nat): Operation
    requires op.Delete? && splitPos <= |op.text|
  {
    Split(Delete(op.pos, op.text[..splitPos]), Delete(op.pos + splitLen, op.text[splitPos..]))
  }

  function InsertInsert(op: Operation, against: Operation, opLcs: Operation, agLcs: Operation, cid: Cid): Operation
    requires op.Insert? && against.Insert?
  {
    if op.pos < against.pos then op
    else if op.pos > against.pos then At(op, op.pos + |against.text|)
    else if opLcs.Position() < agLcs.Position() || (opLcs.Position() == agLcs.Position() && cid == Other) then op
    else At(op, op.pos + |against.text|)
  }

  function InsertDelete(op: Operation, against: Operation): Operation
    requires op.Insert? && against.Delete?
  {
    if op.pos >= against.pos + |against.text| then At(op, op.pos - |against.text|)
    else if op.pos < against.pos then op
    else At(op, against.pos)
  }

  function DeleteInsert(op: Operation, against: Operation): Operation
    requires op.Delete? && against.Insert?
  {
    if against.pos >= op.pos + |op.text| then op
    else if against.pos <= op.pos then At(op, op.pos + |against.text|)
    else SplitDelete(op, against.pos - op.pos, |against.text|)
  }

  function DeleteDelete(op: Operation, against: Operation): Operation
    requires op.Delete? && against.Delete?
  {
    var ownEnd, otherEnd := op.pos + |op.text|, against.pos + |against.text|;
    if ownEnd <= against.pos then op
    else if op.pos >= otherEnd then At(op, op.pos - |against.text|)
    else if against.pos <= op.pos && otherEnd >= ownEnd then
      Overlap(op, against.pos, 0, |op.text|)
    else if against.pos <= op.pos && otherEnd < ownEnd then
      Overlap(op, against.pos, 0, otherEnd - op.pos)
    else if against.pos > op.pos && otherEnd >= ownEnd then
      Overlap(op, op.pos, against.pos - op.pos, ownEnd - against.pos)
    else
      Overlap(op, op.pos, against.pos - op.pos, |against.text|)
  }

  // ---------- Transformation ----------

  /** `op` with the effect of `against` included.  `opLcs` and `agLcs` are the two operations at an
      earlier state, where their order may still be visible.

      The recursion ends although a deletion can be split by each insertion it meets: insertions are
      never split, and without insertions nothing grows. */
  function Transform(op: Operation, against: Operation, opLcs: Operation, agLcs: Operation, cid: Cid): (r: Operation)
    ensures r.Inserts() == op.Inserts()
    ensures against.Inserts() == 0 ==> r.Leaves() == op.Leaves()
    decreases opLcs.Inserts() + agLcs.Inserts(), opLcs.Leaves() + agLcs.Leaves(),
              op.Inserts() + against.Inserts(), op.Leaves() + against.Leaves()
  {
    if against.Split? then
      if agLcs.Split? then
        var tmpLcs := Transform(opLcs, agLcs.first, opLcs, agLcs.first, cid);
        var tmp := Transform(op, against.first, opLcs, agLcs.first, cid);
        Transform(tmp, against.second, tmpLcs, agLcs.second, cid)
      else
        var tmp := Transform(op, against.first, opLcs, agLcs, cid);
        Transform(tmp, against.second, opLcs, agLcs, cid)
    else if op.Split? then
      if opLcs.Split? then
        var newAgLcs := Transform(agLcs, opLcs.first, agLcs, opLcs.first, cid.Flip());
        var newFirst := Transform(op.first, against, opLcs.first, agLcs, cid);
        var newAgainst := Transform(against, op.first, agLcs, opLcs.first, cid.Flip());
        var newSecond := Transform(op.second, newAgainst, opLcs.second, newAgLcs, cid);
        Split(newFirst, newSecond)
      else
        var newFirst := Transform(op.first, against, opLcs, agLcs, cid);
        var newAgainst := Transform(against, op.first, agLcs, opLcs, cid.Flip());
        var newSecond := Transform(op.second, newAgainst, opLcs, agLcs, cid);
        Split(newFirst, newSecond)
    else if op.Insert? then
      if against.Insert? then InsertInsert(op, against, opLcs, agLcs, cid) else InsertDelete(op, against)
    else
      if against.Insert? then DeleteInsert(op, against) else DeleteDelete(op, against)
  }

  /** Transformation of two operations that were made in the same state. */
  function Against(op: Operation, against: Operation, cid: Cid): Operation {
    Transform(op, against, op, against, cid)
  }
}
