/** Undoing operations that were transformed at a later state than the one at which they are compared. */
module LaterUndo {
  import opened Ropes
  import opened Operations
  import opened Undo
  import opened ThreeWay
  import opened EarlierStates

  /** Transformation keeps operations faithful, wherever they are compared. */
  lemma {:induction false} FaithfulLater(op: Operation, against: Operation, opLcs: Operation, agLcs: Operation,
                                         cid: Cid, d: seq<Cell>)
    requires Matches(op, opLcs) && Matches(against, agLcs) && Faithful(op, d) && Apply(against, d).ok
    ensures Faithful(Transform(op, against, opLcs, agLcs, cid), Apply(against, d).doc)
    decreases op.Inserts() + against.Inserts(), op.Leaves() + against.Leaves()
  {
    hide Transform;
    MatchesSymmetric(op, opLcs);
    MatchesSymmetric(against, agLcs);
    if op.Inserts() == 0 || against.Inserts() == 0 {
      LcsIrrelevant(op, against, opLcs, agLcs, cid, cid);
      FaithfulAgainst(op, against, cid, d);
    } else if op.Split? {
      FaithfulParts(op, against, opLcs, agLcs, cid, d);
    } else if against.Split? {
      var tmp := Transform(op, against.first, opLcs, agLcs.first, cid);
      PassSplit(op, against, opLcs, agLcs, cid);
      BothMatch(op, against.first, opLcs, agLcs.first, cid, opLcs, agLcs.first);
      Smaller(op, against.first, opLcs, agLcs.first, cid);
      InsertStays(op, against.first, opLcs, agLcs.first, cid);
      FaithfulLater(op, against.first, opLcs, agLcs.first, cid, d);
      FaithfulLater(tmp, against.second, Advanced(opLcs, agLcs, cid), agLcs.second, cid, Apply(against.first, d).doc);
    } else {
      var tie := InsertTies(op, against, opLcs, agLcs, cid);
      FaithfulAgainst(op, against, tie, d);
    }
  }

  lemma InsertStays(op: Operation, against: Operation, opLcs: Operation, agLcs: Operation, cid: Cid)
    requires op.Insert?
    ensures Transform(op, against, opLcs, agLcs, cid).Insert?
  {
    TransformMatches(op, against, opLcs, agLcs, cid);
  }

  lemma {:induction false} FaithfulParts(op: Operation, against: Operation, opLcs: Operation, agLcs: Operation,
                                         cid: Cid, d: seq<Cell>)
    requires Matches(op, opLcs) && Matches(against, agLcs) && Faithful(op, d) && Apply(against, d).ok
    requires op.Split? && op.Inserts() > 0 && against.Inserts() > 0
    ensures Faithful(Transform(op, against, opLcs, agLcs, cid), Apply(against, d).doc)
    decreases op.Inserts() + against.Inserts(), op.Leaves() + against.Leaves(), 0
  {
    hide Transform;
    var flip := cid.Flip();
    assert flip.Flip() == cid;
    MatchesSymmetric(op, opLcs);
    var op1, op2, l1, l2 := op.first, op.second, opLcs.first, opLcs.second;
    var against' := Transform(against, op1, agLcs, l1, flip);
    SplitLcs(op, against, opLcs, agLcs, cid);
    BothMatch(against, op1, agLcs, l1, flip, agLcs, l1);
    Smaller(against, op1, agLcs, l1, flip);
    FaithfulApplies(op1, d);
    ConvergentLater(op1, against, l1, agLcs, cid, d);
    FaithfulLater(op1, against, l1, agLcs, cid, d);
    FaithfulLater(op2, against', l2, Advanced(agLcs, opLcs, flip), cid, Apply(op1, d).doc);
  }

  /** An operation can be undone after it was transformed, wherever it is compared. */
  lemma {:induction false} UndoLater(op: Operation, against: Operation, opLcs: Operation, agLcs: Operation, cid: Cid,
                                     d: seq<Cell>)
    requires Matches(op, opLcs) && Matches(against, agLcs) && Faithful(op, d) && Apply(against, d).ok
    ensures var e, t := Apply(against, d).doc, Transform(op, against, opLcs, agLcs, cid);
      && Apply(t, e).ok
      && Apply(Revert(t), Apply(t, e).doc) == Outcome(true, e)
  {
    hide Transform;
    var e, t := Apply(against, d).doc, Transform(op, against, opLcs, agLcs, cid);
    FaithfulLater(op, against, opLcs, agLcs, cid, d);
    FaithfulApplies(t, e);
    RevertRestores(t, e);
  }
}
