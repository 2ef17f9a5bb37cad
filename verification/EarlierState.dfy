/** Transformation looks at the operations at an earlier state only where two insertions meet, and
    asserts that the earlier operations are insertions, too. */
module EarlierStates {
  import opened Ropes
  import opened Operations
  import opened Convergence
  import opened ThreeWay

  /** The operations have the same shape as far as they insert. */
  predicate Matches(op: Operation, other: Operation) {
    || (op.Inserts() == 0 && other.Inserts() == 0)
    || (op.Insert? && other.Insert?)
    || (op.Split? && other.Split? && Matches(op.first, other.first) && Matches(op.second, other.second))
  }

  /** The assertion holds wherever the transformation comes to two insertions. */
  ghost predicate Asserted(op: Operation, against: Operation, opLcs: Operation, agLcs: Operation, cid: Cid)
    decreases opLcs.Inserts() + agLcs.Inserts(), opLcs.Leaves() + agLcs.Leaves(),
              op.Inserts() + against.Inserts(), op.Leaves() + against.Leaves()
  {
    if against.Split? then
      var first := if agLcs.Split? then agLcs.first else agLcs;
      var second := if agLcs.Split? then agLcs.second else agLcs;
      var tmpLcs := if agLcs.Split? then Transform(opLcs, first, opLcs, first, cid) else opLcs;
      && Asserted(op, against.first, opLcs, first, cid)
      && Asserted(Transform(op, against.first, opLcs, first, cid), against.second, tmpLcs, second, cid)
    else if op.Split? then
      var first := if opLcs.Split? then opLcs.first else opLcs;
      var second := if opLcs.Split? then opLcs.second else opLcs;
      var tmpLcs := if opLcs.Split? then Transform(agLcs, first, agLcs, first, cid.Flip()) else agLcs;
      && Asserted(op.first, against, first, agLcs, cid)
      && Asserted(against, op.first, agLcs, first, cid.Flip())
      && Asserted(op.second, Transform(against, op.first, agLcs, first, cid.Flip()), second, tmpLcs, cid)
    else
      op.Insert? && against.Insert? ==> opLcs.Insert? && agLcs.Insert?
  }

  lemma {:induction false} MatchesReflexive(op: Operation)
    ensures Matches(op, op)
  {
    if op.Split? {
      MatchesReflexive(op.first);
      MatchesReflexive(op.second);
    }
  }

  lemma {:induction false} MatchesSymmetric(op: Operation, other: Operation)
    requires Matches(op, other)
    ensures Matches(other, op) && op.Inserts() == other.Inserts()
  {
    if op.Split? && other.Split? && Matches(op.first, other.first) && Matches(op.second, other.second) {
      MatchesSymmetric(op.first, other.first);
      MatchesSymmetric(op.second, other.second);
    }
  }

  lemma {:induction false} MatchesTransitive(op: Operation, between: Operation, other: Operation)
    requires Matches(op, between) && Matches(between, other)
    ensures Matches(op, other)
  {
    MatchesSymmetric(op, between);
    MatchesSymmetric(between, other);
    if op.Split? && op.Inserts() > 0 {
      MatchesTransitive(op.first, between.first, other.first);
      MatchesTransitive(op.second, between.second, other.second);
    }
  }

  /** Transformation keeps the shape, whatever the earlier states are. */
  lemma {:induction false} TransformMatches(op: Operation, against: Operation, opLcs: Operation, agLcs: Operation,
                                            cid: Cid)
    ensures Matches(Transform(op, against, opLcs, agLcs, cid), op)
    decreases opLcs.Inserts() + agLcs.Inserts(), opLcs.Leaves() + agLcs.Leaves(),
              op.Inserts() + against.Inserts(), op.Leaves() + against.Leaves()
  {
    if against.Split? {
      var first := if agLcs.Split? then agLcs.first else agLcs;
      var second := if agLcs.Split? then agLcs.second else agLcs;
      var tmpLcs := if agLcs.Split? then Transform(opLcs, first, opLcs, first, cid) else opLcs;
      var tmp := Transform(op, against.first, opLcs, first, cid);
      TransformMatches(op, against.first, opLcs, first, cid);
      TransformMatches(tmp, against.second, tmpLcs, second, cid);
      MatchesTransitive(Transform(tmp, against.second, tmpLcs, second, cid), tmp, op);
    } else if op.Split? {
      var first := if opLcs.Split? then opLcs.first else opLcs;
      var second := if opLcs.Split? then opLcs.second else opLcs;
      var tmpLcs := if opLcs.Split? then Transform(agLcs, first, agLcs, first, cid.Flip()) else agLcs;
      TransformMatches(op.first, against, first, agLcs, cid);
      TransformMatches(op.second, Transform(against, op.first, agLcs, first, cid.Flip()), second, tmpLcs, cid);
    }
  }

  /** Two operations of one shape are transformed into operations of one shape. */
  lemma BothMatch(op: Operation, against: Operation, opLcs: Operation, agLcs: Operation, cid: Cid,
                  lcs: Operation, other: Operation)
    requires Matches(op, lcs)
    ensures Matches(Transform(op, against, opLcs, agLcs, cid), Transform(lcs, other, lcs, other, cid))
  {
    hide Transform;
    var r, l := Transform(op, against, opLcs, agLcs, cid), Transform(lcs, other, lcs, other, cid);
    TransformMatches(op, against, opLcs, agLcs, cid);
    TransformMatches(lcs, other, lcs, other, cid);
    MatchesSymmetric(l, lcs);
    MatchesTransitive(r, op, lcs);
    MatchesTransitive(r, lcs, l);
  }

  /** The assertion never fails if the earlier states have the shapes of the operations. */
  lemma {:induction false} AssertionHolds(op: Operation, against: Operation, opLcs: Operation, agLcs: Operation,
                                          cid: Cid)
    requires Matches(op, opLcs) && Matches(against, agLcs)
    ensures Asserted(op, against, opLcs, agLcs, cid)
    decreases opLcs.Inserts() + agLcs.Inserts(), opLcs.Leaves() + agLcs.Leaves(),
              op.Inserts() + against.Inserts(), op.Leaves() + against.Leaves()
  {
    hide Transform;
    if against.Split? {
      var first := if agLcs.Split? then agLcs.first else agLcs;
      var second := if agLcs.Split? then agLcs.second else agLcs;
      var tmpLcs := if agLcs.Split? then Transform(opLcs, first, opLcs, first, cid) else opLcs;
      AssertionHolds(op, against.first, opLcs, first, cid);
      TransformMatches(op, against.first, opLcs, first, cid);
      MatchesTransitive(Transform(op, against.first, opLcs, first, cid), op, opLcs);
      BothMatch(op, against.first, opLcs, first, cid, opLcs, first);
      AssertionHolds(Transform(op, against.first, opLcs, first, cid), against.second, tmpLcs, second, cid);
    } else if op.Split? {
      var flip := cid.Flip();
      var first := if opLcs.Split? then opLcs.first else opLcs;
      var second := if opLcs.Split? then opLcs.second else opLcs;
      var tmpLcs := if opLcs.Split? then Transform(agLcs, first, agLcs, first, flip) else agLcs;
      AssertionHolds(op.first, against, first, agLcs, cid);
      AssertionHolds(against, op.first, agLcs, first, flip);
      TransformMatches(against, op.first, agLcs, first, flip);
      MatchesTransitive(Transform(against, op.first, agLcs, first, flip), against, agLcs);
      BothMatch(against, op.first, agLcs, first, flip, agLcs, first);
      AssertionHolds(op.second, Transform(against, op.first, agLcs, first, flip), second, tmpLcs, cid);
    }
  }

  /** In particular when both operations were made in the same state, and when one of them has passed
      another operation before. */
  lemma NeverFails(c: Operation, w: nat, a: Operation, u: nat, b: Operation, v: nat)
    ensures Asserted(c, a, c, a, CidOf(w, u))
    ensures Asserted(By(c, w, a, u), By(b, v, a, u), c, b, CidOf(w, v))
  {
    hide Transform, Asserted;
    MatchesReflexive(a);
    MatchesReflexive(b);
    MatchesReflexive(c);
    AssertionHolds(c, a, c, a, CidOf(w, u));
    TransformMatches(c, a, c, a, CidOf(w, u));
    TransformMatches(b, a, b, a, CidOf(v, u));
    AssertionHolds(By(c, w, a, u), By(b, v, a, u), c, b, CidOf(w, v));
  }

  // ---------- Convergence at a later state ----------

  function FirstPart(op: Operation): Operation {
    if op.Split? then op.first else op
  }

  function SecondPart(op: Operation): Operation {
    if op.Split? then op.second else op
  }

  /** The earlier state of the other operation when the first part of `lcs` has been passed. */
  function Advanced(other: Operation, lcs: Operation, cid: Cid): Operation {
    if lcs.Split? then Against(other, lcs.first, cid) else other
  }

  /** Passing a split operation: one part after the other. */
  lemma PassSplit(op: Operation, against: Operation, opLcs: Operation, agLcs: Operation, cid: Cid)
    requires against.Split?
    ensures Transform(op, against, opLcs, agLcs, cid) ==
      Transform(Transform(op, against.first, opLcs, FirstPart(agLcs), cid), against.second,
                Advanced(opLcs, agLcs, cid), SecondPart(agLcs), cid)
  {
  }

  /** The parts of a split operation are transformed one after the other, whatever they are transformed
      against, also if they are compared at an earlier state. */
  lemma {:induction false} SplitLcs(op: Operation, against: Operation, opLcs: Operation, agLcs: Operation, cid: Cid)
    requires op.Split? && Matches(op, opLcs) && Matches(against, agLcs)
    ensures Transform(op, against, opLcs, agLcs, cid) ==
      Split(Transform(op.first, against, FirstPart(opLcs), agLcs, cid),
            Transform(op.second, Transform(against, op.first, agLcs, FirstPart(opLcs), cid.Flip()),
                      SecondPart(opLcs), Advanced(agLcs, opLcs, cid.Flip()), cid))
    decreases op.Inserts() + against.Inserts(), op.Leaves() + against.Leaves()
  {
    var flip := cid.Flip();
    var o1, o2, l1, l2 := op.first, op.second, FirstPart(opLcs), SecondPart(opLcs);
    if op.Inserts() == 0 || against.Inserts() == 0 {
      hide Transform;
      var ag := Transform(against, o1, agLcs, l1, flip);
      LcsIrrelevant(op, against, opLcs, agLcs, cid, cid);
      LcsIrrelevant(o1, against, l1, agLcs, cid, cid);
      LcsIrrelevant(against, o1, agLcs, l1, flip, flip);
      DeletionStays(against, o1, flip);
      LcsIrrelevant(o2, ag, l2, Advanced(agLcs, opLcs, flip), cid, cid);
      SplitAgainst(op, against, cid);
    } else if against.Split? {
      SplitLcsAgainst(op, against, opLcs, agLcs, cid);
    }
  }

  lemma DeletionStays(op: Operation, against: Operation, cid: Cid)
    ensures Against(op, against, cid).Inserts() == op.Inserts()
  {
  }

  lemma {:induction false} SplitLcsAgainst(op: Operation, against: Operation, opLcs: Operation, agLcs: Operation,
                                           cid: Cid)
    requires op.Split? && against.Split? && Matches(op, opLcs) && Matches(against, agLcs)
    requires op.Inserts() > 0 && against.Inserts() > 0
    ensures Transform(op, against, opLcs, agLcs, cid) ==
      Split(Transform(op.first, against, FirstPart(opLcs), agLcs, cid),
            Transform(op.second, Transform(against, op.first, agLcs, FirstPart(opLcs), cid.Flip()),
                      SecondPart(opLcs), Advanced(agLcs, opLcs, cid.Flip()), cid))
    decreases op.Inserts() + against.Inserts(), op.Leaves() + against.Leaves(), 0
  {
    hide Transform;
    var flip := cid.Flip();
    assert flip.Flip() == cid;
    MatchesSymmetric(op, opLcs);
    MatchesSymmetric(against, agLcs);
    var o1, o2, l1, l2 := op.first, op.second, opLcs.first, opLcs.second;
    var g1, g2, k1, k2 := against.first, against.second, agLcs.first, agLcs.second;
    var tmp := Transform(op, g1, opLcs, k1, cid);
    PassSplit(op, against, opLcs, agLcs, cid);
    SplitLcs(op, g1, opLcs, k1, cid);
    SplitAgainst(opLcs, k1, cid);
    BothMatch(op, g1, opLcs, k1, cid, opLcs, k1);
    Smaller(op, g1, opLcs, k1, cid);
    SplitLcs(tmp, g2, Against(opLcs, k1, cid), k2, cid);
    PassSplit(o1, against, l1, agLcs, cid);
    SplitLcs(against, o1, agLcs, l1, flip);
    SplitAgainst(agLcs, l1, flip);
    PassSplit(o2, Transform(against, o1, agLcs, l1, flip), l2, Against(agLcs, l1, flip), cid);
  }

  lemma Smaller(op: Operation, against: Operation, opLcs: Operation, agLcs: Operation, cid: Cid)
    ensures Transform(op, against, opLcs, agLcs, cid).Inserts() == op.Inserts()
    ensures against.Inserts() == 0 ==> Transform(op, against, opLcs, agLcs, cid).Leaves() == op.Leaves()
  {
  }

  lemma InsertTies(a: Operation, b: Operation, aLcs: Operation, bLcs: Operation, cid: Cid) returns (tie: Cid)
    requires a.Insert? && b.Insert?
    ensures Transform(a, b, aLcs, bLcs, cid) == Against(a, b, tie)
    ensures Transform(b, a, bLcs, aLcs, cid.Flip()) == Against(b, a, tie.Flip())
  {
    var i, j := aLcs.Position(), bLcs.Position();
    tie := if i < j || (i == j && cid == Other) then Other else Self;
  }

  /** C1 at a later state: two operations that are compared at an earlier one converge all the same. */
  lemma {:induction false} ConvergentLater(a: Operation, b: Operation, aLcs: Operation, bLcs: Operation, cid: Cid,
                                           d: seq<Cell>)
    requires Matches(a, aLcs) && Matches(b, bLcs) && Apply(a, d).ok && Apply(b, d).ok
    ensures Apply(Transform(a, b, aLcs, bLcs, cid), Apply(b, d).doc).ok
    ensures Apply(Transform(a, b, aLcs, bLcs, cid), Apply(b, d).doc)
      == Apply(Transform(b, a, bLcs, aLcs, cid.Flip()), Apply(a, d).doc)
    decreases a.Inserts() + b.Inserts(), a.Leaves() + b.Leaves()
  {
    hide Transform;
    assert cid.Flip().Flip() == cid;
    if a.Inserts() == 0 || b.Inserts() == 0 {
      LcsIrrelevant(a, b, aLcs, bLcs, cid, cid);
      LcsIrrelevant(b, a, bLcs, aLcs, cid.Flip(), cid.Flip());
      Convergent(a, b, cid, d);
    } else if a.Split? {
      ConvergentLaterSplit(a, b, aLcs, bLcs, cid, d);
    } else if b.Split? {
      ConvergentLaterSplit(b, a, bLcs, aLcs, cid.Flip(), d);
    } else {
      var tie := InsertTies(a, b, aLcs, bLcs, cid);
      Convergent(a, b, tie, d);
    }
  }

  lemma {:induction false} ConvergentLaterSplit(a: Operation, b: Operation, aLcs: Operation, bLcs: Operation,
                                                cid: Cid, d: seq<Cell>)
    requires Matches(a, aLcs) && Matches(b, bLcs) && Apply(a, d).ok && Apply(b, d).ok
    requires a.Split? && a.Inserts() > 0 && b.Inserts() > 0
    ensures Apply(Transform(a, b, aLcs, bLcs, cid), Apply(b, d).doc).ok
    ensures Apply(Transform(a, b, aLcs, bLcs, cid), Apply(b, d).doc)
      == Apply(Transform(b, a, bLcs, aLcs, cid.Flip()), Apply(a, d).doc)
    decreases a.Inserts() + b.Inserts(), a.Leaves() + b.Leaves(), 0
  {
    hide Transform;
    var flip := cid.Flip();
    assert flip.Flip() == cid;
    MatchesSymmetric(a, aLcs);
    var a1, a2, l1, l2 := a.first, a.second, aLcs.first, aLcs.second;
    var b' := Transform(b, a1, bLcs, l1, flip);
    SplitLcs(a, b, aLcs, bLcs, cid);
    PassSplit(b, a, bLcs, aLcs, flip);
    BothMatch(b, a1, bLcs, l1, flip, bLcs, l1);
    Smaller(b, a1, bLcs, l1, flip);
    ConvergentLater(a1, b, l1, bLcs, cid, d);
    ConvergentLater(a2, b', l2, Against(bLcs, l1, flip), cid, Apply(a1, d).doc);
  }
}
