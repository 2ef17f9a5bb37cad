/** Operations that only insert or only delete.  Typing and erasing are single insertions and deletions;
    transformation splits deletions but never insertions, and undo turns a split deletion into a split
    insertion.  So no operation both inserts and deletes. */
module PureOperations {
  import opened Ropes
  import opened Operations
  import opened Convergence
  import opened Striking
  import opened ThreeWay

  /** The operation does not delete. */
  predicate Inserting(op: Operation) {
    match op
    case Insert(_, _) => true
    case Delete(_, _) => false
    case Split(first, second) => Inserting(first) && Inserting(second)
  }

  /** The operation does not insert and delete. */
  predicate Pure(op: Operation) {
    Inserting(op) || op.Inserts() == 0
  }

  // ---------- Pure operations stay pure ----------

  lemma {:induction false} InsertingLeaves(op: Operation)
    requires Inserting(op)
    ensures op.Leaves() == op.Inserts()
  {
    if op.Split? {
      InsertingLeaves(op.first);
      InsertingLeaves(op.second);
    }
  }

  lemma {:induction false} StaysInserting(op: Operation, against: Operation, opLcs: Operation, agLcs: Operation,
                                          cid: Cid)
    requires Inserting(op)
    ensures Inserting(Transform(op, against, opLcs, agLcs, cid))
    decreases opLcs.Inserts() + agLcs.Inserts(), opLcs.Leaves() + agLcs.Leaves(),
              op.Inserts() + against.Inserts(), op.Leaves() + against.Leaves()
  {
    if against.Split? {
      if agLcs.Split? {
        StaysInserting(op, against.first, opLcs, agLcs.first, cid);
        StaysInserting(Transform(op, against.first, opLcs, agLcs.first, cid), against.second,
                       Transform(opLcs, agLcs.first, opLcs, agLcs.first, cid), agLcs.second, cid);
      } else {
        StaysInserting(op, against.first, opLcs, agLcs, cid);
        StaysInserting(Transform(op, against.first, opLcs, agLcs, cid), against.second, opLcs, agLcs, cid);
      }
    } else if op.Split? {
      var flip := cid.Flip();
      if opLcs.Split? {
        StaysInserting(op.first, against, opLcs.first, agLcs, cid);
        StaysInserting(op.second, Transform(against, op.first, agLcs, opLcs.first, flip),
                       opLcs.second, Transform(agLcs, opLcs.first, agLcs, opLcs.first, flip), cid);
      } else {
        StaysInserting(op.first, against, opLcs, agLcs, cid);
        StaysInserting(op.second, Transform(against, op.first, agLcs, opLcs, flip), opLcs, agLcs, cid);
      }
    }
  }

  lemma {:induction false} RevertSwaps(op: Operation)
    ensures Inserting(op) ==> Revert(op).Inserts() == 0
    ensures op.Inserts() == 0 ==> Inserting(Revert(op))
  {
    if op.Split? {
      RevertSwaps(op.first);
      RevertSwaps(op.second);
    }
  }

  /** Whatever it is transformed against, and also when it is undone, a pure operation stays pure. */
  lemma PureStaysPure(op: Operation, against: Operation, opLcs: Operation, agLcs: Operation, cid: Cid)
    requires Pure(op)
    ensures Pure(Transform(op, against, opLcs, agLcs, cid)) && Pure(Revert(op))
  {
    if Inserting(op) {
      StaysInserting(op, against, opLcs, agLcs, cid);
    }
    RevertSwaps(op);
  }

  /** An inserting operation is not split by transformation. */
  lemma Kept(op: Operation, u: nat, against: Operation, v: nat)
    requires Inserting(op)
    ensures Inserting(By(op, u, against, v)) && By(op, u, against, v).Leaves() == op.Leaves()
  {
    hide Transform;
    StaysInserting(op, against, op, against, CidOf(u, v));
    InsertingLeaves(op);
    InsertingLeaves(By(op, u, against, v));
  }

  /** How split operations are transformed, in terms of users. */
  lemma BySplit(a: Operation, u: nat, b: Operation, v: nat)
    requires u != v
    ensures b.Split? ==> By(a, u, b, v) == By(By(a, u, b.first, v), u, b.second, v)
    ensures a.Split? ==> By(a, u, b, v) == Split(By(a.first, u, b, v), By(a.second, u, By(b, v, a.first, u), v))
  {
    hide Transform;
    if a.Split? {
      SplitAgainst(a, b, CidOf(u, v));
    }
    if b.Split? {
      AgainstSplit(a, b, CidOf(u, v));
    }
  }

  // ---------- Three inserting operations ----------

  /** Without earlier states: two operations transformed against each other's transformed form. */
  lemma {:induction false} InsertingAgree(c: Operation, w: nat, a: Operation, u: nat, b: Operation, v: nat)
    requires u != v && v != w && u != w
    requires Inserting(a) && Inserting(b) && Inserting(c)
    ensures By(By(c, w, a, u), w, By(b, v, a, u), v) == By(By(c, w, b, v), w, By(a, u, b, v), u)
    decreases a.Leaves() + b.Leaves() + c.Leaves()
  {
    hide Transform;
    if a.Split? {
      InsertingAgreeSplit(c, w, a, u, b, v);
    } else if b.Split? {
      InsertingAgreeSplit(c, w, b, v, a, u);
    } else if c.Split? {
      var c1, c2 := c.first, c.second;
      BySplit(c, w, a, u);
      BySplit(c, w, b, v);
      BySplit(By(c, w, a, u), w, By(b, v, a, u), v);
      BySplit(By(c, w, b, v), w, By(a, u, b, v), u);
      InsertingAgree(c1, w, a, u, b, v);
      InsertingAgree(b, v, a, u, c1, w);
      InsertingAgree(a, u, b, v, c1, w);
      Kept(a, u, c1, w);
      Kept(b, v, c1, w);
      InsertingAgree(c2, w, By(a, u, c1, w), u, By(b, v, c1, w), v);
    } else {
      ThreeInserts(c, w, a, u, b, v);
    }
  }

  lemma {:induction false} InsertingAgreeSplit(c: Operation, w: nat, a: Operation, u: nat, b: Operation, v: nat)
    requires u != v && v != w && u != w
    requires Inserting(a) && Inserting(b) && Inserting(c) && a.Split?
    ensures By(By(c, w, a, u), w, By(b, v, a, u), v) == By(By(c, w, b, v), w, By(a, u, b, v), u)
    decreases a.Leaves() + b.Leaves() + c.Leaves(), 0
  {
    hide Transform;
    var a1, a2 := a.first, a.second;
    BySplit(c, w, a, u);
    BySplit(b, v, a, u);
    BySplit(a, u, b, v);
    var c1, b1 := By(c, w, a1, u), By(b, v, a1, u);
    Kept(c, w, a1, u);
    Kept(b, v, a1, u);
    InsertingAgree(c1, w, a2, u, b1, v);
    InsertingAgree(c, w, a1, u, b, v);
    BySplit(By(c, w, b, v), w, By(a, u, b, v), u);
  }

  /** Where an insertion goes when it meets an inserting operation: the order of positions is kept,
      whoever the users are. */
  lemma {:induction false} OrderKept(c: Operation, w: nat, b: Operation, v: nat, x: Operation, u: nat)
    requires c.Insert? && b.Insert? && Inserting(x) && u != v && u != w
    ensures By(c, w, x, u).Insert? && By(b, v, x, u).Insert?
    ensures c.pos < b.pos ==> By(c, w, x, u).pos < By(b, v, x, u).pos
    ensures b.pos < c.pos ==> By(b, v, x, u).pos < By(c, w, x, u).pos
    decreases x
  {
    if x.Split? {
      BySplit(c, w, x, u);
      BySplit(b, v, x, u);
      OrderKept(c, w, b, v, x.first, u);
      OrderKept(By(c, w, x.first, u), w, By(b, v, x.first, u), v, x.second, u);
    } else {
      InsertShift(c, w, x, u);
      InsertShift(b, v, x, u);
    }
  }

  /** The recursion of the transformation, when both the operation and its earlier state are split. */
  lemma LcsStep(op: Operation, against: Operation, opLcs: Operation, agLcs: Operation, cid: Cid)
    requires (against.Split? && agLcs.Split?) || (!against.Split? && op.Split? && opLcs.Split?)
    ensures Transform(op, against, opLcs, agLcs, cid) ==
      if against.Split? then
        Transform(Transform(op, against.first, opLcs, agLcs.first, cid), against.second,
                  Against(opLcs, agLcs.first, cid), agLcs.second, cid)
      else
        Split(Transform(op.first, against, opLcs.first, agLcs, cid),
              Transform(op.second, Transform(against, op.first, agLcs, opLcs.first, cid.Flip()),
                        opLcs.second, Against(agLcs, opLcs.first, cid.Flip()), cid))
  {
  }

  // ---------- Deletions that delete the same ----------

  /** Where a deletion moves an inserting operation depends only on the cells that it deletes. */
  lemma {:induction false} SameMask(op: Operation, w: nat, x: Operation, y: Operation, v: nat, d: seq<Cell>,
                                    m: seq<Cell>)
    requires |m| == |d| && Strikes(x, m) && Strikes(y, m)
    requires w != v && Inserting(op) && Apply(op, d).ok
    ensures By(op, w, x, v) == By(op, w, y, v)
    decreases op.Leaves()
  {
    hide Transform, Strikes, Keep, Past, Blank;
    NoInserts(x, m);
    NoInserts(y, m);
    if op.Split? {
      var op1, op2 := op.first, op.second;
      var x1, y1 := By(x, v, op1, w), By(y, v, op1, w);
      BySplit(op, w, x, v);
      BySplit(op, w, y, v);
      BlankApply(op1, PLAIN, d, m);
      var m1 := Apply(Blank(op1, PLAIN), m).doc;
      StrikesAgainst(x, op1, CidOf(v, w), m);
      StrikesAgainst(y, op1, CidOf(v, w), m);
      SameMask(op1, w, x, y, v, d, m);
      SameMask(op2, w, x1, y1, v, Apply(op1, d).doc, m1);
    } else {
      InsertPastDeletion(op, x, op, x, CidOf(w, v));
      InsertPastDeletion(op, y, op, y, CidOf(w, v));
      StrikesPast(x, d, m, op.pos);
      StrikesPast(y, d, m, op.pos);
    }
  }

  /** The mask that a deletion strikes after two other operations. */
  ghost function MaskAfter(m: seq<Cell>, a: Operation, u: nat, b: Operation, v: nat): seq<Cell> {
    Both(Blank(a, PLAIN), u, Blank(b, PLAIN), v, m)
  }

  /** A deletion that passes two operations, in either order, deletes the same cells. */
  lemma DeletionTwice(x: Operation, w: nat, a: Operation, u: nat, b: Operation, v: nat, d: seq<Cell>, m: seq<Cell>)
    requires u != v && Apply(a, d).ok && Apply(b, d).ok && |m| == |d| && Strikes(x, m)
    ensures |MaskAfter(m, a, u, b, v)| == |Both(a, u, b, v, d)|
    ensures Strikes(By(By(x, w, a, u), w, By(b, v, a, u), v), MaskAfter(m, a, u, b, v))
    ensures Strikes(By(By(x, w, b, v), w, By(a, u, b, v), u), MaskAfter(m, a, u, b, v))
  {
    hide Transform, Strikes, Blank;
    BlankApply(a, PLAIN, d, m);
    BlankApply(b, PLAIN, d, m);
    BothAgree(Blank(a, PLAIN), u, Blank(b, PLAIN), v, m);
    DeletionVia(x, w, a, u, b, v, d, m);
    DeletionVia(x, w, b, v, a, u, d, m);
    NoInserts(x, m);
    LcsIrrelevant(By(x, w, a, u), By(b, v, a, u), x, b, CidOf(w, v), CidOf(w, v));
    LcsIrrelevant(By(x, w, b, v), By(a, u, b, v), x, a, CidOf(w, u), CidOf(w, u));
  }

  /** Both orders move an inserting operation alike. */
  lemma SameAfterBoth(op: Operation, t: nat, x: Operation, w: nat, a: Operation, u: nat, b: Operation, v: nat,
                      d: seq<Cell>, m: seq<Cell>)
    requires u != v && t != w && Apply(a, d).ok && Apply(b, d).ok && |m| == |d| && Strikes(x, m)
    requires Inserting(op) && Apply(op, Both(a, u, b, v, d)).ok
    ensures By(op, t, By(By(x, w, a, u), w, By(b, v, a, u), v), w)
      == By(op, t, By(By(x, w, b, v), w, By(a, u, b, v), u), w)
  {
    hide Transform, Strikes, Blank;
    DeletionTwice(x, w, a, u, b, v, d, m);
    SameMask(op, t, By(By(x, w, a, u), w, By(b, v, a, u), v), By(By(x, w, b, v), w, By(a, u, b, v), u), w,
             Both(a, u, b, v, d), MaskAfter(m, a, u, b, v));
  }

  /** The transformed operation can be applied. */
  lemma ByApplies(a: Operation, u: nat, b: Operation, v: nat, d: seq<Cell>)
    requires u != v && Apply(a, d).ok && Apply(b, d).ok
    ensures Apply(By(a, u, b, v), Apply(b, d).doc).ok
  {
    hide Transform;
    Convergent(a, b, CidOf(u, v), d);
  }

  /** A mask behind an operation. */
  lemma MaskBehind(x: Operation, v: nat, a: Operation, u: nat, d: seq<Cell>, m: seq<Cell>) returns (n: seq<Cell>)
    requires |m| == |d| && Strikes(x, m) && Apply(a, d).ok
    ensures |n| == |Apply(a, d).doc| && Strikes(By(x, v, a, u), n)
  {
    hide Transform, Strikes, Blank;
    BlankApply(a, PLAIN, d, m);
    StrikesAgainst(x, a, CidOf(v, u), m);
    n := Apply(Blank(a, PLAIN), m).doc;
  }

  // ---------- An inserting operation and two deletions ----------

  lemma {:induction false} PastTwoDeletions(c: Operation, w: nat, a: Operation, u: nat, b: Operation, v: nat,
                                            d: seq<Cell>, ma: seq<Cell>, mb: seq<Cell>)
    requires |ma| == |mb| == |d| && Strikes(a, ma) && Strikes(b, mb)
    requires u != v && v != w && u != w && Inserting(c) && Apply(c, d).ok
    ensures By(By(c, w, a, u), w, By(b, v, a, u), v) == By(By(c, w, b, v), w, By(a, u, b, v), u)
    decreases c.Leaves()
  {
    hide Transform, Strikes, Blank;
    NoInserts(a, ma);
    NoInserts(b, mb);
    StrikesKeep(a, d, ma);
    StrikesKeep(b, d, mb);
    if c.Split? {
      var c1, c2, d1 := c.first, c.second, Apply(c.first, d).doc;
      var a1, b1 := By(a, u, c1, w), By(b, v, c1, w);
      PastTwoDeletions(c1, w, a, u, b, v, d, ma, mb);
      SplitPastTwo(c, w, a, u, b, v, d, mb);
      SplitPastTwo(c, w, b, v, a, u, d, ma);
      var ma1 := MaskBehind(a, u, c1, w, d, ma);
      var mb1 := MaskBehind(b, v, c1, w, d, mb);
      PastTwoDeletions(c2, w, a1, u, b1, v, d1, ma1, mb1);
    } else {
      InsertTwoDeletions(c, w, a, u, b, v, d);
      LcsIrrelevant(By(c, w, a, u), By(b, v, a, u), c, b, CidOf(w, v), CidOf(w, v));
      LcsIrrelevant(By(c, w, b, v), By(a, u, b, v), c, a, CidOf(w, u), CidOf(w, u));
    }
  }

  /** The second half of a split operation may as well be taken past the deletions behind the first. */
  lemma SplitPastTwo(c: Operation, w: nat, a: Operation, u: nat, b: Operation, v: nat, d: seq<Cell>, mb: seq<Cell>)
    requires u != v && v != w && u != w && Inserting(c) && Apply(c, d).ok && c.Split?
    requires Apply(a, d).ok && |mb| == |d| && Strikes(b, mb)
    ensures By(By(c, w, a, u), w, By(b, v, a, u), v) ==
      var a1, b1 := By(a, u, c.first, w), By(b, v, c.first, w);
      Split(By(By(c.first, w, a, u), w, By(b, v, a, u), v),
            By(By(c.second, w, a1, u), w, By(b1, v, a1, u), v))
  {
    hide Transform, Strikes, Blank;
    var c1, c2, d1 := c.first, c.second, Apply(c.first, d).doc;
    var a1 := By(a, u, c1, w);
    BySplit(c, w, a, u);
    BySplit(By(c, w, a, u), w, By(b, v, a, u), v);
    ByApplies(a, u, c1, w, d);
    Kept(c2, w, a1, u);
    ByApplies(c2, w, a1, u, d1);
    BothAgree(a, u, c1, w, d);
    SameAfterBoth(By(c2, w, a1, u), w, b, v, a, u, c1, w, d, mb);
  }
}
