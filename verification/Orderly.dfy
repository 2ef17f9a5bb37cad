/** Operations that insert first and delete afterwards.  These are more than the pure operations, and
    transformation and undo do not leave them either. */
module OrderlyOperations {
  import opened Ropes
  import opened Operations
  import opened Striking
  import opened ThreeWay
  import opened PureOperations
  import opened EarlierStates

  /** Insertions followed by deletions. */
  predicate Mixed(op: Operation) {
    op.Split? && Inserting(op.first) && op.second.Inserts() == 0
  }

  predicate Orderly(op: Operation) {
    Pure(op) || Mixed(op)
  }

  // ---------- Orderly operations stay orderly ----------

  lemma {:induction false} StaysMixed(op: Operation, against: Operation, opLcs: Operation, agLcs: Operation, cid: Cid)
    requires Mixed(op)
    ensures Mixed(Transform(op, against, opLcs, agLcs, cid))
    decreases against
  {
    if against.Split? {
      hide Transform;
      var tmp := Transform(op, against.first, opLcs, FirstPart(agLcs), cid);
      PassSplit(op, against, opLcs, agLcs, cid);
      StaysMixed(op, against.first, opLcs, FirstPart(agLcs), cid);
      StaysMixed(tmp, against.second, Advanced(opLcs, agLcs, cid), SecondPart(agLcs), cid);
    } else {
      StaysInserting(op.first, against, FirstPart(opLcs), agLcs, cid);
    }
  }

  /** Whatever it is transformed against, and also when it is undone, an orderly operation stays orderly. */
  lemma OrderlyStaysOrderly(op: Operation, against: Operation, opLcs: Operation, agLcs: Operation, cid: Cid)
    requires Orderly(op)
    ensures Orderly(Transform(op, against, opLcs, agLcs, cid)) && Orderly(Revert(op))
  {
    hide Transform;
    if Pure(op) {
      PureStaysPure(op, against, opLcs, agLcs, cid);
    } else {
      StaysMixed(op, against, opLcs, agLcs, cid);
      RevertSwaps(op.first);
      RevertSwaps(op.second);
    }
  }

  // ---------- Comparison before and after a third operation ----------

  lemma ByMatches(op: Operation, u: nat, against: Operation, v: nat)
    ensures Matches(By(op, u, against, v), op)
  {
    TransformMatches(op, against, op, against, CidOf(u, v));
  }

  /** Two insertions at one place are ordered by the users, also when they have passed a third one. */
  lemma {:induction false} TieKept(c: Operation, w: nat, b: Operation, v: nat, x: Operation, u: nat)
    requires c.Insert? && b.Insert? && c.pos == b.pos && Inserting(x) && u != v && u != w && w > v
    ensures By(c, w, x, u).Insert? && By(b, v, x, u).Insert? && By(c, w, x, u).pos <= By(b, v, x, u).pos
    decreases x
  {
    if x.Split? {
      BySplit(c, w, x, u);
      BySplit(b, v, x, u);
      var c1, b1 := By(c, w, x.first, u), By(b, v, x.first, u);
      TieKept(c, w, b, v, x.first, u);
      if c1.pos == b1.pos {
        TieKept(c1, w, b1, v, x.second, u);
      } else {
        OrderKept(c1, w, b1, v, x.second, u);
      }
    } else {
      InsertShift(c, w, x, u);
      InsertShift(b, v, x, u);
    }
  }

  /** Inserting operations may be compared before or after they have passed a third one. */
  lemma {:induction false} LcsLater(op: Operation, against: Operation, c: Operation, w: nat, a: Operation, u: nat,
                                    x: Operation, t: nat)
    requires u != w && u != t && t != w && Inserting(c) && Inserting(a) && Inserting(x)
    requires Inserting(op) && Inserting(against) && Matches(op, c) && Matches(against, a)
    ensures Transform(op, against, c, a, CidOf(w, u))
      == Transform(op, against, By(c, w, x, t), By(a, u, x, t), CidOf(w, u))
    decreases c.Leaves() + a.Leaves()
  {
    hide Transform;
    InsertingHasInserts(c);
    InsertingHasInserts(a);
    if a.Split? {
      LcsLaterAgainst(op, against, c, w, a, u, x, t);
    } else if c.Split? {
      LcsLaterSplit(op, against, c, w, a, u, x, t);
    } else {
      LcsLaterInserts(op, against, c, w, a, u, x, t);
    }
  }

  lemma InsertingHasInserts(op: Operation)
    requires Inserting(op)
    ensures op.Inserts() > 0
  {
    InsertingLeaves(op);
  }

  lemma LcsLaterInserts(op: Operation, against: Operation, c: Operation, w: nat, a: Operation, u: nat,
                        x: Operation, t: nat)
    requires u != w && u != t && t != w && Inserting(x)
    requires op.Insert? && against.Insert? && c.Insert? && a.Insert?
    ensures Transform(op, against, c, a, CidOf(w, u))
      == Transform(op, against, By(c, w, x, t), By(a, u, x, t), CidOf(w, u))
  {
    hide Transform;
    OrderKept(c, w, a, u, x, t);
    if c.pos == a.pos {
      if w > u {
        TieKept(c, w, a, u, x, t);
      } else {
        TieKept(a, u, c, w, x, t);
      }
    }
    TransformInserts(op, against, c, a, CidOf(w, u));
    TransformInserts(op, against, By(c, w, x, t), By(a, u, x, t), CidOf(w, u));
  }

  lemma {:induction false} LcsLaterAgainst(op: Operation, against: Operation, c: Operation, w: nat, a: Operation,
                                           u: nat, x: Operation, t: nat)
    requires u != w && u != t && t != w && Inserting(c) && Inserting(a) && Inserting(x) && a.Split?
    requires Inserting(op) && Inserting(against) && Matches(op, c) && Matches(against, a)
    ensures Transform(op, against, c, a, CidOf(w, u))
      == Transform(op, against, By(c, w, x, t), By(a, u, x, t), CidOf(w, u))
    decreases c.Leaves() + a.Leaves(), 0
  {
    hide Transform;
    InsertingHasInserts(a);
    var cid, a1, a2, x1 := CidOf(w, u), a.first, a.second, By(x, t, a.first, u);
    var tmp := Transform(op, against.first, c, a1, cid);
    LcsStep(op, against, c, a, cid);
    BySplit(a, u, x, t);
    LcsStep(op, against, By(c, w, x, t), By(a, u, x, t), cid);
    LcsLater(op, against.first, c, w, a1, u, x, t);
    BothMatch(op, against.first, c, a1, cid, c, a1);
    StaysInserting(op, against.first, c, a1, cid);
    Kept(c, w, a1, u);
    Kept(x, t, a1, u);
    LcsLater(tmp, against.second, By(c, w, a1, u), w, a2, u, x1, t);
    InsertingAgree(c, w, x, t, a1, u);
  }

  lemma {:induction false} LcsLaterSplit(op: Operation, against: Operation, c: Operation, w: nat, a: Operation, u: nat,
                                         x: Operation, t: nat)
    requires u != w && u != t && t != w && Inserting(c) && Inserting(a) && Inserting(x) && a.Insert? && c.Split?
    requires Inserting(op) && Inserting(against) && Matches(op, c) && Matches(against, a)
    ensures Transform(op, against, c, a, CidOf(w, u))
      == Transform(op, against, By(c, w, x, t), By(a, u, x, t), CidOf(w, u))
    decreases c.Leaves() + a.Leaves(), 0
  {
    hide Transform;
    InsertingHasInserts(c);
    InsertingHasInserts(a);
    var cid, flip, c1, c2, x1 := CidOf(w, u), CidOf(u, w), c.first, c.second, By(x, t, c.first, w);
    var ag := Transform(against, op.first, a, c1, flip);
    LcsStep(op, against, c, a, cid);
    BySplit(c, w, x, t);
    Kept(a, u, x, t);
    LcsStep(op, against, By(c, w, x, t), By(a, u, x, t), cid);
    LcsLater(op.first, against, c1, w, a, u, x, t);
    LcsLater(against, op.first, a, u, c1, w, x, t);
    BothMatch(against, op.first, a, c1, flip, a, c1);
    StaysInserting(against, op.first, a, c1, flip);
    Kept(a, u, c1, w);
    Kept(x, t, c1, w);
    LcsLater(op.second, ag, c2, w, By(a, u, c1, w), u, x1, t);
    InsertingAgree(a, u, x, t, c1, w);
  }

  // ---------- Operations that do the same ----------

  /** The operations do the same to every document of length `n`, whatever characters they insert. */
  ghost predicate Alike(x: Operation, y: Operation, n: nat) {
    forall e: seq<Cell> :: |e| == n ==> Apply(Blank(x, PLAIN), e) == Apply(Blank(y, PLAIN), e)
  }

  /** Deletions that strike the same mask do the same. */
  lemma SameMaskApply(x: Operation, y: Operation, m: seq<Cell>, e: seq<Cell>)
    requires Strikes(x, m) && Strikes(y, m) && |e| == |m|
    ensures Apply(x, e) == Apply(y, e)
    ensures Apply(Blank(x, PLAIN), e) == Apply(Blank(y, PLAIN), e)
  {
    hide Strikes, Keep, Blank;
    StrikesKeep(x, e, m);
    StrikesKeep(y, e, m);
    NoInserts(x, m);
    NoInserts(y, m);
    BlankApply(x, PLAIN, e, e);
    BlankApply(y, PLAIN, e, e);
  }

  lemma SameMaskAlike(x: Operation, y: Operation, m: seq<Cell>)
    requires Strikes(x, m) && Strikes(y, m)
    ensures Alike(x, y, |m|)
  {
    hide Strikes, Blank, Apply;
    forall e: seq<Cell> | |e| == |m| ensures Apply(Blank(x, PLAIN), e) == Apply(Blank(y, PLAIN), e) {
      SameMaskApply(x, y, m, e);
    }
  }

  /** Operations with equal first parts, of which the second parts do the same. */
  lemma AlikeSplit(first: Operation, x: Operation, y: Operation, d: seq<Cell>)
    requires Alike(x, y, |Apply(first, d).doc|)
    ensures Alike(Split(first, x), Split(first, y), |d|)
  {
    forall e: seq<Cell> | |e| == |d|
      ensures Apply(Blank(Split(first, x), PLAIN), e) == Apply(Blank(Split(first, y), PLAIN), e)
    {
      BlankApply(first, PLAIN, d, e);
    }
  }

  /** A deletion that passes operations that do the same. */
  lemma PassAlike(c: Operation, w: nat, x: Operation, y: Operation, v: nat, d: seq<Cell>, m: seq<Cell>)
    returns (n: seq<Cell>)
    requires |m| == |d| && Strikes(c, m) && Apply(x, d).ok && Alike(x, y, |d|)
    ensures |n| == |Apply(x, d).doc| && Strikes(By(c, w, x, v), n) && Strikes(By(c, w, y, v), n)
  {
    hide Transform, Strikes, Blank;
    BlankApply(x, PLAIN, d, m);
    StrikesAgainst(c, x, CidOf(w, v), m);
    StrikesAgainst(c, y, CidOf(w, v), m);
    n := Apply(Blank(x, PLAIN), m).doc;
  }

  lemma AlikeLength(x: Operation, y: Operation, d: seq<Cell>)
    requires Alike(x, y, |d|)
    ensures |Apply(x, d).doc| == |Apply(y, d).doc|
  {
    BlankApply(x, PLAIN, d, d);
    BlankApply(y, PLAIN, d, d);
  }
}
