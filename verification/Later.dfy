/** C2 at later states: operations that were made in one state, compared as they were there, at a state in
    which others have been performed. */
module LaterStates {
  import opened Ropes
  import opened Operations
  import opened Striking
  import opened ThreeWay
  import opened PureOperations
  import opened EarlierStates
  import opened OrderlyOperations
  import opened Replacements
  import opened PairStates

  /** An operation as it is now, as it was at the state at which it is compared, and its user. */
  datatype Shared = Shared(op: Operation, lcs: Operation, user: nat) {

    predicate Fits() {
      Matches(op, lcs)
    }

    predicate Inserts() {
      Inserting(op) && Inserting(lcs) && Fits()
    }
  }

  /** The operation with the effect of the other one included. */
  function Pass(x: Shared, y: Shared): (r: Shared)
    ensures r.user == x.user && r.lcs == x.lcs
  {
    x.(op := Transform(x.op, y.op, x.lcs, y.lcs, CidOf(x.user, y.user)))
  }

  /** Operation `c` past `a` and then past what `a` has made of `b`. */
  function PassBoth(c: Shared, a: Shared, b: Shared): Operation {
    Pass(Pass(c, a), Pass(b, a)).op
  }

  /** The document after `a` and then `b`. */
  function After(a: Shared, b: Shared, d: seq<Cell>): seq<Cell> {
    Apply(Pass(b, a).op, Apply(a.op, d).doc).doc
  }

  /** The two ways of taking `c` past the others have the same effect. */
  ghost predicate Agree(c: Shared, a: Shared, b: Shared, d: seq<Cell>) {
    && After(a, b, d) == After(b, a, d)
    && Apply(PassBoth(c, a, b), After(a, b, d)).ok
    && Apply(PassBoth(c, a, b), After(a, b, d)) == Apply(PassBoth(c, b, a), After(a, b, d))
  }

  predicate ThreeUsers(c: Shared, a: Shared, b: Shared) {
    c.user != a.user && a.user != b.user && b.user != c.user
  }

  lemma PassFits(x: Shared, y: Shared)
    requires x.Fits()
    ensures Pass(x, y).Fits()
  {
    TransformMatches(x.op, y.op, x.lcs, y.lcs, CidOf(x.user, y.user));
    MatchesTransitive(Pass(x, y).op, x.op, x.lcs);
  }

  /** C1. */
  lemma Meet(x: Shared, y: Shared, d: seq<Cell>)
    requires x.Fits() && y.Fits() && x.user != y.user && Apply(x.op, d).ok && Apply(y.op, d).ok
    ensures Apply(Pass(x, y).op, Apply(y.op, d).doc).ok
    ensures Apply(Pass(x, y).op, Apply(y.op, d).doc) == Apply(Pass(y, x).op, Apply(x.op, d).doc)
  {
    hide Transform;
    ConvergentLater(x.op, y.op, x.lcs, y.lcs, CidOf(x.user, y.user), d);
  }

  /** Where three operations lead, when the third one is taken before or after the second. */
  lemma MeetThird(c: Shared, a: Shared, b: Shared, d: seq<Cell>)
    requires c.Fits() && a.Fits() && b.Fits() && ThreeUsers(c, a, b)
    requires Apply(c.op, d).ok && Apply(a.op, d).ok && Apply(b.op, d).ok
    ensures After(a, b, d) == After(b, a, d)
    ensures Apply(PassBoth(c, a, b), After(a, b, d)).ok
    ensures Apply(PassBoth(c, a, b), After(a, b, d)) == Apply(PassBoth(b, a, c), After(a, c, d))
  {
    hide Pass;
    PassFits(c, a);
    PassFits(b, a);
    Meet(a, b, d);
    Meet(c, a, d);
    Meet(b, a, d);
    Meet(Pass(c, a), Pass(b, a), Apply(a.op, d).doc);
  }

  // ---------- Deletions ----------

  function Blanked(x: Shared): Shared {
    Shared(Blank(x.op, PLAIN), Blank(x.lcs, PLAIN), x.user)
  }

  lemma BlankPass(x: Shared, y: Shared)
    ensures Pass(Blanked(x), Blanked(y)) == Blanked(Pass(x, y))
  {
    hide Transform;
    BlankTransform(x.op, y.op, x.lcs, y.lcs, CidOf(x.user, y.user), PLAIN, PLAIN);
  }

  lemma {:induction false} BlankMatches(x: Operation, y: Operation, c: Cell)
    requires Matches(x, y)
    ensures Matches(Blank(x, c), Blank(y, c))
  {
    BlankKeepsShape(x, c);
    BlankKeepsShape(y, c);
    if x.Split? && y.Split? && Matches(x.first, y.first) && Matches(x.second, y.second) {
      BlankMatches(x.first, y.first, c);
      BlankMatches(x.second, y.second, c);
    }
  }

  lemma PassDeleting(c: Shared, a: Shared)
    requires c.op.Inserts() == 0
    ensures Pass(c, a).op == By(c.op, c.user, a.op, a.user) && Pass(c, a).op.Inserts() == 0
  {
    hide Transform;
    var cid := CidOf(c.user, a.user);
    LcsIrrelevant(c.op, a.op, c.lcs, a.lcs, cid, cid);
    DeletionStays(c.op, a.op, cid);
  }

  /** The mask of a deletion moves along with the operation that is passed. */
  lemma MaskPass(c: Shared, a: Shared, d: seq<Cell>, m: seq<Cell>)
    requires |m| == |d| && Strikes(c.op, m) && Apply(a.op, d).ok
    ensures |Apply(Blank(a.op, PLAIN), m).doc| == |Apply(a.op, d).doc|
    ensures Strikes(Pass(c, a).op, Apply(Blank(a.op, PLAIN), m).doc)
  {
    hide Transform, Strikes, Blank, Pass;
    NoInserts(c.op, m);
    PassDeleting(c, a);
    BlankApply(a.op, PLAIN, d, m);
    StrikesAgainst(c.op, a.op, CidOf(c.user, a.user), m);
  }

  /** C2 for operations that only delete, against any others that are compared at any earlier states. */
  lemma {:induction false} DeletionLater(c: Shared, a: Shared, b: Shared, d: seq<Cell>)
    requires c.Fits() && a.Fits() && b.Fits() && ThreeUsers(c, a, b) && c.op.Inserts() == 0
    requires Apply(c.op, d).ok && Apply(a.op, d).ok && Apply(b.op, d).ok
    ensures Agree(c, a, b, d)
  {
    hide Transform, Strikes, Blank, Pass, Apply;
    MeetThird(c, a, b, d);
    MeetThird(c, b, a, d);
    var m := MaskExists(c.op, d);
    DeletionWay(c, a, b, d, m);
    DeletionWay(c, b, a, d, m);
    BlankMeet(a, b, d, m);
    SameMaskApply(PassBoth(c, a, b), PassBoth(c, b, a), After(Blanked(a), Blanked(b), m), After(a, b, d));
  }

  lemma DeletionWay(c: Shared, a: Shared, b: Shared, d: seq<Cell>, m: seq<Cell>)
    requires a.Fits() && b.Fits() && ThreeUsers(c, a, b)
    requires |m| == |d| && Strikes(c.op, m) && Apply(a.op, d).ok && Apply(b.op, d).ok
    ensures |After(Blanked(a), Blanked(b), m)| == |After(a, b, d)|
    ensures Strikes(PassBoth(c, a, b), After(Blanked(a), Blanked(b), m))
  {
    hide Transform, Strikes, Blank, Pass;
    BlankPass(b, a);
    Meet(b, a, d);
    MaskPass(c, a, d, m);
    MaskPass(Pass(c, a), Pass(b, a), Apply(a.op, d).doc, Apply(Blank(a.op, PLAIN), m).doc);
  }

  lemma BlankMeet(a: Shared, b: Shared, d: seq<Cell>, m: seq<Cell>)
    requires a.Fits() && b.Fits() && a.user != b.user && |m| == |d| && Apply(a.op, d).ok && Apply(b.op, d).ok
    ensures After(Blanked(a), Blanked(b), m) == After(Blanked(b), Blanked(a), m)
  {
    hide Transform, Blank, Pass;
    BlankMatches(a.op, a.lcs, PLAIN);
    BlankMatches(b.op, b.lcs, PLAIN);
    BlankApply(a.op, PLAIN, d, m);
    BlankApply(b.op, PLAIN, d, m);
    Meet(Blanked(a), Blanked(b), m);
  }

  // ---------- Insertions ----------

  function FirstOf(x: Shared): Shared
    requires x.op.Split? && x.lcs.Split?
  {
    Shared(x.op.first, x.lcs.first, x.user)
  }

  function SecondOf(x: Shared): Shared
    requires x.op.Split? && x.lcs.Split?
  {
    Shared(x.op.second, x.lcs.second, x.user)
  }

  /** The operation past another one, and compared behind that one from now on. */
  function Advance(x: Shared, y: Shared): (r: Shared)
    ensures r.user == x.user
  {
    Shared(Pass(x, y).op, By(x.lcs, x.user, y.lcs, y.user), x.user)
  }

  lemma AdvanceInserts(x: Shared, y: Shared)
    requires x.Inserts() && x.user != y.user
    ensures Advance(x, y).Inserts() && Advance(x, y).lcs.Leaves() == x.lcs.Leaves() && Pass(x, y).Inserts()
  {
    hide Transform;
    StaysInserting(x.op, y.op, x.lcs, y.lcs, CidOf(x.user, y.user));
    Kept(x.lcs, x.user, y.lcs, y.user);
    PassFits(x, y);
    ByMatches(x.lcs, x.user, y.lcs, y.user);
    MatchesSymmetric(By(x.lcs, x.user, y.lcs, y.user), x.lcs);
    MatchesTransitive(Pass(x, y).op, x.lcs, By(x.lcs, x.user, y.lcs, y.user));
  }

  /** Passing a split operation, and a split operation that passes. */
  lemma SplitPass(x: Shared, y: Shared)
    requires x.Fits() && y.Fits() && y.op.Split? && y.lcs.Split? && x.user != y.user
    requires FirstOf(y).Fits()
    ensures Pass(x, y).op == Pass(Advance(x, FirstOf(y)), SecondOf(y)).op
    ensures Pass(y, x).op == Split(Pass(FirstOf(y), x).op, Pass(SecondOf(y), Advance(x, FirstOf(y))).op)
  {
    hide Transform;
    PassSplit(x.op, y.op, x.lcs, y.lcs, CidOf(x.user, y.user));
    SplitLcs(y.op, x.op, y.lcs, x.lcs, CidOf(y.user, x.user));
  }

  lemma InsertingParts(x: Shared)
    requires x.Inserts() && x.lcs.Split?
    ensures x.op.Split? && FirstOf(x).Inserts() && SecondOf(x).Inserts()
    ensures FirstOf(x).lcs.Leaves() + SecondOf(x).lcs.Leaves() == x.lcs.Leaves()
  {
    InsertingHasInserts(x.op);
    InsertingHasInserts(x.lcs);
  }

  /** Compared where they are or behind a third operation. */
  lemma PassLater(x: Shared, y: Shared, z: Shared)
    requires x.Inserts() && y.Inserts() && z.Inserts() && ThreeUsers(x, y, z)
    ensures Pass(Pass(x, z), Pass(y, z)).op == Pass(Advance(x, z), Advance(y, z)).op
  {
    hide Transform;
    AdvanceInserts(x, z);
    AdvanceInserts(y, z);
    LcsLater(Pass(x, z).op, Pass(y, z).op, x.lcs, x.user, y.lcs, y.user, z.lcs, z.user);
  }

  /** Inserting operations that are compared at one state pass two others in either order. */
  lemma {:induction false} InsertingLater(c: Shared, a: Shared, b: Shared)
    requires c.Inserts() && a.Inserts() && b.Inserts() && ThreeUsers(c, a, b)
    ensures PassBoth(c, a, b) == PassBoth(c, b, a)
    decreases c.lcs.Leaves() + a.lcs.Leaves() + b.lcs.Leaves()
  {
    hide Transform, Pass;
    if a.lcs.Split? {
      InsertingLaterAgainst(c, a, b);
    } else if b.lcs.Split? {
      InsertingLaterAgainst(c, b, a);
    } else if c.lcs.Split? {
      InsertingLaterSplit(c, a, b);
    } else {
      InsertionsLater(c, a, b);
    }
  }

  lemma InsertionsLater(c: Shared, a: Shared, b: Shared)
    requires c.Inserts() && a.Inserts() && b.Inserts() && ThreeUsers(c, a, b)
    requires !c.lcs.Split? && !a.lcs.Split? && !b.lcs.Split?
    ensures PassBoth(c, a, b) == PassBoth(c, b, a)
  {
    hide Transform, Pushed;
    InsertingHasInserts(c.op);
    InsertingHasInserts(a.op);
    InsertingHasInserts(b.op);
    var e := Earlier(c.lcs, a.lcs, c.lcs, b.lcs, a.lcs, b.lcs);
    InsertionsVia(c.op, c.user, a.op, a.user, b.op, b.user, e);
    InsertionsVia(c.op, c.user, b.op, b.user, a.op, a.user, e.Swap());
    OneStateNoCycle(c.op, c.user, a.op, a.user, b.op, b.user, c.lcs, a.lcs, b.lcs);
    ThreePositions(c.op.pos, a.op.pos, b.op.pos, |a.op.text|, |b.op.text|, Leads(c.lcs, c.user, a.lcs, a.user),
                   Leads(c.lcs, c.user, b.lcs, b.user), Leads(a.lcs, a.user, b.lcs, b.user));
  }

  lemma {:induction false} InsertingLaterAgainst(c: Shared, a: Shared, b: Shared)
    requires c.Inserts() && a.Inserts() && b.Inserts() && ThreeUsers(c, a, b) && a.lcs.Split?
    ensures PassBoth(c, a, b) == PassBoth(c, b, a)
    decreases c.lcs.Leaves() + a.lcs.Leaves() + b.lcs.Leaves(), 0
  {
    hide Transform, Pass;
    InsertingParts(a);
    var a1, a2 := FirstOf(a), SecondOf(a);
    AdvanceInserts(c, a1);
    AdvanceInserts(b, a1);
    var c', b' := Advance(c, a1), Advance(b, a1);
    // past `a` first
    AgainstFirst(c, a, b);
    InsertingLater(c', a2, b');
    // past `b` first
    InsertingLater(c, a1, b);
    PassLater(c, b, a1);
    AgainstSecond(c, a, b);
  }

  lemma AgainstFirst(c: Shared, a: Shared, b: Shared)
    requires c.Inserts() && a.Inserts() && b.Inserts() && ThreeUsers(c, a, b)
    requires a.op.Split? && a.lcs.Split? && FirstOf(a).Inserts() && SecondOf(a).Inserts()
    ensures PassBoth(c, a, b) == PassBoth(Advance(c, FirstOf(a)), SecondOf(a), Advance(b, FirstOf(a)))
  {
    hide Transform;
    var a1, a2 := FirstOf(a), SecondOf(a);
    AdvanceInserts(c, a1);
    AdvanceInserts(b, a1);
    SplitPass(c, a);
    SplitPass(b, a);
    var p, q := Pass(Advance(c, a1), a2), Pass(Advance(b, a1), a2);
    AdvanceInserts(Advance(c, a1), a2);
    AdvanceInserts(Advance(b, a1), a2);
    ByMatches(c.lcs, c.user, a1.lcs, a1.user);
    ByMatches(b.lcs, b.user, a1.lcs, a1.user);
    BackTo(p, c.lcs);
    BackTo(q, b.lcs);
    LcsLater(p.op, q.op, c.lcs, c.user, b.lcs, b.user, a1.lcs, a1.user);
  }

  lemma BackTo(x: Shared, lcs: Operation)
    requires x.Fits() && Matches(x.lcs, lcs)
    ensures Matches(x.op, lcs)
  {
    MatchesTransitive(x.op, x.lcs, lcs);
  }

  lemma AgainstSecond(c: Shared, a: Shared, b: Shared)
    requires c.Inserts() && a.Inserts() && b.Inserts() && ThreeUsers(c, a, b)
    requires a.op.Split? && a.lcs.Split? && FirstOf(a).Inserts() && SecondOf(a).Inserts()
    requires PassBoth(c, b, FirstOf(a)) == Pass(Advance(c, FirstOf(a)), Advance(b, FirstOf(a))).op
    ensures PassBoth(c, b, a)
      == PassBoth(Advance(c, FirstOf(a)), Advance(b, FirstOf(a)), SecondOf(a))
  {
    hide Transform;
    var ab := Pass(a, b);
    AdvanceInserts(a, b);
    AdvanceInserts(c, b);
    SplitPass(b, a);
    AdvanceInserts(FirstOf(a), b);
    SplitPass(Pass(c, b), ab);
  }

  lemma {:induction false} InsertingLaterSplit(c: Shared, a: Shared, b: Shared)
    requires c.Inserts() && a.Inserts() && b.Inserts() && ThreeUsers(c, a, b) && c.lcs.Split?
    ensures PassBoth(c, a, b) == PassBoth(c, b, a)
    decreases c.lcs.Leaves() + a.lcs.Leaves() + b.lcs.Leaves(), 0
  {
    hide Transform, Pass;
    InsertingParts(c);
    var c1, c2 := FirstOf(c), SecondOf(c);
    var a', b' := Advance(a, c1), Advance(b, c1);
    AdvanceInserts(a, c1);
    AdvanceInserts(b, c1);
    SplitPassBoth(c, a, b);
    SplitPassBoth(c, b, a);
    InsertingLater(c1, a, b);
    InsertingLater(b, a, c1);
    InsertingLater(a, b, c1);
    PassLater(b, a, c1);
    PassLater(a, b, c1);
    InsertingLater(c2, a', b');
    assert Shared(PassBoth(b, a, c1), b'.lcs, b.user) == Pass(b', a');
    assert Shared(PassBoth(a, b, c1), a'.lcs, a.user) == Pass(a', b');
  }

  /** A split operation past two others, part by part. */
  lemma SplitPassBoth(c: Shared, a: Shared, b: Shared)
    requires c.Fits() && a.Fits() && b.Fits() && ThreeUsers(c, a, b) && c.op.Split? && c.lcs.Split?
    requires FirstOf(c).Inserts() && SecondOf(c).Inserts() && a.Inserts() && b.Inserts()
    ensures PassBoth(c, a, b) == Split(PassBoth(FirstOf(c), a, b),
      Pass(Pass(SecondOf(c), Advance(a, FirstOf(c))),
           Shared(PassBoth(b, a, FirstOf(c)), By(b.lcs, b.user, c.lcs.first, c.user), b.user)).op)
  {
    hide Transform;
    var c1, c2, ca, ba := FirstOf(c), SecondOf(c), Pass(c, a), Pass(b, a);
    SplitPass(a, c);
    PassFits(c, a);
    PassFits(b, a);
    PassFits(c1, a);
    assert FirstOf(ca) == Pass(c1, a);
    SplitPass(ba, ca);
  }
}
