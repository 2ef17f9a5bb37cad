/** C2 for orderly operations at any state, as long as the deletions do not confuse the insertions. */
module OrderlyStates {
  import opened Ropes
  import opened Operations
  import opened Striking
  import opened ThreeWay
  import opened PureOperations
  import opened EarlierStates
  import opened OrderlyOperations
  import opened LaterStates
  import opened SteadyOrders

  /** An orderly operation that is compared with an orderly earlier state. */
  predicate InOrder(x: Shared) {
    && x.Fits() && Orderly(x.op) && Orderly(x.lcs)
    && (Mixed(x.op) ==> Mixed(x.lcs))
    && (Inserting(x.op) ==> Inserting(x.lcs))
  }

  predicate HasInserts(x: Shared) {
    x.op.Inserts() > 0
  }

  /** What an orderly operation inserts. */
  function Insertion(x: Shared): (r: Shared)
    requires InOrder(x) && HasInserts(x)
    ensures r.Inserts() && r.user == x.user
  {
    InsertingOrMixed(x);
    if Mixed(x.op) then FirstOf(x) else x
  }

  lemma InsertingOrMixed(x: Shared)
    requires InOrder(x) && HasInserts(x)
    ensures Mixed(x.op) ==> x.lcs.Split? && FirstOf(x).Inserts()
    ensures !Mixed(x.op) ==> x.Inserts()
  {
    if Mixed(x.op) {
      InsertingHasInserts(x.op.first);
    }
  }

  /** The deletions of `z` do not confuse the insertions of `p` and `q`. */
  ghost predicate Keeps(p: Shared, q: Shared, z: Shared, d: seq<Cell>)
    requires p.Inserts() && q.Inserts() && ThreeUsers(p, q, z) && InOrder(z)
  {
    if z.op.Inserts() == 0 then
      exists m :: |m| == |d| && Strikes(z.op, m) && Steady(p, q, m)
    else if Mixed(z.op) then
      InsertingOrMixed(z);
      AdvanceInserts(p, FirstOf(z));
      AdvanceInserts(q, FirstOf(z));
      exists m :: |m| == |Apply(z.op.first, d).doc| && Strikes(z.op.second, m)
                  && Steady(Advance(p, FirstOf(z)), Advance(q, FirstOf(z)), m)
    else
      true
  }

  // ---------- Orderly operations stay orderly ----------

  lemma KindsDiffer(op: Operation)
    ensures Inserting(op) ==> op.Inserts() > 0 && !Mixed(op)
    ensures Mixed(op) ==> op.Inserts() > 0
  {
    if Inserting(op) {
      InsertingHasInserts(op);
      if op.Split? {
        InsertingHasInserts(op.second);
      }
    } else if Mixed(op) {
      InsertingHasInserts(op.first);
    }
  }

  lemma TransformKeepsKind(op: Operation, against: Operation, opLcs: Operation, agLcs: Operation, cid: Cid)
    requires Orderly(op)
    ensures var r := Transform(op, against, opLcs, agLcs, cid);
      && Orderly(r) && (Mixed(r) <==> Mixed(op)) && (Inserting(r) <==> Inserting(op)) && r.Inserts() == op.Inserts()
  {
    hide Transform;
    var r := Transform(op, against, opLcs, agLcs, cid);
    KindsDiffer(op);
    KindsDiffer(r);
    Smaller(op, against, opLcs, agLcs, cid);
    if Inserting(op) {
      StaysInserting(op, against, opLcs, agLcs, cid);
    } else if Mixed(op) {
      StaysMixed(op, against, opLcs, agLcs, cid);
    }
  }

  lemma StaysInOrder(x: Shared, y: Shared)
    requires InOrder(x)
    ensures InOrder(Pass(x, y)) && InOrder(Advance(x, y))
    ensures Mixed(Pass(x, y).op) <==> Mixed(x.op)
    ensures Inserting(Pass(x, y).op) <==> Inserting(x.op)
    ensures Pass(x, y).op.Inserts() == x.op.Inserts()
  {
    hide Transform, Orderly;
    TransformKeepsKind(x.op, y.op, x.lcs, y.lcs, CidOf(x.user, y.user));
    TransformKeepsKind(x.lcs, y.lcs, x.lcs, y.lcs, CidOf(x.user, y.user));
    PassFits(x, y);
    BothMatch(x.op, y.op, x.lcs, y.lcs, CidOf(x.user, y.user), x.lcs, y.lcs);
  }

  // ---------- An inserting operation that passes two others ----------

  /** The same operation, compared behind a third one. */
  function Rebase(x: Shared, z: Shared): (r: Shared)
    ensures r.op == x.op && r.user == x.user
  {
    x.(lcs := By(x.lcs, x.user, z.lcs, z.user))
  }

  lemma RebaseInserts(x: Shared, z: Shared)
    requires x.Inserts()
    ensures Rebase(x, z).Inserts()
  {
    hide Transform;
    Kept(x.lcs, x.user, z.lcs, z.user);
    ByMatches(x.lcs, x.user, z.lcs, z.user);
    MatchesSymmetric(By(x.lcs, x.user, z.lcs, z.user), x.lcs);
    MatchesTransitive(x.op, x.lcs, By(x.lcs, x.user, z.lcs, z.user));
  }

  /** Comparing behind a third inserting operation makes no difference. */
  lemma RebasePass(x: Shared, y: Shared, z: Shared)
    requires x.Inserts() && InOrder(y) && z.Inserts() && ThreeUsers(x, y, z)
    ensures Pass(x, y).op == Pass(Rebase(x, z), Rebase(y, z)).op
  {
    hide Transform;
    if y.op.Inserts() == 0 {
      PassDeletion(x, y);
      PassDeletion(Rebase(x, z), Rebase(y, z));
    } else if Mixed(y.op) {
      InsertingOrMixed(y);
      var y1, y2 := FirstOf(y), SecondOf(y);
      RebaseInserts(x, z);
      RebaseInserts(y1, z);
      BySplit(y.lcs, y.user, z.lcs, z.user);
      ByMatches(y.lcs, y.user, z.lcs, z.user);
      MatchesSymmetric(By(y.lcs, y.user, z.lcs, z.user), y.lcs);
      MatchesTransitive(y.op, y.lcs, By(y.lcs, y.user, z.lcs, z.user));
      SplitPass(x, y);
      SplitPass(Rebase(x, z), Rebase(y, z));
      LcsLater(x.op, y1.op, x.lcs, x.user, y1.lcs, y.user, z.lcs, z.user);
      SameDeletion(Advance(x, y1), y2, Advance(Rebase(x, z), FirstOf(Rebase(y, z))), SecondOf(Rebase(y, z)));
    } else {
      InsertingOrMixed(y);
      LcsLater(x.op, y.op, x.lcs, x.user, y.lcs, y.user, z.lcs, z.user);
    }
  }

  /** The mixed operation `a` is passed first: its insertions, then its deletions. */
  lemma MixedFirst(x: Shared, a: Shared, b: Shared)
    requires x.Inserts() && InOrder(a) && InOrder(b) && ThreeUsers(x, a, b) && Mixed(a.op)
    ensures a.lcs.Split? && FirstOf(a).Inserts()
    ensures PassBoth(x, a, b) == PassBoth(Advance(x, FirstOf(a)), SecondOf(a), Advance(b, FirstOf(a)))
  {
    hide Transform, InOrder;
    FitsInOrder(a);
    FitsInOrder(b);
    var a1, a2 := FirstOf(a), SecondOf(a);
    FirstInserts(a);
    SplitPass(x, a);
    SplitPass(b, a);
    AdvanceInserts(x, a);
    StaysInOrder(b, a);
    RebasePass(Pass(x, a), Pass(b, a), a1);
  }

  lemma FitsInOrder(x: Shared)
    requires InOrder(x)
    ensures x.Fits() && (Mixed(x.op) ==> x.lcs.Split?)
  {
  }

  lemma FirstInserts(x: Shared)
    requires InOrder(x) && Mixed(x.op)
    ensures x.lcs.Split? && FirstOf(x).Inserts() && SecondOf(x).op.Inserts() == 0
  {
    KindsDiffer(x.op);
    InsertingOrMixed(x);
  }

  /** The mixed operation `a` is passed last. */
  lemma MixedLast(x: Shared, a: Shared, b: Shared)
    requires x.Inserts() && InOrder(a) && InOrder(b) && ThreeUsers(x, a, b) && Mixed(a.op)
    requires a.lcs.Split? && PassBoth(x, b, FirstOf(a)) == PassBoth(x, FirstOf(a), b)
    ensures PassBoth(x, b, a) == PassBoth(Advance(x, FirstOf(a)), Advance(b, FirstOf(a)), SecondOf(a))
  {
    hide Transform, InOrder;
    FitsInOrder(a);
    FitsInOrder(b);
    FirstInserts(a);
    var a1, a2 := FirstOf(a), SecondOf(a);
    AdvanceInserts(x, b);
    AdvanceInserts(x, a1);
    AdvanceInserts(a1, b);
    StaysInOrder(b, a1);
    SplitPass(b, a);
    PassFits(a, b);
    SplitPass(Pass(x, b), Pass(a, b));
    RebasePass(Pass(x, a1), Pass(b, a1), a1);
    DeletionsOnly(a2, Advance(b, a1));
    SameDeletion(Advance(Pass(x, b), Pass(a1, b)), Pass(a2, Advance(b, a1)),
                 Pass(Advance(x, a1), Advance(b, a1)), Pass(a2, Advance(b, a1)));
  }

  lemma PastDeletions(x: Shared, a: Shared, b: Shared, d: seq<Cell>)
    requires x.Inserts() && a.op.Inserts() == 0 && b.op.Inserts() == 0 && ThreeUsers(x, a, b)
    requires Apply(x.op, d).ok && Apply(a.op, d).ok && Apply(b.op, d).ok
    ensures PassBoth(x, a, b) == PassBoth(x, b, a)
  {
    hide Transform, Strikes;
    var ma := MaskExists(a.op, d);
    var mb := MaskExists(b.op, d);
    PastTwoDeletions(x.op, x.user, a.op, a.user, b.op, b.user, d, ma, mb);
    PassDeletion(x, a);
    PassDeletion(x, b);
    PassDeleting(a, b);
    PassDeleting(b, a);
    PassDeletion(Pass(x, a), Pass(b, a));
    PassDeletion(Pass(x, b), Pass(a, b));
  }

  /** The deletions of neither operation confuse the insertions of the other one and those of `x`. */
  ghost predicate Undisturbed(x: Shared, a: Shared, b: Shared, d: seq<Cell>)
    requires x.Inserts() && InOrder(a) && InOrder(b) && ThreeUsers(x, a, b)
  {
    && (HasInserts(a) ==> Keeps(x, Insertion(a), b, d))
    && (HasInserts(b) ==> Keeps(x, Insertion(b), a, d))
  }

  lemma InsertionAdvance(x: Shared, y: Shared)
    requires InOrder(x) && HasInserts(x) && y.Inserts() && x.user != y.user
    ensures InOrder(Advance(x, y)) && HasInserts(Advance(x, y))
    ensures Insertion(Advance(x, y)) == Advance(Insertion(x), y)
  {
    hide Transform;
    StaysInOrder(x, y);
    if Mixed(x.op) {
      FirstInserts(x);
      SplitPass(y, x);
      BySplit(x.lcs, x.user, y.lcs, y.user);
    }
  }

  /** The parts of a mixed operation are orderly themselves. */
  lemma PartsInOrder(a: Shared)
    requires InOrder(a) && Mixed(a.op)
    ensures a.lcs.Split? && FirstOf(a).Inserts() && InOrder(FirstOf(a)) && InOrder(SecondOf(a))
    ensures HasInserts(a) && HasInserts(FirstOf(a)) && !Mixed(FirstOf(a).op)
    ensures Insertion(a) == FirstOf(a) && Insertion(FirstOf(a)) == FirstOf(a)
    ensures SecondOf(a).op.Inserts() == 0 && !Mixed(SecondOf(a).op)
  {
    FirstInserts(a);
    KindsDiffer(a.op);
    KindsDiffer(a.op.first);
    KindsDiffer(a.op.second);
    KindsDiffer(a.lcs.first);
    KindsDiffer(a.lcs.second);
  }

  function Mixes(x: Shared): nat {
    if Mixed(x.op) then 1 else 0
  }

  /** An inserting operation that passes two orderly ones becomes the same in either order. */
  lemma {:induction false} InsertingPasses(x: Shared, a: Shared, b: Shared, d: seq<Cell>)
    requires x.Inserts() && InOrder(a) && InOrder(b) && ThreeUsers(x, a, b)
    requires Apply(x.op, d).ok && Apply(a.op, d).ok && Apply(b.op, d).ok && Undisturbed(x, a, b, d)
    ensures PassBoth(x, a, b) == PassBoth(x, b, a)
    decreases Mixes(a) + Mixes(b), 1
  {
    hide Transform, Pass, Strikes, Steady, Orderly;
    if Mixed(a.op) {
      InsertingPassesMixed(x, a, b, d);
    } else if Mixed(b.op) {
      InsertingPassesMixed(x, b, a, d);
    } else if a.op.Inserts() == 0 && b.op.Inserts() == 0 {
      PastDeletions(x, a, b, d);
    } else if a.op.Inserts() == 0 {
      InsertingOrMixed(b);
      var m :| |m| == |d| && Strikes(a.op, m) && Steady(x, b, m);
      AppliesAlike(x.op, m, d);
      AppliesAlike(b.op, m, d);
      DeletionBetween(x, b, a, m);
    } else if b.op.Inserts() == 0 {
      InsertingOrMixed(a);
      var m :| |m| == |d| && Strikes(b.op, m) && Steady(x, a, m);
      AppliesAlike(x.op, m, d);
      AppliesAlike(a.op, m, d);
      DeletionBetween(x, a, b, m);
    } else {
      InsertingOrMixed(a);
      InsertingOrMixed(b);
      InsertingLater(x, a, b);
    }
  }

  lemma {:induction false} InsertingPassesMixed(x: Shared, a: Shared, b: Shared, d: seq<Cell>)
    requires x.Inserts() && InOrder(a) && InOrder(b) && ThreeUsers(x, a, b) && Mixed(a.op)
    requires Apply(x.op, d).ok && Apply(a.op, d).ok && Apply(b.op, d).ok && Undisturbed(x, a, b, d)
    ensures PassBoth(x, a, b) == PassBoth(x, b, a)
    decreases Mixes(a) + Mixes(b), 0
  {
    hide Transform, Pass, Strikes, Steady, InOrder;
    PartsInOrder(a);
    var a1, a2, d1 := FirstOf(a), SecondOf(a), Apply(a.op.first, d).doc;
    var x1, b1 := Advance(x, a1), Advance(b, a1);
    FitsInOrder(b);
    assert Undisturbed(x, a1, b, d);
    InsertingPasses(x, a1, b, d);
    MixedFirst(x, a, b);
    MixedLast(x, a, b);
    AdvanceInserts(x, a1);
    StaysInOrder(b, a1);
    Meet(x, a1, d);
    Meet(b, a1, d);
    assert Undisturbed(x1, a2, b1, d1) by {
      if HasInserts(b1) {
        InsertionAdvance(b, a1);
        AdvanceInserts(Insertion(b), a1);
        assert Keeps(x, Insertion(b), a, d);
        var m :| |m| == |d1| && Strikes(a2.op, m) && Steady(x1, Advance(Insertion(b), a1), m);
      }
    }
    InsertingPasses(x1, a2, b1, d1);
  }

  // ---------- The deletions of a mixed operation ----------

  /** The deletions of `c` past `a` and `b`, as its insertions have left these. */
  function Rest(c: Shared, a: Shared, b: Shared): Operation
    requires c.op.Split? && c.lcs.Split?
  {
    By(By(c.op.second, c.user, Pass(a, FirstOf(c)).op, a.user), c.user, PassBoth(b, a, FirstOf(c)), b.user)
  }

  /** A mixed operation past two others: its insertions, then its deletions. */
  lemma MixedPassBoth(c: Shared, a: Shared, b: Shared)
    requires InOrder(c) && Mixed(c.op) && a.Fits() && b.Fits() && ThreeUsers(c, a, b)
    ensures c.lcs.Split? && PassBoth(c, a, b) == Split(PassBoth(FirstOf(c), a, b), Rest(c, a, b))
  {
    hide Transform, Orderly;
    FirstInserts(c);
    var c1, c2 := FirstOf(c), SecondOf(c);
    SplitPass(a, c);
    PassFits(c, a);
    PassFits(b, a);
    PassFits(c1, a);
    assert FirstOf(Pass(c, a)) == Pass(c1, a);
    SplitPass(Pass(b, a), Pass(c, a));
    PassDeleting(c2, Advance(a, c1));
    PassDeleting(SecondOf(Pass(c, a)), Advance(Pass(b, a), Pass(c1, a)));
  }

  /** One way of the deletions: passing what `b` becomes behind `a` and `c` is like passing what it becomes
      behind `c` and `a`. */
  lemma OneWay(c: Shared, a: Shared, b: Shared, d: seq<Cell>, m: seq<Cell>) returns (n: seq<Cell>)
    requires InOrder(c) && Mixed(c.op) && c.lcs.Split? && a.Fits() && b.Fits() && ThreeUsers(c, a, b)
    requires Apply(c.op, d).ok && Apply(a.op, d).ok && Apply(b.op, d).ok
    requires |m| == |Apply(c.op.first, d).doc| && Strikes(c.op.second, m)
    requires Alike(PassBoth(b, a, FirstOf(c)), PassBoth(b, FirstOf(c), a), |After(a, FirstOf(c), d)|)
    ensures Strikes(Rest(c, a, b), n)
    ensures Strikes(PassBoth(SecondOf(c), Pass(a, FirstOf(c)), Pass(b, FirstOf(c))), n)
    ensures |n| == |Apply(PassBoth(FirstOf(c), a, b), After(a, b, d)).doc|
  {
    hide Transform, Strikes, Alike, Orderly, Blank, Pass;
    FirstInserts(c);
    var c1, c2, d1 := FirstOf(c), SecondOf(c), Apply(c.op.first, d).doc;
    var a' := Pass(a, c1);
    Meet(a, c1, d);
    MeetThird(c1, a, b, d);
    MaskPass(c2, a', d1, m);
    PassDeleting(c2, a');
    n := PassAlike(Pass(c2, a').op, c.user, PassBoth(b, a, c1), PassBoth(b, c1, a), b.user, Apply(a'.op, d1).doc,
                   Apply(Blank(a'.op, PLAIN), m).doc);
    PassDeleting(Pass(c2, a'), Pass(Pass(b, c1), a'));
  }

  lemma AlikeThrough(x: Operation, y: Operation, z: Operation, n: nat)
    requires Alike(x, y, n) && Alike(y, z, n)
    ensures Alike(x, z, n)
  {
  }

  /** Both ways of the deletions do the same. */
  lemma BothWays(c: Shared, a: Shared, b: Shared, d: seq<Cell>)
    requires InOrder(c) && Mixed(c.op) && c.lcs.Split? && a.Fits() && b.Fits() && ThreeUsers(c, a, b)
    requires Apply(c.op, d).ok && Apply(a.op, d).ok && Apply(b.op, d).ok
    requires Alike(PassBoth(b, a, FirstOf(c)), PassBoth(b, FirstOf(c), a), |After(a, FirstOf(c), d)|)
    requires Alike(PassBoth(a, b, FirstOf(c)), PassBoth(a, FirstOf(c), b), |After(b, FirstOf(c), d)|)
    requires PassBoth(FirstOf(c), a, b) == PassBoth(FirstOf(c), b, a)
    ensures Alike(Rest(c, a, b), Rest(c, b, a), |Apply(PassBoth(FirstOf(c), a, b), After(a, b, d)).doc|)
    ensures Rest(c, a, b).Inserts() == 0 && Rest(c, b, a).Inserts() == 0
  {
    hide Transform, Strikes, Alike, Orderly, Blank, Pass, Rest;
    FirstInserts(c);
    var c1, c2, d1 := FirstOf(c), SecondOf(c), Apply(c.op.first, d).doc;
    var a', b' := Pass(a, c1), Pass(b, c1);
    var m := MaskExists(c2.op, d1);
    MeetThird(c1, a, b, d);
    Meet(a, c1, d);
    Meet(b, c1, d);
    PassFits(a, c1);
    PassFits(b, c1);
    var n := OneWay(c, a, b, d, m);
    var k := OneWay(c, b, a, d, m);
    DeletionWay(c2, a', b', d1, m);
    DeletionWay(c2, b', a', d1, m);
    BlankMeet(a', b', d1, m);
    SameMaskAlike(Rest(c, a, b), PassBoth(c2, a', b'), n);
    SameMaskAlike(PassBoth(c2, a', b'), PassBoth(c2, b', a'), After(Blanked(a'), Blanked(b'), m));
    SameMaskAlike(PassBoth(c2, b', a'), Rest(c, b, a), k);
    NoInserts(Rest(c, a, b), n);
    NoInserts(Rest(c, b, a), k);
    AlikeLength(PassBoth(b, a, c1), PassBoth(b, c1, a), After(a, c1, d));
    AlikeThrough(Rest(c, a, b), PassBoth(c2, a', b'), PassBoth(c2, b', a'), |n|);
    AlikeThrough(Rest(c, a, b), PassBoth(c2, b', a'), Rest(c, b, a), |n|);
  }

  // ---------- C2 ----------

  /** The deletions of `z` do not confuse the insertions of `x` and `y`. */
  ghost predicate Harmless(x: Shared, y: Shared, z: Shared, d: seq<Cell>)
    requires InOrder(x) && InOrder(y) && InOrder(z) && ThreeUsers(x, y, z)
  {
    HasInserts(x) && HasInserts(y) ==>
      Keeps(Insertion(x), Insertion(y), z, d) && Keeps(Insertion(y), Insertion(x), z, d)
  }

  lemma InsertsInOrder(x: Shared)
    requires x.Inserts()
    ensures InOrder(x) && HasInserts(x) && Insertion(x) == x && !Mixed(x.op)
  {
    KindsDiffer(x.op);
    KindsDiffer(x.lcs);
  }

  /** Behind an orderly operation `a` and an inserting one, an orderly operation does the same, in whatever
      order it passes them. */
  lemma {:induction false} PassesAlike(b: Shared, a: Shared, x: Shared, d: seq<Cell>)
    requires InOrder(b) && InOrder(a) && x.Inserts() && ThreeUsers(b, a, x)
    requires Apply(b.op, d).ok && Apply(a.op, d).ok && Apply(x.op, d).ok
    requires HasInserts(b) ==> Keeps(Insertion(b), x, a, d) && Keeps(x, Insertion(b), a, d)
    ensures Alike(PassBoth(b, a, x), PassBoth(b, x, a), |After(a, x, d)|)
    decreases Mixes(b) + Mixes(a)
  {
    hide Transform, Pass, Strikes, Orderly, Alike;
    InsertsInOrder(x);
    FitsInOrder(a);
    FitsInOrder(b);
    if b.op.Inserts() == 0 {
      var m := MaskExists(b.op, d);
      DeletionWay(b, a, x, d, m);
      DeletionWay(b, x, a, d, m);
      BlankMeet(a, x, d, m);
      SameMaskAlike(PassBoth(b, a, x), PassBoth(b, x, a), After(Blanked(a), Blanked(x), m));
    } else if Mixed(b.op) {
      MixedPassesAlike(b, a, x, d);
    } else {
      InsertingOrMixed(b);
      assert Undisturbed(b, a, x, d);
      InsertingPasses(b, a, x, d);
      AlikeSelf(PassBoth(b, a, x), |After(a, x, d)|);
    }
  }

  lemma AlikeSelf(x: Operation, n: nat)
    ensures Alike(x, x, n)
  {
  }

  lemma AlikeSymmetric(x: Operation, y: Operation, n: nat)
    requires Alike(x, y, n)
    ensures Alike(y, x, n)
  {
  }

  lemma {:induction false} MixedPassesAlike(b: Shared, a: Shared, x: Shared, d: seq<Cell>)
    requires InOrder(b) && InOrder(a) && x.Inserts() && ThreeUsers(b, a, x) && Mixed(b.op)
    requires Apply(b.op, d).ok && Apply(a.op, d).ok && Apply(x.op, d).ok
    requires HasInserts(b) ==> Keeps(Insertion(b), x, a, d) && Keeps(x, Insertion(b), a, d)
    ensures Alike(PassBoth(b, a, x), PassBoth(b, x, a), |After(a, x, d)|)
    decreases Mixes(b) + Mixes(a), 0
  {
    hide Transform, Pass, Strikes, Orderly, Alike, InOrder, Rest;
    PartsInOrder(b);
    InsertsInOrder(x);
    FitsInOrder(a);
    var b1 := FirstOf(b);
    assert Undisturbed(b1, a, x, d) && Undisturbed(x, a, b1, d);
    InsertingPasses(b1, a, x, d);
    InsertingPasses(x, a, b1, d);
    PassesAlike(a, b1, x, d);
    FitsInOrder(b);
    AlikeSelf(PassBoth(x, a, b1), |After(a, b1, d)|);
    Meet(x, b1, d);
    AlikeSymmetric(PassBoth(a, b1, x), PassBoth(a, x, b1), |After(b1, x, d)|);
    BothWays(b, a, x, d);
    MixedPassBoth(b, a, x);
    MixedPassBoth(b, x, a);
    AlikeSplit(PassBoth(b1, a, x), Rest(b, a, x), Rest(b, x, a), After(a, x, d));
  }

  /** C2 for orderly operations at a state where the deletions do not confuse the insertions. */
  lemma {:induction false} OrderlyAgree(c: Shared, a: Shared, b: Shared, d: seq<Cell>)
    requires InOrder(c) && InOrder(a) && InOrder(b) && ThreeUsers(c, a, b)
    requires Apply(c.op, d).ok && Apply(a.op, d).ok && Apply(b.op, d).ok
    requires Harmless(c, a, b, d) && Harmless(c, b, a, d)
    ensures Agree(c, a, b, d)
  {
    hide Transform, Pass, Strikes, Orderly, Alike, Rest, Apply, After;
    FitsInOrder(a);
    FitsInOrder(b);
    MeetThird(c, a, b, d);
    if c.op.Inserts() == 0 {
      DeletionLater(c, a, b, d);
    } else if Mixed(c.op) {
      MixedAgree(c, a, b, d);
    } else {
      InsertingOrMixed(c);
      assert Undisturbed(c, a, b, d);
      InsertingPasses(c, a, b, d);
    }
  }

  lemma MixedAgree(c: Shared, a: Shared, b: Shared, d: seq<Cell>)
    requires InOrder(c) && InOrder(a) && InOrder(b) && ThreeUsers(c, a, b) && Mixed(c.op)
    requires Apply(c.op, d).ok && Apply(a.op, d).ok && Apply(b.op, d).ok
    requires Harmless(c, a, b, d) && Harmless(c, b, a, d)
    ensures Agree(c, a, b, d)
  {
    hide Transform, Pass, Strikes, Orderly, InOrder, Rest, After, Blank;
    PartsInOrder(c);
    FitsInOrder(a);
    FitsInOrder(b);
    FitsInOrder(c);
    var c1, doc := FirstOf(c), After(a, b, d);
    assert Undisturbed(c1, a, b, d);
    InsertingPasses(c1, a, b, d);
    PassesAlike(b, a, c1, d);
    PassesAlike(a, b, c1, d);
    BothWays(c, a, b, d);
    MeetThird(c, a, b, d);
    MixedPassBoth(c, a, b);
    MixedPassBoth(c, b, a);
    var e, s, t := Apply(PassBoth(c1, a, b), doc).doc, Rest(c, a, b), Rest(c, b, a);
    BlankApply(s, PLAIN, e, e);
    BlankApply(t, PLAIN, e, e);
    assert Apply(s, e) == Apply(t, e);
  }
}
