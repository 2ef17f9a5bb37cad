/** What a deletion does to the order of insertions.

    Insertions that a deletion brings to one place are put in the order that they had at an earlier state.
    This is the order they had before the deletion, unless the deletion removed everything between two
    insertions that stood the other way around. */
module SteadyOrders {
  import opened Ropes
  import opened Operations
  import opened Striking
  import opened ThreeWay
  import opened PureOperations
  import opened EarlierStates
  import opened OrderlyOperations
  import opened Replacements
  import opened PairStates
  import opened LaterStates

  /** The mask behind an operation of which the text is plain. */
  function Plain(m: seq<Cell>, op: Operation): seq<Cell> {
    Apply(Blank(op, PLAIN), m).doc
  }

  /** There is plain text between the positions. */
  ghost predicate Apart(m: seq<Cell>, p: nat, q: nat) {
    exists i :: p <= i < q && i < |m| && m[i].author == 0
  }

  /** Two insertions that stand the other way around than at the earlier state are kept apart. */
  ghost predicate SteadyPair(p: Shared, q: Shared, m: seq<Cell>)
    requires p.op.Insert? && q.op.Insert? && p.lcs.Insert? && q.lcs.Insert?
  {
    && (p.op.pos < q.op.pos && !Leads(p.lcs, p.user, q.lcs, q.user) ==> Apart(m, p.op.pos, q.op.pos))
    && (q.op.pos < p.op.pos && !Leads(q.lcs, q.user, p.lcs, p.user) ==> Apart(m, q.op.pos, p.op.pos))
  }

  /** The same for all insertions of two operations. */
  ghost predicate Steady(p: Shared, q: Shared, m: seq<Cell>)
    requires p.Inserts() && q.Inserts() && p.user != q.user
    decreases p.lcs.Leaves() + q.lcs.Leaves()
  {
    InsertingHasInserts(p.lcs);
    InsertingHasInserts(q.lcs);
    if q.lcs.Split? then
      AdvanceInserts(p, FirstOf(q));
      Steady(p, FirstOf(q), m) && Steady(Advance(p, FirstOf(q)), SecondOf(q), Plain(m, q.op.first))
    else if p.lcs.Split? then
      AdvanceInserts(q, FirstOf(p));
      Steady(FirstOf(p), q, m) && Steady(SecondOf(p), Advance(q, FirstOf(p)), Plain(m, p.op.first))
    else
      SteadyPair(p, q, m)
  }

  // ---------- Whether operations apply ----------

  lemma Applies(op: Operation, c: Cell, m: seq<Cell>)
    ensures Apply(Blank(op, c), m).ok == Apply(op, m).ok
  {
    BlankApply(op, c, m, m);
  }

  lemma AppliesAlike(op: Operation, l: seq<Cell>, d: seq<Cell>)
    requires |l| == |d|
    ensures Apply(op, l).ok == Apply(op, d).ok
  {
    BlankApply(op, PLAIN, l, d);
    Applies(op, PLAIN, d);
  }

  lemma BehindApplies(x: Shared, y: Shared, m: seq<Cell>)
    requires x.Fits() && y.Fits() && x.user != y.user && Apply(x.op, m).ok && Apply(y.op, m).ok
    ensures Apply(Advance(x, y).op, Plain(m, y.op)).ok
  {
    hide Transform, Blank;
    Meet(x, y, m);
    BlankApply(y.op, PLAIN, m, m);
    BlankApply(Pass(x, y).op, PLAIN, Apply(y.op, m).doc, Plain(m, y.op));
    Applies(Pass(x, y).op, PLAIN, Plain(m, y.op));
  }

  lemma PartApplies(x: Shared, m: seq<Cell>)
    requires x.op.Split? && Apply(x.op, m).ok
    ensures Apply(x.op.first, m).ok && Apply(x.op.second, Plain(m, x.op.first)).ok
  {
    hide Blank;
    BlankApply(x.op.first, PLAIN, m, m);
    BlankApply(x.op.second, PLAIN, Apply(x.op.first, m).doc, Plain(m, x.op.first));
    Applies(x.op.second, PLAIN, Plain(m, x.op.first));
  }

  // ---------- A deletion between two inserting operations ----------

  /** A deletion that does not delete everything between two positions keeps them apart. */
  lemma PastApart(z: Operation, d: seq<Cell>, m: seq<Cell>, p: nat, q: nat)
    requires |m| == |d| && Strikes(z, m) && p <= q <= |d| && Apart(m, p, q)
    ensures Past(z, p) < Past(z, q)
  {
    hide Past, Strikes, Keep;
    var i :| p <= i < q && i < |m| && m[i].author == 0;
    PastMonotone(z, p, i) by { NoInserts(z, m); }
    PastMonotone(z, i + 1, q);
    StrikesPast(z, d, m, i);
    StrikesPast(z, d, m, i + 1);
    assert d[..i + 1] == d[..i] + [d[i]] && m[..i + 1] == m[..i] + [m[i]];
    KeepJoin(d[..i], m[..i], [d[i]], [m[i]]);
    KeepClear([d[i]], [m[i]]);
  }

  /** Two insertions and a deletion: the deletion may be passed first or last. */
  lemma InsertionsBetween(p: Shared, q: Shared, z: Shared, d: seq<Cell>, m: seq<Cell>)
    requires p.op.Insert? && q.op.Insert? && p.lcs.Insert? && q.lcs.Insert? && ThreeUsers(p, q, z)
    requires |m| == |d| && Strikes(z.op, m) && Apply(p.op, d).ok && Apply(q.op, d).ok && SteadyPair(p, q, m)
    ensures PassBoth(p, z, q) == PassBoth(p, q, z)
  {
    hide Transform, Strikes, Past, Apart, Leads;
    NoInserts(z.op, m);
    var i, k, n, first := q.op.pos, p.op.pos, |q.op.text|, Leads(p.lcs, p.user, q.lcs, q.user);
    InsertPastDeletion(p.op, z.op, p.lcs, z.lcs, CidOf(p.user, z.user));
    InsertPastDeletion(q.op, z.op, q.lcs, z.lcs, CidOf(q.user, z.user));
    PastWith(Pass(p, z).op, p.lcs, p.user, Pass(q, z).op, q.lcs, q.user);
    PastWith(p.op, p.lcs, p.user, q.op, q.lcs, q.user);
    PassDeleting(z, q);
    InsertPastDeletion(Pass(p, q).op, Pass(z, q).op, p.lcs, z.lcs, CidOf(p.user, z.user));
    var cid := CidOf(z.user, q.user);
    if k < i || (k == i && first) {
      PastBeforeInserted(q.op, z.op, cid, d, m, k);
      PastMonotone(z.op, k, i);
      if k < i && !first {
        PastApart(z.op, d, m, k, i);
      }
    } else {
      PastBehindInserted(q.op, z.op, cid, d, m, k);
      PastMonotone(z.op, i, k);
      if i < k && first {
        LeadsOnce(p, q);
        PastApart(z.op, d, m, i, k);
      }
    }
  }

  lemma LeadsOnce(p: Shared, q: Shared)
    requires p.lcs.Insert? && q.lcs.Insert? && Leads(p.lcs, p.user, q.lcs, q.user)
    ensures !Leads(q.lcs, q.user, p.lcs, p.user)
  {
  }

  lemma PassDeletion(x: Shared, z: Shared)
    requires z.op.Inserts() == 0
    ensures Pass(x, z).op == By(x.op, x.user, z.op, z.user)
  {
    hide Transform;
    LcsIrrelevant(x.op, z.op, x.lcs, z.lcs, CidOf(x.user, z.user), CidOf(x.user, z.user));
  }

  lemma SameDeletion(x: Shared, z: Shared, y: Shared, s: Shared)
    requires z.op.Inserts() == 0 && x.op == y.op && x.user == y.user && z.op == s.op && z.user == s.user
    ensures Pass(x, z).op == Pass(y, s).op
  {
    hide Transform;
    PassDeletion(x, z);
    PassDeletion(y, s);
  }

  lemma DeletionsOnly(z: Shared, q: Shared)
    requires z.op.Inserts() == 0
    ensures Pass(z, q).op.Inserts() == 0
  {
    PassDeleting(z, q);
  }

  /** The parts of an operation that passes a deletion. */
  lemma PartsBehindDeletion(q: Shared, z: Shared)
    requires q.Fits() && z.Fits() && q.user != z.user && z.op.Inserts() == 0
    requires q.op.Split? && q.lcs.Split? && FirstOf(q).Fits()
    ensures Pass(q, z).op.Split?
    ensures FirstOf(Pass(q, z)) == Pass(FirstOf(q), z)
    ensures SecondOf(Pass(q, z)) == Pass(SecondOf(q), Pass(z, FirstOf(q)))
  {
    hide Transform;
    SplitPass(z, q);
    DeletionsOnly(z, FirstOf(q));
    SameDeletion(SecondOf(q), Advance(z, FirstOf(q)), SecondOf(q), Pass(z, FirstOf(q)));
  }

  /** A deletion that passes a split operation. */
  lemma DeletionPastParts(z: Shared, q: Shared)
    requires q.Fits() && z.Fits() && q.user != z.user && z.op.Inserts() == 0
    requires q.op.Split? && q.lcs.Split? && FirstOf(q).Fits()
    ensures Pass(z, q).op == Pass(Pass(z, FirstOf(q)), SecondOf(q)).op
  {
    hide Transform;
    SplitPass(z, q);
    DeletionsOnly(z, FirstOf(q));
    PassDeleting(Advance(z, FirstOf(q)), SecondOf(q));
    PassDeleting(Pass(z, FirstOf(q)), SecondOf(q));
  }

  /** The parts of an operation that passes a deletion, without regard to earlier states. */
  lemma DeletionPastSplit(x: Shared, x1: Shared, x2: Shared, z: Shared)
    requires x.op == Split(x1.op, x2.op) && x.user == x1.user == x2.user && x.user != z.user && z.op.Inserts() == 0
    ensures Pass(x, z).op == Split(Pass(x1, z).op, By(x2.op, x.user, By(z.op, z.user, x1.op, x.user), z.user))
  {
    hide Transform;
    PassDeletion(x, z);
    PassDeletion(x1, z);
    BySplit(x.op, x.user, z.op, z.user);
  }

  /** Behind the first part of the other operation, when the deletion was passed before. */
  lemma AdvanceBehind(p: Shared, q: Shared, z: Shared)
    requires z.op.Inserts() == 0 && PassBoth(p, z, q) == PassBoth(p, q, z)
    ensures Advance(Pass(p, z), Pass(q, z)) == Pass(Advance(p, q), Pass(z, q))
  {
    hide Transform;
    PassDeleting(z, q);
    PassDeletion(Advance(p, q), Pass(z, q));
    PassDeletion(Pass(p, q), Pass(z, q));
  }

  /** The mask of the deletion behind another operation. */
  lemma MaskBehindPass(z: Shared, a: Shared, d: seq<Cell>, m: seq<Cell>)
    requires |m| == |d| && Strikes(z.op, m) && Apply(a.op, d).ok
    ensures |Plain(m, a.op)| == |Apply(a.op, d).doc| && Strikes(Pass(z, a).op, Plain(m, a.op))
  {
    MaskPass(z, a, d, m);
  }

  /** Two ways of taking a deletion past others move the same insertions alike. */
  lemma SameWays(x: Shared, z: Shared, a: Shared, b: Shared, d: seq<Cell>, m: seq<Cell>)
    requires z.Fits() && a.Fits() && b.Fits() && ThreeUsers(z, a, b) && x.user != z.user && Inserting(x.op)
    requires |m| == |d| && Strikes(z.op, m) && Apply(a.op, d).ok && Apply(b.op, d).ok
    requires Apply(x.op, After(a, b, d)).ok
    ensures By(x.op, x.user, PassBoth(z, a, b), z.user) == By(x.op, x.user, PassBoth(z, b, a), z.user)
  {
    hide Transform, Strikes, Pass;
    DeletionWay(z, a, b, d, m);
    DeletionWay(z, b, a, d, m);
    BlankMeet(a, b, d, m);
    SameMask(x.op, x.user, PassBoth(z, a, b), PassBoth(z, b, a), z.user, After(a, b, d),
             After(Blanked(a), Blanked(b), m));
  }

  /** Two inserting operations and a deletion: the deletion may be passed first or last. */
  lemma {:induction false} DeletionBetween(p: Shared, q: Shared, z: Shared, m: seq<Cell>)
    requires p.Inserts() && q.Inserts() && ThreeUsers(p, q, z) && z.Fits()
    requires Strikes(z.op, m) && Apply(p.op, m).ok && Apply(q.op, m).ok && Steady(p, q, m)
    ensures PassBoth(p, z, q) == PassBoth(p, q, z)
    decreases p.lcs.Leaves() + q.lcs.Leaves()
  {
    hide Transform, Strikes, Pass, Apart, Leads;
    InsertingHasInserts(p.lcs);
    InsertingHasInserts(q.lcs);
    if q.lcs.Split? {
      DeletionBetweenAgainst(p, q, z, m);
    } else if p.lcs.Split? {
      DeletionBetweenSplit(p, q, z, m);
    } else {
      InsertingHasInserts(p.op);
      InsertingHasInserts(q.op);
      InsertionsBetween(p, q, z, m, m);
    }
  }

  lemma {:induction false} DeletionBetweenAgainst(p: Shared, q: Shared, z: Shared, m: seq<Cell>)
    requires p.Inserts() && q.Inserts() && ThreeUsers(p, q, z) && z.Fits() && q.lcs.Split?
    requires Strikes(z.op, m) && Apply(p.op, m).ok && Apply(q.op, m).ok && Steady(p, q, m)
    ensures PassBoth(p, z, q) == PassBoth(p, q, z)
    decreases p.lcs.Leaves() + q.lcs.Leaves(), 0
  {
    hide Transform, Strikes, Pass, Apart, Leads, Plain;
    InsertingParts(q);
    NoInserts(z.op, m);
    var q1, q2, zq := FirstOf(q), SecondOf(q), Pass(z, FirstOf(q));
    var p1 := Advance(p, q1);
    AdvanceInserts(p, q1);
    Meet(p, q1, m);
    MaskBehindPass(z, q1, m, m);
    PassFits(z, q1);
    DeletionBetween(p, q1, z, m);
    BehindApplies(p, q1, m);
    PartApplies(q, m);
    DeletionBetween(p1, q2, zq, Plain(m, q1.op));
    // the deletion first
    AdvanceBehind(p, q1, z);
    PartsBehindDeletion(q, z);
    PassFits(p, z);
    PassFits(q1, z);
    PassFits(q, z);
    SplitPass(Pass(p, z), Pass(q, z));
    // the deletion last
    SplitPass(p, q);
    DeletionPastParts(z, q);
    DeletionsOnly(z, q);
    DeletionsOnly(zq, q2);
    SameDeletion(Pass(p, q), Pass(z, q), Pass(p1, q2), Pass(zq, q2));
  }

  lemma {:induction false} SteadySymmetric(p: Shared, q: Shared, m: seq<Cell>)
    requires p.Inserts() && q.Inserts() && p.user != q.user && !q.lcs.Split? && Steady(p, q, m)
    ensures Steady(q, p, m)
    decreases p.lcs.Leaves()
  {
    hide Transform, Advance;
    InsertingHasInserts(p.lcs);
    InsertingHasInserts(q.lcs);
    if p.lcs.Split? {
      AdvanceInserts(q, FirstOf(p));
      InsertingLeaves(q.lcs);
      InsertingLeaves(Advance(q, FirstOf(p)).lcs);
      SteadySymmetric(FirstOf(p), q, m);
      SteadySymmetric(SecondOf(p), Advance(q, FirstOf(p)), Plain(m, p.op.first));
    }
  }

  lemma {:induction false} DeletionBetweenSplit(p: Shared, q: Shared, z: Shared, m: seq<Cell>)
    requires p.Inserts() && q.Inserts() && ThreeUsers(p, q, z) && z.Fits() && p.lcs.Split? && !q.lcs.Split?
    requires Strikes(z.op, m) && Apply(p.op, m).ok && Apply(q.op, m).ok && Steady(p, q, m)
    ensures PassBoth(p, z, q) == PassBoth(p, q, z)
    decreases p.lcs.Leaves() + q.lcs.Leaves(), 0
  {
    hide Transform, Strikes, Pass, Apart, Leads, Plain;
    InsertingParts(p);
    NoInserts(z.op, m);
    var p1, p2, zp := FirstOf(p), SecondOf(p), Pass(z, FirstOf(p));
    var q1, d1 := Advance(q, p1), Apply(p1.op, m).doc;
    AdvanceInserts(q, p1);
    Meet(q, p1, m);
    MaskBehindPass(z, p1, m, m);
    PassFits(z, p1);
    SteadySymmetric(p1, q, m);
    DeletionBetween(p1, q, z, m);
    DeletionBetween(q, p1, z, m);
    BehindApplies(q, p1, m);
    PartApplies(p, m);
    DeletionBetween(p2, q1, zp, Plain(m, p1.op));
    // the deletion first
    AdvanceBehind(q, p1, z);
    PartsBehindDeletion(p, z);
    PassFits(q, z);
    PassFits(p1, z);
    PassFits(p, z);
    SplitPass(Pass(q, z), Pass(p, z));
    // the deletion last
    SplitPass(q, p);
    DeletionsOnly(z, q);
    DeletionPastSplit(Pass(p, q), Pass(p1, q), Pass(p2, q1), Pass(z, q));
    AdvanceInserts(p2, q1);
    Meet(p2, q1, d1);
    SameWays(Pass(p2, q1), z, q, p1, m, m);
    PassDeleting(Pass(z, q), Pass(p1, q));
    DeletionsOnly(z, p1);
    PassDeleting(zp, q1);
    PassDeleting(zp, Pass(q, p1));
    DeletionsOnly(zp, q1);
    PassDeletion(Pass(p2, q1), Pass(zp, q1));
  }

  // ---------- Other masks ----------

  /** What is plain in the first mask is plain in the second one. */
  ghost predicate Covers(l: seq<Cell>, m: seq<Cell>) {
    |l| == |m| && forall i :: 0 <= i < |m| && m[i].author > 0 ==> l[i].author > 0
  }

  lemma {:induction false} CoversBehind(l: seq<Cell>, m: seq<Cell>, op: Operation, c: Cell)
    requires Covers(l, m)
    ensures Covers(Apply(Blank(op, c), l).doc, Apply(Blank(op, c), m).doc)
    decreases op
  {
    hide Const;
    if op.Split? {
      BlankApply(op.first, c, l, m);
      BlankApply(op.first, c, l, l);
      hide Covers;
      CoversBehind(l, m, op.first, c);
      CoversBehind(Apply(Blank(op.first, c), l).doc, Apply(Blank(op.first, c), m).doc, op.second, c);
    }
  }

  lemma {:induction false} SteadyLess(p: Shared, q: Shared, l: seq<Cell>, m: seq<Cell>)
    requires p.Inserts() && q.Inserts() && p.user != q.user && Steady(p, q, l) && Covers(l, m)
    ensures Steady(p, q, m)
    decreases p.lcs.Leaves() + q.lcs.Leaves()
  {
    hide Transform, Advance, Leads;
    InsertingHasInserts(p.lcs);
    InsertingHasInserts(q.lcs);
    if q.lcs.Split? {
      AdvanceInserts(p, FirstOf(q));
      CoversBehind(l, m, q.op.first, PLAIN);
      SteadyLess(p, FirstOf(q), l, m);
      SteadyLess(Advance(p, FirstOf(q)), SecondOf(q), Plain(l, q.op.first), Plain(m, q.op.first));
    } else if p.lcs.Split? {
      AdvanceInserts(q, FirstOf(p));
      CoversBehind(l, m, p.op.first, PLAIN);
      SteadyLess(FirstOf(p), q, l, m);
      SteadyLess(SecondOf(p), Advance(q, FirstOf(p)), Plain(l, p.op.first), Plain(m, p.op.first));
    }
  }

  // ---------- Behind a third insertion ----------

  /** C1 on masks. */
  lemma MarkedMeet(a: Operation, aLcs: Operation, c: Cell, b: Operation, bLcs: Operation, k: Cell, cid: Cid,
                   m: seq<Cell>)
    requires Matches(a, aLcs) && Matches(b, bLcs) && Apply(a, m).ok && Apply(b, m).ok
    ensures Apply(Blank(Transform(a, b, aLcs, bLcs, cid), c), Apply(Blank(b, k), m).doc)
      == Apply(Blank(Transform(b, a, bLcs, aLcs, cid.Flip()), k), Apply(Blank(a, c), m).doc)
    ensures Apply(Blank(Transform(a, b, aLcs, bLcs, cid), c), Apply(Blank(b, k), m).doc).ok
  {
    hide Transform, Blank;
    BlankTransform(a, b, aLcs, bLcs, cid, c, k);
    BlankTransform(b, a, bLcs, aLcs, cid.Flip(), k, c);
    BlankMatches(a, aLcs, c);
    BlankMatches(b, bLcs, k);
    BlankApply(a, c, m, m);
    BlankApply(b, k, m, m);
    ConvergentLater(Blank(a, c), Blank(b, k), Blank(aLcs, c), Blank(bLcs, k), cid, m);
  }

  /** The mask behind an operation of which the text counts as struck out. */
  function Struck(m: seq<Cell>, op: Operation): seq<Cell> {
    Apply(Blank(op, STRUCK), m).doc
  }

  lemma StruckMeet(z: Shared, q: Shared, m: seq<Cell>)
    requires z.Fits() && q.Fits() && z.user != q.user && Apply(z.op, m).ok && Apply(q.op, m).ok
    ensures Struck(Plain(m, q.op), Pass(z, q).op) == Plain(Struck(m, z.op), Pass(q, z).op)
    ensures Apply(Pass(z, q).op, Plain(m, q.op)).ok && Apply(Pass(q, z).op, Struck(m, z.op)).ok
  {
    hide Transform, Blank;
    MarkedMeet(z.op, z.lcs, STRUCK, q.op, q.lcs, PLAIN, CidOf(z.user, q.user), m);
    Applies(Pass(z, q).op, STRUCK, Plain(m, q.op));
    Applies(Pass(q, z).op, PLAIN, Struck(m, z.op));
  }

  /** Which of two insertions leads does not change when both pass a third one. */
  lemma LeadsBehind(a: Operation, u: nat, b: Operation, v: nat, z: Operation, t: nat)
    requires a.Insert? && b.Insert? && z.Insert? && u != v && u != t && v != t
    ensures By(a, u, z, t).Insert? && By(b, v, z, t).Insert?
    ensures Leads(By(a, u, z, t), u, By(b, v, z, t), v) <==> Leads(a, u, b, v)
  {
    hide Transform;
    PastInsert(a, u, z, t);
    PastInsert(b, v, z, t);
  }

  lemma ApartBehind(m: seq<Cell>, z: Operation, p: nat, p1: nat, q: nat, q1: nat)
    requires z.Insert? && Apply(z, m).ok && Apart(m, p, q)
    requires p1 == p || (p1 == p + |z.text| && z.pos <= p)
    requires q <= q1 && (z.pos < q ==> q1 == q + |z.text|)
    ensures Apart(Struck(m, z), p1, q1)
  {
    var i :| p <= i < q && i < |m| && m[i].author == 0;
    var j := if i < z.pos then i else i + |z.text|;
    assert Struck(m, z)[j] == m[i];
  }

  lemma SteadyInsertions(p: Shared, q: Shared, z: Shared, m: seq<Cell>)
    requires p.Inserts() && q.Inserts() && z.Inserts() && ThreeUsers(p, q, z)
    requires !p.lcs.Split? && !q.lcs.Split? && !z.lcs.Split?
    requires Apply(z.op, m).ok && Steady(p, q, m)
    ensures Advance(p, z).Inserts() && Advance(q, z).Inserts()
    ensures Steady(Advance(p, z), Advance(q, z), Struck(m, z.op))
  {
    hide Transform, Apart;
    AdvanceInserts(p, z);
    AdvanceInserts(q, z);
    assert p.op.Insert? && q.op.Insert? && z.op.Insert?;
    PastWith(p.op, p.lcs, p.user, z.op, z.lcs, z.user);
    PastWith(q.op, q.lcs, q.user, z.op, z.lcs, z.user);
    LeadsBehind(p.lcs, p.user, q.lcs, q.user, z.lcs, z.user);
    LeadsBehind(q.lcs, q.user, p.lcs, p.user, z.lcs, z.user);
    var p', q' := Pass(p, z).op.pos, Pass(q, z).op.pos;
    if p' < q' && !Leads(p.lcs, p.user, q.lcs, q.user) {
      ApartBehind(m, z.op, p.op.pos, p', q.op.pos, q');
    }
    if q' < p' && !Leads(q.lcs, q.user, p.lcs, p.user) {
      ApartBehind(m, z.op, q.op.pos, q', p.op.pos, p');
    }
  }

  lemma AdvanceTwice(p: Shared, z: Shared)
    requires p.Inserts() && z.Inserts() && z.lcs.Split? && p.user != z.user
    ensures z.op.Split? && FirstOf(z).Inserts() && SecondOf(z).Inserts()
    ensures Advance(p, z) == Advance(Advance(p, FirstOf(z)), SecondOf(z))
  {
    hide Transform;
    InsertingParts(z);
    SplitPass(p, z);
    BySplit(p.lcs, p.user, z.lcs, z.user);
  }

  /** The parts of an operation behind another one. */
  lemma AdvanceParts(q: Shared, z: Shared)
    requires q.Inserts() && z.Inserts() && q.lcs.Split? && q.user != z.user
    ensures q.op.Split? && FirstOf(q).Inserts() && SecondOf(q).Inserts()
    ensures Advance(q, z).op.Split? && Advance(q, z).lcs.Split?
    ensures FirstOf(Advance(q, z)) == Advance(FirstOf(q), z)
    ensures SecondOf(Advance(q, z)) == Advance(SecondOf(q), Advance(z, FirstOf(q)))
  {
    hide Transform;
    InsertingParts(q);
    SplitPass(z, q);
    BySplit(q.lcs, q.user, z.lcs, z.user);
  }

  /** Two others may be passed in either order. */
  lemma AdvanceAgree(p: Shared, q: Shared, z: Shared)
    requires p.Inserts() && q.Inserts() && z.Inserts() && ThreeUsers(p, q, z)
    ensures Advance(Advance(p, z), Advance(q, z)) == Advance(Advance(p, q), Advance(z, q))
  {
    hide Transform;
    PassLater(p, q, z);
    PassLater(p, z, q);
    InsertingLater(p, z, q);
    InsertingAgree(p.lcs, p.user, z.lcs, z.user, q.lcs, q.user);
  }

  lemma OneLeaf(a: Operation, b: Operation)
    requires !a.Split? && a.Leaves() == b.Leaves()
    ensures !b.Split?
  {
  }

  lemma AdvanceOp(x: Shared, y: Shared)
    ensures Advance(x, y).op == Pass(x, y).op
  {
  }

  /** The order stays steady when both operations pass a third one, of which the text counts as struck out. */
  lemma {:induction false} SteadyAdvance(p: Shared, q: Shared, z: Shared, m: seq<Cell>)
    requires p.Inserts() && q.Inserts() && z.Inserts() && ThreeUsers(p, q, z)
    requires Apply(p.op, m).ok && Apply(q.op, m).ok && Apply(z.op, m).ok && Steady(p, q, m)
    ensures Advance(p, z).Inserts() && Advance(q, z).Inserts()
    ensures Steady(Advance(p, z), Advance(q, z), Struck(m, z.op))
    decreases p.lcs.Leaves() + q.lcs.Leaves() + z.lcs.Leaves()
  {
    hide Transform, Advance, Apart, Leads, Struck, Plain;
    InsertingHasInserts(p.lcs);
    InsertingHasInserts(q.lcs);
    AdvanceInserts(p, z);
    AdvanceInserts(q, z);
    if z.lcs.Split? {
      SteadyAdvanceParts(p, q, z, m);
    } else if q.lcs.Split? {
      SteadyAdvanceSecond(p, q, z, m);
    } else if p.lcs.Split? {
      SteadyAdvanceFirst(p, q, z, m);
    } else {
      SteadyInsertions(p, q, z, m);
    }
  }

  lemma {:induction false} SteadyAdvanceParts(p: Shared, q: Shared, z: Shared, m: seq<Cell>)
    requires p.Inserts() && q.Inserts() && z.Inserts() && ThreeUsers(p, q, z) && z.lcs.Split?
    requires Apply(p.op, m).ok && Apply(q.op, m).ok && Apply(z.op, m).ok && Steady(p, q, m)
    ensures Advance(p, z).Inserts() && Advance(q, z).Inserts()
    ensures Steady(Advance(p, z), Advance(q, z), Struck(m, z.op))
    decreases p.lcs.Leaves() + q.lcs.Leaves() + z.lcs.Leaves(), 0
  {
    hide Transform, Apart, Leads, Plain, Steady, Pass;
    InsertingParts(z);
    AdvanceTwice(p, z);
    AdvanceTwice(q, z);
    var z1, z2, m1 := FirstOf(z), SecondOf(z), Struck(m, z.op.first);
    var p1, q1 := Advance(p, z1), Advance(q, z1);
    AdvanceInserts(p, z1);
    AdvanceInserts(q, z1);
    StruckMeet(z1, p, m);
    StruckMeet(z1, q, m);
    BlankApply(z1.op, STRUCK, m, m);
    BlankApply(z2.op, STRUCK, Apply(z1.op, m).doc, m1);
    Applies(z2.op, STRUCK, m1);
    SteadyAdvance(p, q, z1, m);
    SteadyAdvance(p1, q1, z2, m1);
    assert Struck(m, z.op) == Struck(m1, z2.op);
  }

  lemma {:induction false} SteadyAdvanceSecond(p: Shared, q: Shared, z: Shared, m: seq<Cell>)
    requires p.Inserts() && q.Inserts() && z.Inserts() && ThreeUsers(p, q, z) && q.lcs.Split?
    requires Apply(p.op, m).ok && Apply(q.op, m).ok && Apply(z.op, m).ok && Steady(p, q, m)
    ensures Advance(p, z).Inserts() && Advance(q, z).Inserts()
    ensures Steady(Advance(p, z), Advance(q, z), Struck(m, z.op))
    decreases p.lcs.Leaves() + q.lcs.Leaves() + z.lcs.Leaves(), 0
  {
    hide Transform, Apart, Leads, Pass, Advance, SteadyPair, Struck, Plain;
    AdvanceInserts(p, z);
    AdvanceInserts(q, z);
    AdvanceParts(q, z);
    InsertingParts(q);
    var q1, q2 := FirstOf(q), SecondOf(q);
    var p1, z1, m1 := Advance(p, q1), Advance(z, q1), Plain(m, q1.op);
    AdvanceInserts(p, q1);
    AdvanceInserts(z, q1);
    SteadyAdvance(p, q1, z, m);
    BehindApplies(p, q1, m);
    BehindApplies(z, q1, m);
    PartApplies(q, m);
    SteadyAdvance(p1, q2, z1, m1);
    AdvanceAgree(p, q1, z);
    AdvanceInserts(q1, z);
    StruckMeet(z, q1, m);
    AdvanceOp(z, q1);
    AdvanceOp(q1, z);
  }

  lemma {:induction false} SteadyAdvanceFirst(p: Shared, q: Shared, z: Shared, m: seq<Cell>)
    requires p.Inserts() && q.Inserts() && z.Inserts() && ThreeUsers(p, q, z) && p.lcs.Split? && !q.lcs.Split?
    requires Apply(p.op, m).ok && Apply(q.op, m).ok && Apply(z.op, m).ok && Steady(p, q, m)
    ensures Advance(p, z).Inserts() && Advance(q, z).Inserts()
    ensures Steady(Advance(p, z), Advance(q, z), Struck(m, z.op))
    decreases p.lcs.Leaves() + q.lcs.Leaves() + z.lcs.Leaves(), 0
  {
    hide Transform, Apart, Leads, Pass, Advance, SteadyPair, Struck, Plain;
    AdvanceInserts(p, z);
    AdvanceInserts(q, z);
    AdvanceParts(p, z);
    InsertingParts(p);
    var p1, p2 := FirstOf(p), SecondOf(p);
    var q1, z1, m1 := Advance(q, p1), Advance(z, p1), Plain(m, p1.op);
    AdvanceInserts(q, p1);
    AdvanceInserts(z, p1);
    SteadyAdvance(p1, q, z, m);
    BehindApplies(q, p1, m);
    BehindApplies(z, p1, m);
    PartApplies(p, m);
    SteadyAdvance(p2, q1, z1, m1);
    AdvanceAgree(q, p1, z);
    AdvanceInserts(p1, z);
    StruckMeet(z, p1, m);
    AdvanceOp(z, p1);
    AdvanceOp(p1, z);
    OneLeaf(q.lcs, Advance(q, z).lcs);
  }
}
