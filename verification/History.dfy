/** C2 for orderly operations that were made in one state and meet at any later one.

    Between the two states any operations may have been performed.  Each of the three has been taken past
    them, and with each of them it may have been compared at any state. */
module Histories {
  import opened Ropes
  import opened Operations
  import opened Striking
  import opened ThreeWay
  import opened PureOperations
  import opened EarlierStates
  import opened OrderlyOperations
  import opened LaterStates
  import opened SteadyOrders
  import opened Anchors
  import opened OrderlyStates

  // ---------- What was performed in between ----------

  /** How an operation meets one that was performed: both as they were where they are compared, and the
      concurrency id. */
  datatype Comparison = Comparison(own: Operation, other: Operation, cid: Cid)

  ghost predicate Comparable(op: Operation, done: seq<Operation>, cs: seq<Comparison>) {
    |done| == |cs| && forall i :: 0 <= i < |done| ==> Matches(op, cs[i].own) && Matches(done[i], cs[i].other)
  }

  /** The operation behind those that were performed. */
  function Carried(op: Operation, done: seq<Operation>, cs: seq<Comparison>): Operation
    requires |done| == |cs|
    decreases |done|
  {
    if done == [] then op
    else Carried(Transform(op, done[0], cs[0].own, cs[0].other, cs[0].cid), done[1..], cs[1..])
  }

  /** The document behind all of them. */
  function Performed(done: seq<Operation>, d: seq<Cell>): Outcome {
    if done == [] then Outcome(true, d)
    else
      var o := Apply(done[0], d);
      if o.ok then Performed(done[1..], o.doc) else o
  }

  // ---------- Operations and the labels of the state in which they were made ----------

  /** The operation stands among the labels where it stood in the state in which it was made, and it deletes
      nothing but labelled characters and its own. */
  ghost predicate Rooted(x: Shared, l: seq<Cell>, lcs: seq<Cell>, n: nat) {
    && InOrder(x) && Apply(x.op, l).ok
    && (HasInserts(x) ==> RootedInsertion(Insertion(x), l, lcs, n))
    && (x.op.Inserts() == 0 ==> RootedDeletion(x.op, l))
    && (Mixed(x.op) ==> RootedDeletion(x.op.second, Struck(l, x.op.first)))
  }

  ghost predicate RootedInsertion(x: Shared, l: seq<Cell>, lcs: seq<Cell>, n: nat) {
    exists ks :: Anchored(x.op, l, ks) && Anchored(x.lcs, lcs, ks) && Bounded(ks, n)
  }

  ghost predicate RootedDeletion(op: Operation, l: seq<Cell>) {
    exists m :: Covers(l, m) && Strikes(op, m)
  }

  ghost predicate Labelled(l: seq<Cell>) {
    forall i :: 0 <= i < |l| ==> l[i].author > 0
  }

  lemma {:induction false} StruckStaysLabelled(op: Operation, l: seq<Cell>)
    requires Inserting(op) && Labelled(l)
    ensures Labelled(Struck(l, op))
    decreases op
  {
    if op.Split? {
      hide Labelled;
      StruckStaysLabelled(op.first, l);
      StruckStaysLabelled(op.second, Struck(l, op.first));
    }
  }

  lemma DeletionStarts(op: Operation, l: seq<Cell>)
    requires op.Inserts() == 0 && Apply(op, l).ok && Labelled(l)
    ensures RootedDeletion(op, l)
  {
    hide Strikes;
    var m := MaskExists(op, l);
    assert Covers(l, m);
  }

  lemma InsertionStarts(op: Operation, u: nat, n: nat)
    requires Inserting(op) && Apply(op, Labels(n)).ok
    ensures RootedInsertion(Shared(op, op, u), Labels(n), Labels(n), n)
  {
    hide Anchored;
    var ks := AnchorsExist(op, Labels(n), n);
  }

  /** An operation in the state in which it was made. */
  lemma RootedStart(op: Operation, u: nat, n: nat)
    requires Orderly(op) && Apply(op, Labels(n)).ok
    ensures Rooted(Shared(op, op, u), Labels(n), Labels(n), n)
  {
    hide Anchored, Strikes, RootedInsertion, RootedDeletion;
    MatchesReflexive(op);
    KindsDiffer(op);
    if op.Inserts() == 0 {
      DeletionStarts(op, Labels(n));
    } else if Mixed(op) {
      InsertionStarts(op.first, u, n);
      StruckStaysLabelled(op.first, Labels(n));
      BlankApply(op.first, STRUCK, Labels(n), Labels(n));
      BlankApply(op.second, STRUCK, Apply(op.first, Labels(n)).doc, Struck(Labels(n), op.first));
      Applies(op.second, STRUCK, Struck(Labels(n), op.first));
      DeletionStarts(op.second, Struck(Labels(n), op.first));
    } else {
      InsertionStarts(op, u, n);
    }
  }

  lemma DeletionStep(op: Operation, l: seq<Cell>, s: Operation, own: Operation, other: Operation, cid: Cid)
    requires op.Inserts() == 0 && RootedDeletion(op, l) && Apply(s, l).ok
    ensures RootedDeletion(Transform(op, s, own, other, cid), Plain(l, s))
  {
    hide Transform, Strikes, Blank;
    var m :| Covers(l, m) && Strikes(op, m);
    LcsIrrelevant(op, s, own, other, cid, cid);
    BlankApply(s, PLAIN, l, m);
    StrikesAgainst(op, s, cid, m);
    CoversBehind(l, m, s, PLAIN);
  }

  lemma InsertionStep(x: Shared, l: seq<Cell>, lcs: seq<Cell>, n: nat, s: Operation, own: Operation, other: Operation,
                      cid: Cid)
    requires RootedInsertion(x, l, lcs, n) && Matches(x.op, own) && Matches(s, other) && Apply(s, l).ok
    ensures RootedInsertion(x.(op := Transform(x.op, s, own, other, cid)), Plain(l, s), lcs, n)
  {
    hide Transform, Anchored, Plain;
    var ks :| Anchored(x.op, l, ks) && Anchored(x.lcs, lcs, ks) && Bounded(ks, n);
    AnchoredPass(x.op, s, own, other, cid, l, ks);
  }

  /** One more operation is performed. */
  lemma RootedStep(x: Shared, l: seq<Cell>, lcs: seq<Cell>, n: nat, s: Operation, own: Operation, other: Operation,
                   cid: Cid)
    requires Rooted(x, l, lcs, n) && Matches(x.op, own) && Matches(s, other) && Apply(s, l).ok
    ensures Rooted(x.(op := Transform(x.op, s, own, other, cid)), Plain(l, s), lcs, n)
  {
    hide Transform, RootedInsertion, RootedDeletion, Plain, Struck, Orderly;
    var y := x.(op := Transform(x.op, s, own, other, cid));
    StepInOrder(x, s, own, other, cid);
    StepApplies(x.op, s, own, other, cid, l);
    KindsDiffer(x.op);
    KindsDiffer(y.op);
    if x.op.Inserts() == 0 {
      DeletionStep(x.op, l, s, own, other, cid);
    } else if Mixed(x.op) {
      FirstInserts(x);
      FirstInserts(y);
      MixedStep(x, l, lcs, n, s, own, other, cid);
    } else {
      InsertionStep(x, l, lcs, n, s, own, other, cid);
    }
  }

  lemma StepInOrder(x: Shared, s: Operation, own: Operation, other: Operation, cid: Cid)
    requires InOrder(x)
    ensures InOrder(x.(op := Transform(x.op, s, own, other, cid)))
    ensures Transform(x.op, s, own, other, cid).Inserts() == x.op.Inserts()
    ensures Mixed(Transform(x.op, s, own, other, cid)) <==> Mixed(x.op)
  {
    hide Transform, Orderly;
    TransformKeepsKind(x.op, s, own, other, cid);
    TransformMatches(x.op, s, own, other, cid);
    MatchesTransitive(Transform(x.op, s, own, other, cid), x.op, x.lcs);
  }

  lemma StepApplies(op: Operation, s: Operation, own: Operation, other: Operation, cid: Cid, l: seq<Cell>)
    requires Matches(op, own) && Matches(s, other) && Apply(op, l).ok && Apply(s, l).ok
    ensures Apply(Transform(op, s, own, other, cid), Plain(l, s)).ok
  {
    hide Transform, Blank;
    MarkedMeet(op, own, PLAIN, s, other, PLAIN, cid, l);
    Applies(Transform(op, s, own, other, cid), PLAIN, Plain(l, s));
  }

  lemma MixedStep(x: Shared, l: seq<Cell>, lcs: seq<Cell>, n: nat, s: Operation, own: Operation, other: Operation,
                  cid: Cid)
    requires InOrder(x) && Mixed(x.op) && x.lcs.Split? && Apply(x.op, l).ok
    requires RootedInsertion(FirstOf(x), l, lcs, n) && RootedDeletion(x.op.second, Struck(l, x.op.first))
    requires Matches(x.op, own) && Matches(s, other) && Apply(s, l).ok
    ensures var r := Transform(x.op, s, own, other, cid);
      && r.Split?
      && RootedInsertion(Shared(r.first, x.lcs.first, x.user), Plain(l, s), lcs, n)
      && RootedDeletion(r.second, Struck(Plain(l, s), r.first))
  {
    hide Transform, RootedInsertion, RootedDeletion, Blank, Orderly;
    var flip := cid.Flip();
    assert flip.Flip() == cid;
    var s' := Transform(s, x.op.first, other, FirstPart(own), flip);
    PartsMatch(x.op, own);
    SplitLcs(x.op, s, own, other, cid);
    InsertionStep(FirstOf(x), l, lcs, n, s, FirstPart(own), other, cid);
    MarkedMeet(s, other, PLAIN, x.op.first, FirstPart(own), STRUCK, flip, l);
    Applies(s', PLAIN, Struck(l, x.op.first));
    DeletionStep(x.op.second, Struck(l, x.op.first), s', SecondPart(own), Advanced(other, own, flip), cid);
  }

  /** Deletions of rooted operations do not confuse rooted insertions. */
  lemma RootedKeeps(p: Shared, q: Shared, z: Shared, l: seq<Cell>, lcs: seq<Cell>, n: nat, d: seq<Cell>)
    requires Rooted(p, l, lcs, n) && Rooted(q, l, lcs, n) && Rooted(z, l, lcs, n) && ThreeUsers(p, q, z)
    requires HasLabels(lcs, n) && |l| == |d| && HasInserts(p) && HasInserts(q)
    ensures Keeps(Insertion(p), Insertion(q), z, d)
  {
    hide Anchored, Steady, Orderly, Strikes;
    var i, j := Insertion(p), Insertion(q);
    var ks :| Anchored(i.op, l, ks) && Anchored(i.lcs, lcs, ks) && Bounded(ks, n);
    var js :| Anchored(j.op, l, js) && Anchored(j.lcs, lcs, js) && Bounded(js, n);
    AnchoredSteady(i, j, l, lcs, n, ks, js);
    AnchoredInserts(i.op, l, ks);
    AnchoredInserts(j.op, l, js);
    if z.op.Inserts() == 0 {
      var m :| Covers(l, m) && Strikes(z.op, m);
      SteadyLess(i, j, l, m);
    } else if Mixed(z.op) {
      FirstInserts(z);
      var z1 := FirstOf(z);
      SteadyAdvance(i, j, z1, l);
      var m :| Covers(Struck(l, z1.op), m) && Strikes(z.op.second, m);
      SteadyLess(Advance(i, z1), Advance(j, z1), Struck(l, z1.op), m);
      BlankApply(z1.op, STRUCK, d, l);
    }
  }

  // ---------- C2 ----------

  /** The labels behind all operations that were performed. */
  function Through(l: seq<Cell>, done: seq<Operation>): seq<Cell>
    decreases |done|
  {
    if done == [] then l else Through(Plain(l, done[0]), done[1..])
  }

  lemma {:induction false} CarriedRooted(x: Shared, l: seq<Cell>, lcs: seq<Cell>, n: nat, done: seq<Operation>,
                                         cs: seq<Comparison>, d: seq<Cell>)
    requires Rooted(x, l, lcs, n) && Comparable(x.op, done, cs) && |l| == |d| && Performed(done, d).ok
    ensures Rooted(x.(op := Carried(x.op, done, cs)), Through(l, done), lcs, n)
    ensures |Through(l, done)| == |Performed(done, d).doc|
    decreases |done|
  {
    hide Transform, Rooted, Plain, Blank;
    if done != [] {
      var s, k := done[0], cs[0];
      var y := x.(op := Transform(x.op, s, k.own, k.other, k.cid));
      assert Matches(x.op, k.own) && Matches(s, k.other);
      BlankApply(s, PLAIN, d, l);
      Applies(s, PLAIN, l);
      RootedStep(x, l, lcs, n, s, k.own, k.other, k.cid);
      TransformMatches(x.op, s, k.own, k.other, k.cid);
      forall i | 0 <= i < |done| - 1 ensures Matches(y.op, cs[1..][i].own) && Matches(done[1..][i], cs[1..][i].other) {
        MatchesTransitive(y.op, x.op, cs[i + 1].own);
      }
      PlainLength(l, s, d);
      CarriedRooted(y, Plain(l, s), lcs, n, done[1..], cs[1..], Apply(s, d).doc);
    }
  }

  lemma PlainLength(l: seq<Cell>, s: Operation, d: seq<Cell>)
    requires |l| == |d|
    ensures |Plain(l, s)| == |Apply(s, d).doc|
  {
    BlankApply(s, PLAIN, d, l);
  }

  /** The operation, made by user `u`, behind those that were performed. */
  function Seen(op: Operation, u: nat, done: seq<Operation>, cs: seq<Comparison>): Shared
    requires |done| == |cs|
  {
    Shared(Carried(op, done, cs), op, u)
  }

  /** C2 for three orderly operations that were made in one state, are compared as they were there, and have
      all been taken past the same operations since. */
  lemma {:induction false} OrderlyLater(c: Operation, w: nat, kc: seq<Comparison>, a: Operation, u: nat,
                                        ka: seq<Comparison>, b: Operation, v: nat, kb: seq<Comparison>,
                                        done: seq<Operation>, d: seq<Cell>)
    requires u != v && v != w && u != w && Orderly(a) && Orderly(b) && Orderly(c)
    requires Apply(a, d).ok && Apply(b, d).ok && Apply(c, d).ok && Performed(done, d).ok
    requires Comparable(c, done, kc) && Comparable(a, done, ka) && Comparable(b, done, kb)
    ensures Agree(Seen(c, w, done, kc), Seen(a, u, done, ka), Seen(b, v, done, kb), Performed(done, d).doc)
  {
    hide Transform, Rooted, Agree, Carried, Orderly;
    var l, n := Labels(|d|), |d|;
    SeenRooted(c, w, done, kc, d);
    SeenRooted(a, u, done, ka, d);
    SeenRooted(b, v, done, kb, d);
    RootedAgree(Seen(c, w, done, kc), Seen(a, u, done, ka), Seen(b, v, done, kb), Through(l, done), n,
                Performed(done, d).doc);
  }

  lemma SeenRooted(op: Operation, u: nat, done: seq<Operation>, kc: seq<Comparison>, d: seq<Cell>)
    requires Orderly(op) && Apply(op, d).ok && Performed(done, d).ok && Comparable(op, done, kc)
    ensures Rooted(Seen(op, u, done, kc), Through(Labels(|d|), done), Labels(|d|), |d|)
    ensures |Through(Labels(|d|), done)| == |Performed(done, d).doc|
  {
    hide Rooted;
    BlankApply(op, PLAIN, d, Labels(|d|));
    Applies(op, PLAIN, Labels(|d|));
    RootedStart(op, u, |d|);
    CarriedRooted(Shared(op, op, u), Labels(|d|), Labels(|d|), |d|, done, kc, d);
  }

  lemma RootedAgree(c: Shared, a: Shared, b: Shared, l: seq<Cell>, n: nat, d: seq<Cell>)
    requires Rooted(c, l, Labels(n), n) && Rooted(a, l, Labels(n), n) && Rooted(b, l, Labels(n), n)
    requires ThreeUsers(c, a, b) && |l| == |d|
    ensures Agree(c, a, b, d)
  {
    hide Keeps, RootedInsertion, RootedDeletion, Agree, Orderly;
    assert HasLabels(Labels(n), n) by {
      forall k | 0 < k <= n ensures HasLabel(Labels(n), k) {
        assert Labels(n)[k - 1].author == k;
      }
    }
    AppliesAlike(a.op, l, d);
    AppliesAlike(b.op, l, d);
    AppliesAlike(c.op, l, d);
    HarmlessIfRooted(c, a, b, l, n, d);
    HarmlessIfRooted(c, b, a, l, n, d);
    OrderlyAgree(c, a, b, d);
  }

  lemma HarmlessIfRooted(x: Shared, y: Shared, z: Shared, l: seq<Cell>, n: nat, d: seq<Cell>)
    requires Rooted(x, l, Labels(n), n) && Rooted(y, l, Labels(n), n) && Rooted(z, l, Labels(n), n)
    requires ThreeUsers(x, y, z) && |l| == |d| && HasLabels(Labels(n), n)
    ensures Harmless(x, y, z, d)
  {
    hide Keeps, RootedInsertion, RootedDeletion, Orderly;
    if HasInserts(x) && HasInserts(y) {
      RootedKeeps(x, y, z, l, Labels(n), n, d);
      RootedKeeps(y, x, z, l, Labels(n), n, d);
    }
  }

  /** C2 for orderly operations in the state in which they were made. */
  lemma {:induction false} OrderlyThreeWay(c: Operation, w: nat, a: Operation, u: nat, b: Operation, v: nat,
                                           d: seq<Cell>)
    requires u != v && v != w && u != w
    requires Orderly(a) && Orderly(b) && Orderly(c)
    requires Apply(a, d).ok && Apply(b, d).ok && Apply(c, d).ok
    ensures SameEffect(c, w, a, u, b, v, d)
  {
    hide Transform, Orderly;
    OrderlyLater(c, w, [], a, u, [], b, v, [], [], d);
  }

  /** In particular for pure operations. */
  lemma {:induction false} PureThreeWay(c: Operation, w: nat, a: Operation, u: nat, b: Operation, v: nat, d: seq<Cell>)
    requires u != v && v != w && u != w
    requires Pure(a) && Pure(b) && Pure(c)
    requires Apply(a, d).ok && Apply(b, d).ok && Apply(c, d).ok
    ensures SameEffect(c, w, a, u, b, v, d)
  {
    OrderlyThreeWay(c, w, a, u, b, v, d);
  }
}
