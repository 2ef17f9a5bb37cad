/** Where an operation stands among the characters of the document it was made for.

    The characters of that document are numbered from left to right, later ones have the number 0.
    Whatever is inserted and deleted, and however ties are decided, an insertion stays between the same
    numbers. */
module Anchors {
  import opened Ropes
  import opened Operations
  import opened Striking
  import opened ThreeWay
  import opened PureOperations
  import opened EarlierStates
  import opened OrderlyOperations
  import opened PairStates
  import opened LaterStates
  import opened SteadyOrders

  /** The number of a cell is its author. */
  function Labels(n: nat): (r: seq<Cell>)
    ensures |r| == n && forall i :: 0 <= i < n ==> r[i].author == i + 1
  {
    seq(n, i requires 0 <= i < n => Cell([], i + 1))
  }

  ghost predicate HasLabel(l: seq<Cell>, k: nat) {
    exists i :: 0 <= i < |l| && l[i].author == k
  }

  ghost predicate HasLabels(l: seq<Cell>, n: nat) {
    forall k :: 0 < k <= n ==> HasLabel(l, k)
  }

  /** The labels increase from left to right. */
  ghost predicate Increasing(l: seq<Cell>) {
    forall i, j :: 0 <= i < j < |l| && l[j].author > 0 ==> l[i].author < l[j].author
  }

  ghost predicate AtMost(l: seq<Cell>, n: nat) {
    forall i :: 0 <= i < |l| ==> l[i].author <= n
  }

  /** The position is behind label `k` and all smaller ones, and in front of all greater ones. */
  ghost predicate Placed(l: seq<Cell>, p: nat, k: nat) {
    && p <= |l|
    && (forall i :: 0 <= i < p ==> l[i].author <= k)
    && (forall i :: p <= i < |l| && l[i].author > 0 ==> l[i].author > k)
  }

  /** The insertions are placed behind these labels. */
  ghost predicate Anchored(op: Operation, l: seq<Cell>, ks: seq<nat>) {
    match op
    case Insert(pos, _) => |ks| == 1 && Placed(l, pos, ks[0])
    case Delete(_, _) => false
    case Split(first, second) =>
      && |ks| == op.Inserts()
      && Anchored(first, l, ks[..first.Inserts()])
      && Anchored(second, Plain(l, first), ks[first.Inserts()..])
  }

  lemma {:induction false} AnchoredInserts(op: Operation, l: seq<Cell>, ks: seq<nat>)
    requires Anchored(op, l, ks)
    ensures Inserting(op) && |ks| == op.Inserts() && Apply(op, l).ok
  {
    if op.Split? {
      AnchoredInserts(op.first, l, ks[..op.first.Inserts()]);
      AnchoredInserts(op.second, Plain(l, op.first), ks[op.first.Inserts()..]);
      BlankApply(op.first, PLAIN, l, l);
      BlankApply(op.second, PLAIN, Apply(op.first, l).doc, Plain(l, op.first));
      Applies(op.second, PLAIN, Plain(l, op.first));
    }
  }

  // ---------- Transformation keeps the place ----------

  lemma PlacedBehindInsert(l: seq<Cell>, p: nat, k: nat, x: Operation, first: bool)
    requires x.Insert? && x.pos <= |l| && Placed(l, p, k)
    ensures Placed(Plain(l, x), if p < x.pos || (p == x.pos && first) then p else p + |x.text|, k)
  {
  }

  lemma PlacedBehindDelete(l: seq<Cell>, p: nat, k: nat, x: Operation)
    requires x.Delete? && x.pos + |x.text| <= |l| && Placed(l, p, k)
    ensures Placed(Plain(l, x), Past(x, p), k)
  {
  }

  lemma AnchoredSingle(op: Operation, x: Operation, opLcs: Operation, xLcs: Operation, cid: Cid, l: seq<Cell>, k: nat)
    requires op.Insert? && !x.Split? && Apply(x, l).ok && Placed(l, op.pos, k)
    ensures Anchored(Transform(op, x, opLcs, xLcs, cid), Plain(l, x), [k])
  {
    hide Placed, Plain;
    if x.Insert? {
      var first := opLcs.Position() < xLcs.Position() || (opLcs.Position() == xLcs.Position() && cid == Other);
      PlacedBehindInsert(l, op.pos, k, x, first);
    } else {
      PlacedBehindDelete(l, op.pos, k, x);
    }
  }

  lemma PlainSplit(l: seq<Cell>, x: Operation)
    requires x.Split? && Apply(x, l).ok
    ensures Apply(x.first, l).ok && Apply(x.second, Plain(l, x.first)).ok
    ensures Plain(l, x) == Plain(Plain(l, x.first), x.second)
  {
    PartApplies(Shared(x, x, 0), l);
    Applies(x.first, PLAIN, l);
  }

  /** An operation that is transformed stays where it was anchored. */
  lemma {:induction false} AnchoredPass(op: Operation, x: Operation, opLcs: Operation, xLcs: Operation, cid: Cid,
                                        l: seq<Cell>, ks: seq<nat>)
    requires Matches(op, opLcs) && Matches(x, xLcs) && Apply(x, l).ok && Anchored(op, l, ks)
    ensures Anchored(Transform(op, x, opLcs, xLcs, cid), Plain(l, x), ks)
    decreases op.Inserts() + x.Inserts(), op.Leaves() + x.Leaves()
  {
    hide Transform, Plain, Placed;
    AnchoredInserts(op, l, ks);
    if x.Split? {
      var tmp := Transform(op, x.first, opLcs, FirstPart(xLcs), cid);
      PlainSplit(l, x);
      PassSplit(op, x, opLcs, xLcs, cid);
      PartsMatch(x, xLcs);
      AnchoredPass(op, x.first, opLcs, FirstPart(xLcs), cid, l, ks);
      Smaller(op, x.first, opLcs, FirstPart(xLcs), cid);
      StaysInserting(op, x.first, opLcs, FirstPart(xLcs), cid);
      InsertingLeaves(op);
      InsertingLeaves(tmp);
      AdvancedMatches(op, x.first, opLcs, xLcs, cid);
      AnchoredPass(tmp, x.second, Advanced(opLcs, xLcs, cid), SecondPart(xLcs), cid, Plain(l, x.first), ks);
    } else if op.Split? {
      AnchoredPassParts(op, x, opLcs, xLcs, cid, l, ks);
    } else {
      AnchoredSingle(op, x, opLcs, xLcs, cid, l, ks[0]);
      assert ks == [ks[0]];
    }
  }

  lemma PartsMatch(x: Operation, xLcs: Operation)
    requires x.Split? && Matches(x, xLcs)
    ensures Matches(x.first, FirstPart(xLcs)) && Matches(x.second, SecondPart(xLcs))
  {
  }

  /** Behind the first part of what is passed, the earlier state has the shape of the operation again. */
  lemma AdvancedMatches(op: Operation, x: Operation, opLcs: Operation, xLcs: Operation, cid: Cid)
    requires Matches(op, opLcs)
    ensures Matches(Transform(op, x, opLcs, FirstPart(xLcs), cid), Advanced(opLcs, xLcs, cid))
  {
    hide Transform;
    if xLcs.Split? {
      BothMatch(op, x, opLcs, xLcs.first, cid, opLcs, xLcs.first);
    } else {
      TransformMatches(op, x, opLcs, xLcs, cid);
      MatchesTransitive(Transform(op, x, opLcs, xLcs, cid), op, opLcs);
    }
  }

  lemma {:induction false} AnchoredPassParts(op: Operation, x: Operation, opLcs: Operation, xLcs: Operation, cid: Cid,
                                             l: seq<Cell>, ks: seq<nat>)
    requires Matches(op, opLcs) && Matches(x, xLcs) && Apply(x, l).ok && Anchored(op, l, ks)
    requires op.Split? && !x.Split?
    ensures Anchored(Transform(op, x, opLcs, xLcs, cid), Plain(l, x), ks)
    decreases op.Inserts() + x.Inserts(), op.Leaves() + x.Leaves(), 0
  {
    hide Transform, Placed;
    var o1, o2, l1, l2, flip := op.first, op.second, FirstPart(opLcs), SecondPart(opLcs), cid.Flip();
    assert flip.Flip() == cid;
    var x' := Transform(x, o1, xLcs, l1, flip);
    AnchoredInserts(o1, l, ks[..o1.Inserts()]);
    AnchoredInserts(o2, Plain(l, o1), ks[o1.Inserts()..]);
    PartsMatch(op, opLcs);
    SplitLcs(op, x, opLcs, xLcs, cid);
    AnchoredPass(o1, x, l1, xLcs, cid, l, ks[..o1.Inserts()]);
    MarkedMeet(o1, l1, PLAIN, x, xLcs, PLAIN, cid, l);
    MarkedMeet(x, xLcs, PLAIN, o1, l1, PLAIN, flip, l);
    Applies(x', PLAIN, Plain(l, o1));
    AdvancedMatches(x, o1, xLcs, opLcs, flip);
    Smaller(x, o1, xLcs, l1, flip);
    Smaller(o1, x, l1, xLcs, cid);
    InsertingLeaves(o1);
    AnchoredPass(o2, x', l2, Advanced(xLcs, opLcs, flip), cid, Plain(l, o1), ks[o1.Inserts()..]);
    Smaller(o2, x', l2, Advanced(xLcs, opLcs, flip), cid);
  }

  // ---------- Operations that stand where they stood are in a steady order ----------

  lemma {:induction false} InsertsKeepLabels(op: Operation, l: seq<Cell>, n: nat)
    requires Inserting(op) && Apply(op, l).ok && HasLabels(l, n)
    ensures HasLabels(Plain(l, op), n)
    decreases op
  {
    if op.Split? {
      hide HasLabels, Plain;
      PlainSplit(l, op);
      InsertsKeepLabels(op.first, l, n);
      InsertsKeepLabels(op.second, Plain(l, op.first), n);
    } else {
      forall k | 0 < k <= n ensures HasLabel(Plain(l, op), k) {
        assert HasLabel(l, k);
        var i :| 0 <= i < |l| && l[i].author == k;
        assert Plain(l, op)[if i < op.pos then i else i + |op.text|].author == k;
      }
    }
  }

  ghost predicate Bounded(ks: seq<nat>, n: nat) {
    forall i :: 0 <= i < |ks| ==> ks[i] <= n
  }

  /** An insertion is behind another one at the earlier state only if its place is. */
  lemma PlacesInOrder(l: seq<Cell>, n: nat, p: nat, k: nat, q: nat, j: nat)
    requires HasLabels(l, n) && Placed(l, p, k) && Placed(l, q, j) && q <= p && j <= n
    ensures j <= k
  {
    if j > 0 {
      assert HasLabel(l, j);
    }
  }

  lemma SteadyPlaces(p: Shared, q: Shared, l: seq<Cell>, lcs: seq<Cell>, n: nat, k: nat, j: nat)
    requires p.op.Insert? && q.op.Insert? && p.lcs.Insert? && q.lcs.Insert? && HasLabels(lcs, n) && k <= n && j <= n
    requires Placed(l, p.op.pos, k) && Placed(l, q.op.pos, j)
    requires Placed(lcs, p.lcs.pos, k) && Placed(lcs, q.lcs.pos, j)
    ensures SteadyPair(p, q, l)
  {
    hide HasLabels;
    if p.op.pos < q.op.pos && !Leads(p.lcs, p.user, q.lcs, q.user) {
      PlacesInOrder(lcs, n, p.lcs.pos, k, q.lcs.pos, j);
      assert l[p.op.pos].author == 0;
    }
    if q.op.pos < p.op.pos && !Leads(q.lcs, q.user, p.lcs, p.user) {
      PlacesInOrder(lcs, n, q.lcs.pos, j, p.lcs.pos, k);
      assert l[q.op.pos].author == 0;
    }
  }

  /** Two operations that are anchored now as they are at the earlier state. */
  lemma {:induction false} AnchoredSteady(p: Shared, q: Shared, l: seq<Cell>, lcs: seq<Cell>, n: nat,
                                          ks: seq<nat>, js: seq<nat>)
    requires p.Inserts() && q.Inserts() && p.user != q.user && HasLabels(lcs, n) && Bounded(ks, n) && Bounded(js, n)
    requires Anchored(p.op, l, ks) && Anchored(q.op, l, js) && Anchored(p.lcs, lcs, ks) && Anchored(q.lcs, lcs, js)
    ensures Steady(p, q, l)
    decreases p.lcs.Leaves() + q.lcs.Leaves()
  {
    hide Transform, Placed, HasLabels, Plain;
    InsertingHasInserts(p.lcs);
    InsertingHasInserts(q.lcs);
    MatchesSymmetric(p.op, p.lcs);
    MatchesSymmetric(q.op, q.lcs);
    if q.lcs.Split? {
      InsertingParts(q);
      var q1, q2, p1, i := FirstOf(q), SecondOf(q), Advance(p, FirstOf(q)), q.op.first.Inserts();
      PartsCount(q);
      AdvanceInserts(p, q1);
      AnchoredAdvance(p, q1, l, lcs, n, ks, js[..i]);
      AnchoredSteady(p, q1, l, lcs, n, ks, js[..i]);
      AnchoredSteady(p1, q2, Plain(l, q1.op), Plain(lcs, q1.lcs), n, ks, js[i..]);
    } else if p.lcs.Split? {
      InsertingParts(p);
      var p1, p2, q1, i := FirstOf(p), SecondOf(p), Advance(q, FirstOf(p)), p.op.first.Inserts();
      PartsCount(p);
      AdvanceInserts(q, p1);
      AnchoredAdvance(q, p1, l, lcs, n, js, ks[..i]);
      AnchoredSteady(p1, q, l, lcs, n, ks[..i], js);
      AnchoredSteady(p2, q1, Plain(l, p1.op), Plain(lcs, p1.lcs), n, ks[i..], js);
    } else {
      SteadyPlaces(p, q, l, lcs, n, ks[0], js[0]);
    }
  }

  lemma PartsCount(x: Shared)
    requires x.Inserts() && x.op.Split? && x.lcs.Split? && FirstOf(x).Inserts()
    ensures x.op.first.Inserts() == x.lcs.first.Inserts() && x.op.Inserts() == x.lcs.Inserts()
  {
    MatchesSymmetric(x.op, x.lcs);
    MatchesSymmetric(x.op.first, x.lcs.first);
  }

  lemma AnchoredAdvance(p: Shared, q: Shared, l: seq<Cell>, lcs: seq<Cell>, n: nat, ks: seq<nat>, js: seq<nat>)
    requires p.Inserts() && q.Inserts() && HasLabels(lcs, n)
    requires Anchored(p.op, l, ks) && Anchored(q.op, l, js) && Anchored(p.lcs, lcs, ks) && Anchored(q.lcs, lcs, js)
    ensures Anchored(Advance(p, q).op, Plain(l, q.op), ks)
    ensures Anchored(Advance(p, q).lcs, Plain(lcs, q.lcs), ks) && HasLabels(Plain(lcs, q.lcs), n)
  {
    hide Transform, Placed, HasLabels, Anchored, Plain;
    AnchoredInserts(q.op, l, js);
    AnchoredInserts(q.lcs, lcs, js);
    MatchesReflexive(p.lcs);
    MatchesReflexive(q.lcs);
    AnchoredPass(p.op, q.op, p.lcs, q.lcs, CidOf(p.user, q.user), l, ks);
    AnchoredPass(p.lcs, q.lcs, p.lcs, q.lcs, CidOf(p.user, q.user), lcs, ks);
    InsertsKeepLabels(q.lcs, lcs, n);
  }

  // ---------- Every insertion has a place ----------

  lemma {:induction false} PlaceExists(l: seq<Cell>, p: nat, n: nat) returns (k: nat)
    requires Increasing(l) && AtMost(l, n) && p <= |l|
    ensures Placed(l, p, k) && k <= n
    decreases p
  {
    if p == 0 {
      k := 0;
    } else if l[p - 1].author > 0 {
      k := l[p - 1].author;
    } else {
      k := PlaceExists(l, p - 1, n);
    }
  }

  lemma {:induction false} AnchorsExist(op: Operation, l: seq<Cell>, n: nat) returns (ks: seq<nat>)
    requires Inserting(op) && Apply(op, l).ok && Increasing(l) && AtMost(l, n)
    ensures Anchored(op, l, ks) && Bounded(ks, n)
    decreases op
  {
    if op.Split? {
      hide Increasing, AtMost, Plain, Placed;
      PlainSplit(l, op);
      var js := AnchorsExist(op.first, l, n);
      InsertsKeepIncreasing(op.first, l, n);
      var rest := AnchorsExist(op.second, Plain(l, op.first), n);
      AnchoredInserts(op.first, l, js);
      AnchoredInserts(op.second, Plain(l, op.first), rest);
      ks := js + rest;
      assert ks[..op.first.Inserts()] == js && ks[op.first.Inserts()..] == rest;
    } else {
      var k := PlaceExists(l, op.pos, n);
      ks := [k];
    }
  }

  lemma {:induction false} InsertsKeepIncreasing(op: Operation, l: seq<Cell>, n: nat)
    requires Inserting(op) && Apply(op, l).ok && Increasing(l) && AtMost(l, n)
    ensures Increasing(Plain(l, op)) && AtMost(Plain(l, op), n)
    decreases op
  {
    if op.Split? {
      hide Increasing, AtMost, Plain;
      PlainSplit(l, op);
      InsertsKeepIncreasing(op.first, l, n);
      InsertsKeepIncreasing(op.second, Plain(l, op.first), n);
    }
  }
}
