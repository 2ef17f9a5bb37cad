/** What a deletion deletes, independently of the order in which it is transformed.

    A document is covered by a mask of the same length in which some cells are struck out.  An
    operation strikes a mask if it deletes the struck cells and no others.  Transformation moves masks
    and operations alike. */
module Striking {
  import opened Ropes
  import opened Cuts
  import opened Operations
  import opened Convergence
  import opened Undo

  /** The cell of a mask that stands for a deleted character, and the one for any other. */
  const STRUCK: Cell := Cell([], 1)
  const PLAIN: Cell := Cell([], 0)

  function Const(c: Cell, n: nat): (r: seq<Cell>)
    ensures |r| == n && forall i :: 0 <= i < n ==> r[i] == c
  {
    seq(n, _ => c)
  }

  /** The operation with every character replaced by `c`. */
  function Blank(op: Operation, c: Cell): Operation {
    match op
    case Insert(pos, text) => Insert(pos, Const(c, |text|))
    case Delete(pos, text) => Delete(pos, Const(c, |text|))
    case Split(first, second) => Split(Blank(first, c), Blank(second, c))
  }

  lemma {:induction false} BlankKeepsShape(op: Operation, c: Cell)
    ensures Blank(op, c).Inserts() == op.Inserts() && Blank(op, c).Leaves() == op.Leaves()
    ensures Blank(op, c).Split? == op.Split? && Blank(op, c).Insert? == op.Insert?
    ensures Blank(op, c).Position() == op.Position()
  {
    if op.Split? {
      BlankKeepsShape(op.first, c);
      BlankKeepsShape(op.second, c);
    }
  }

  lemma ConstParts(c: Cell, n: nat, b: nat, k: nat)
    requires b + k <= n
    ensures Erased(Const(c, n), b, k) == Const(c, n - k)
    ensures Const(c, n)[..b] == Const(c, b) && Const(c, n)[b..] == Const(c, n - b)
  {
  }

  lemma BlankDeleteInsert(op: Operation, against: Operation, c: Cell, k: Cell)
    requires op.Delete? && against.Insert?
    ensures DeleteInsert(Blank(op, c), Blank(against, k)) == Blank(DeleteInsert(op, against), c)
  {
    hide Const;
    var n := |op.text|;
    if op.pos < against.pos < op.pos + n {
      ConstParts(c, n, against.pos - op.pos, 0);
    }
  }

  lemma BlankOverlap(op: Operation, pos: nat, begin: nat, length: nat, c: Cell)
    requires op.Delete? && begin + length <= |op.text|
    ensures Overlap(Blank(op, c), pos, begin, length) == Blank(Overlap(op, pos, begin, length), c)
  {
    hide Const, Erased;
    ConstParts(c, |op.text|, begin, length);
  }

  lemma BlankDeleteDelete(op: Operation, against: Operation, c: Cell, k: Cell)
    requires op.Delete? && against.Delete?
    ensures DeleteDelete(Blank(op, c), Blank(against, k)) == Blank(DeleteDelete(op, against), c)
  {
    hide Const, Overlap;
    var ownEnd, otherEnd := op.pos + |op.text|, against.pos + |against.text|;
    if ownEnd > against.pos && op.pos < otherEnd {
      if against.pos <= op.pos {
        BlankOverlap(op, against.pos, 0, if otherEnd >= ownEnd then |op.text| else otherEnd - op.pos, c);
      } else {
        var length := if otherEnd >= ownEnd then ownEnd - against.pos else |against.text|;
        BlankOverlap(op, op.pos, against.pos - op.pos, length, c);
      }
    }
  }

  lemma BlankSingle(op: Operation, against: Operation, opLcs: Operation, agLcs: Operation, cid: Cid, c: Cell, k: Cell)
    requires !op.Split? && !against.Split?
    ensures Transform(Blank(op, c), Blank(against, k), Blank(opLcs, c), Blank(agLcs, k), cid)
      == Blank(Transform(op, against, opLcs, agLcs, cid), c)
  {
    hide Const, DeleteInsert, DeleteDelete;
    BlankKeepsShape(opLcs, c);
    BlankKeepsShape(agLcs, k);
    if op.Delete? {
      if against.Insert? {
        BlankDeleteInsert(op, against, c, k);
      } else {
        BlankDeleteDelete(op, against, c, k);
      }
    }
  }

  /** Transformation depends only on positions and lengths. */
  lemma {:induction false} BlankTransform(op: Operation, against: Operation, opLcs: Operation, agLcs: Operation,
                                          cid: Cid, c: Cell, k: Cell)
    ensures Transform(Blank(op, c), Blank(against, k), Blank(opLcs, c), Blank(agLcs, k), cid)
      == Blank(Transform(op, against, opLcs, agLcs, cid), c)
    decreases opLcs.Inserts() + agLcs.Inserts(), opLcs.Leaves() + agLcs.Leaves(),
              op.Inserts() + against.Inserts(), op.Leaves() + against.Leaves()
  {
    BlankKeepsShape(op, c);
    BlankKeepsShape(against, k);
    BlankKeepsShape(opLcs, c);
    BlankKeepsShape(agLcs, k);
    if against.Split? {
      if agLcs.Split? {
        BlankTransform(opLcs, agLcs.first, opLcs, agLcs.first, cid, c, k);
        BlankTransform(op, against.first, opLcs, agLcs.first, cid, c, k);
        BlankTransform(Transform(op, against.first, opLcs, agLcs.first, cid), against.second,
                       Transform(opLcs, agLcs.first, opLcs, agLcs.first, cid), agLcs.second, cid, c, k);
      } else {
        BlankTransform(op, against.first, opLcs, agLcs, cid, c, k);
        BlankTransform(Transform(op, against.first, opLcs, agLcs, cid), against.second, opLcs, agLcs, cid, c, k);
      }
    } else if op.Split? {
      var flip := cid.Flip();
      if opLcs.Split? {
        BlankTransform(agLcs, opLcs.first, agLcs, opLcs.first, flip, k, c);
        BlankTransform(op.first, against, opLcs.first, agLcs, cid, c, k);
        BlankTransform(against, op.first, agLcs, opLcs.first, flip, k, c);
        BlankTransform(op.second, Transform(against, op.first, agLcs, opLcs.first, flip),
                       opLcs.second, Transform(agLcs, opLcs.first, agLcs, opLcs.first, flip), cid, c, k);
      } else {
        BlankTransform(op.first, against, opLcs, agLcs, cid, c, k);
        BlankTransform(against, op.first, agLcs, opLcs, flip, k, c);
        BlankTransform(op.second, Transform(against, op.first, agLcs, opLcs, flip), opLcs, agLcs, cid, c, k);
      }
    } else {
      BlankSingle(op, against, opLcs, agLcs, cid, c, k);
    }
  }

  lemma BlankAgainst(op: Operation, against: Operation, cid: Cid, c: Cell, k: Cell)
    ensures Against(Blank(op, c), Blank(against, k), cid) == Blank(Against(op, against, cid), c)
  {
    BlankTransform(op, against, op, against, cid, c, k);
  }

  /** Applying an operation has the same outcome for all texts, as far as lengths are concerned. */
  lemma {:induction false} BlankApply(op: Operation, c: Cell, d: seq<Cell>, e: seq<Cell>)
    requires |d| == |e|
    ensures Apply(Blank(op, c), e).ok == Apply(op, d).ok
    ensures |Apply(Blank(op, c), e).doc| == |Apply(op, d).doc|
    ensures op.Inserts() == 0 ==> Apply(Blank(op, c), d) == Apply(op, d)
  {
    if op.Split? {
      BlankApply(op.first, c, d, e);
      BlankApply(op.second, c, Apply(op.first, d).doc, Apply(Blank(op.first, c), e).doc);
      BlankApply(op.first, c, d, d);
      BlankApply(op.second, c, Apply(op.first, d).doc, Apply(op.first, d).doc);
    }
  }

  // ---------- Masks ----------

  /** No cell is struck out. */
  ghost predicate Clear(m: seq<Cell>) {
    forall i :: 0 <= i < |m| ==> m[i] != STRUCK
  }

  /** `op` deletes exactly the struck cells. */
  ghost predicate Strikes(op: Operation, m: seq<Cell>) {
    && op.Inserts() == 0
    && Faithful(Blank(op, STRUCK), m)
    && Clear(Apply(Blank(op, STRUCK), m).doc)
  }

  lemma {:induction false} ClearApply(op: Operation, m: seq<Cell>)
    requires Clear(m)
    ensures Clear(Apply(Blank(op, PLAIN), m).doc)
  {
    if op.Split? {
      ClearApply(op.first, m);
      ClearApply(op.second, Apply(Blank(op.first, PLAIN), m).doc);
    }
  }

  /** Masks move along with the operations that strike them. */
  lemma StrikesAgainst(op: Operation, against: Operation, cid: Cid, m: seq<Cell>)
    requires Strikes(op, m) && Apply(Blank(against, PLAIN), m).ok
    ensures Strikes(Against(op, against, cid), Apply(Blank(against, PLAIN), m).doc)
  {
    hide Transform, Clear, Blank;
    var a, b := Blank(op, STRUCK), Blank(against, PLAIN);
    FaithfulApplies(a, m);
    FaithfulAgainst(a, b, cid, m);
    Convergent(a, b, cid, m);
    BlankAgainst(op, against, cid, STRUCK, PLAIN);
    BlankAgainst(against, op, cid.Flip(), PLAIN, STRUCK);
    ClearApply(Against(against, op, cid.Flip()), Apply(a, m).doc);
  }

  /** Every deletion strikes some mask. */
  lemma {:induction false} Unstrike(op: Operation, d: seq<Cell>, e: seq<Cell>)
    requires op.Inserts() == 0 && Apply(op, d).ok && |e| == |Apply(op, d).doc|
    ensures Faithful(Revert(Blank(op, STRUCK)), e)
    ensures |Apply(Revert(Blank(op, STRUCK)), e).doc| == |d|
  {
    if op.Split? {
      var d1 := Apply(op.first, d).doc;
      Unstrike(op.second, d1, e);
      FaithfulApplies(Revert(Blank(op.second, STRUCK)), e);
      var e1 := Apply(Revert(Blank(op.second, STRUCK)), e).doc;
      Unstrike(op.first, d, e1);
    }
  }

  lemma MaskExists(op: Operation, d: seq<Cell>) returns (m: seq<Cell>)
    requires op.Inserts() == 0 && Apply(op, d).ok
    ensures |m| == |d| && Strikes(op, m)
  {
    var e := Const(PLAIN, |Apply(op, d).doc|);
    var undo := Revert(Blank(op, STRUCK));
    Unstrike(op, d, e);
    m := Apply(undo, e).doc;
    RevertRestores(undo, e);
    RevertTwice(Blank(op, STRUCK));
  }

  // ---------- What is left ----------

  /** The cells of `d` that are not struck out in `m`. */
  ghost function Keep(d: seq<Cell>, m: seq<Cell>): (r: seq<Cell>)
    requires |d| == |m|
    ensures |r| <= |d|
  {
    if d == [] then [] else (if m[0] == STRUCK then [] else [d[0]]) + Keep(d[1..], m[1..])
  }

  lemma {:induction false} KeepJoin(d: seq<Cell>, m: seq<Cell>, e: seq<Cell>, n: seq<Cell>)
    requires |d| == |m| && |e| == |n|
    ensures Keep(d + e, m + n) == Keep(d, m) + Keep(e, n)
  {
    if d == [] {
      assert d + e == e && m + n == n;
    } else {
      assert (d + e)[1..] == d[1..] + e && (m + n)[1..] == m[1..] + n;
      KeepJoin(d[1..], m[1..], e, n);
    }
  }

  lemma {:induction false} KeepClear(d: seq<Cell>, m: seq<Cell>)
    requires |d| == |m| && Clear(m)
    ensures Keep(d, m) == d
  {
    if d != [] {
      assert Clear(m[1..]);
      KeepClear(d[1..], m[1..]);
    }
  }

  lemma {:induction false} KeepNone(d: seq<Cell>, m: seq<Cell>)
    requires |d| == |m| && m == Const(STRUCK, |m|)
    ensures Keep(d, m) == []
  {
    if d != [] {
      assert m[1..] == Const(STRUCK, |m| - 1);
      KeepNone(d[1..], m[1..]);
    }
  }

  /** Where position `p` is after a deletion. */
  function Past(op: Operation, p: nat): nat {
    match op
    case Split(first, second) => Past(second, Past(first, p))
    case Insert(_, _) => p
    case Delete(pos, text) => if p >= pos + |text| then p - |text| else if p < pos then p else pos
  }

  /** Deleting struck cells does not change what is left, in front of any position. */
  lemma {:induction false} KeepPast(op: Operation, d: seq<Cell>, m: seq<Cell>, p: nat)
    requires op.Inserts() == 0 && Faithful(Blank(op, STRUCK), m) && |d| == |m| && p <= |d|
    ensures var d', m', q := Apply(op, d).doc, Apply(Blank(op, STRUCK), m).doc, Past(op, p);
      && Apply(op, d).ok && q <= |d'| == |m'|
      && Keep(d'[..q], m'[..q]) == Keep(d[..p], m[..p])
      && (p == |d| ==> q == |d'|)
  {
    if op.Split? {
      var d1, m1 := Apply(op.first, d).doc, Apply(Blank(op.first, STRUCK), m).doc;
      FaithfulApplies(Blank(op.first, STRUCK), m);
      KeepPast(op.first, d, m, p);
      KeepPast(op.second, d1, m1, Past(op.first, p));
    } else {
      KeepPastDelete(op, d, m, p);
    }
  }

  lemma KeepPastDelete(op: Operation, d: seq<Cell>, m: seq<Cell>, p: nat)
    requires op.Delete? && Faithful(Blank(op, STRUCK), m) && |d| == |m| && p <= |d|
    ensures var d', m', q := Apply(op, d).doc, Apply(Blank(op, STRUCK), m).doc, Past(op, p);
      && Apply(op, d).ok && q <= |d'| == |m'|
      && Keep(d'[..q], m'[..q]) == Keep(d[..p], m[..p])
      && (p == |d| ==> q == |d'|)
  {
    hide Keep;
    var b, n := op.pos, |op.text|;
    assert m[b..b + n] == Const(STRUCK, n);
    if p < b {
      SliceErased(d, b, n, 0, p);
      SliceErased(m, b, n, 0, p);
      assert d[0..p] == d[..p] && m[0..p] == m[..p];
      assert Erased(d, b, n)[0..p] == Erased(d, b, n)[..p] && Erased(m, b, n)[0..p] == Erased(m, b, n)[..p];
    } else {
      KeepPastHole(d, m, b, n, p);
    }
  }

  lemma PrefixParts<T>(d: seq<T>, b: nat, e: nat, p: nat)
    requires b <= e <= p <= |d|
    ensures d[..p] == d[..b] + d[b..e] + d[e..p]
  {
  }

  lemma KeepPastHole(d: seq<Cell>, m: seq<Cell>, b: nat, n: nat, p: nat)
    requires b + n <= |d| == |m| && m[b..b + n] == Const(STRUCK, n) && b <= p <= |d|
    ensures var q := if p >= b + n then p - n else b;
      Keep(Erased(d, b, n)[..q], Erased(m, b, n)[..q]) == Keep(d[..p], m[..p])
  {
    hide Keep;
    var e := if p >= b + n then b + n else p;
    var q := if p >= b + n then p - n else b;
    PrefixParts(d, b, e, p);
    PrefixParts(m, b, e, p);
    KeepJoin(d[..b] + d[b..e], m[..b] + m[b..e], d[e..p], m[e..p]);
    KeepJoin(d[..b], m[..b], d[b..e], m[b..e]);
    assert m[b..e] == m[b..b + n][..e - b];
    KeepNone(d[b..e], m[b..e]);
    HolePrefix(d, b, n, p);
    HolePrefix(m, b, n, p);
    KeepJoin(d[..b], m[..b], d[e..p], m[e..p]);
    assert Keep(d[..b], m[..b]) + [] == Keep(d[..b], m[..b]);
  }

  lemma HolePrefix(d: seq<Cell>, b: nat, n: nat, p: nat)
    requires b + n <= |d| && b <= p <= |d|
    ensures p >= b + n ==> Erased(d, b, n)[..p - n] == d[..b] + d[b + n..p]
    ensures p < b + n ==> Erased(d, b, n)[..b] == d[..b] + d[p..p]
  {
  }

  /** Applying an operation that strikes the mask leaves what is not struck out. */
  lemma StrikesKeep(op: Operation, d: seq<Cell>, m: seq<Cell>)
    requires Strikes(op, m) && |d| == |m|
    ensures Apply(op, d) == Outcome(true, Keep(d, m))
  {
    var d', m' := Apply(op, d).doc, Apply(Blank(op, STRUCK), m).doc;
    KeepPast(op, d, m, |d|);
    assert d[..|d|] == d && m[..|d|] == m && d'[..|d'|] == d' && m'[..|d'|] == m';
    KeepClear(d', m');
  }

  /** A position moves in front of the cells that are left before it. */
  lemma StrikesPast(op: Operation, d: seq<Cell>, m: seq<Cell>, p: nat)
    requires Strikes(op, m) && |d| == |m| && p <= |d|
    ensures Apply(op, d).ok && Past(op, p) <= |Apply(op, d).doc|
    ensures Apply(op, d).doc[..Past(op, p)] == Keep(d[..p], m[..p])
  {
    var d', m', q := Apply(op, d).doc, Apply(Blank(op, STRUCK), m).doc, Past(op, p);
    KeepPast(op, d, m, p);
    assert Clear(m'[..q]);
    KeepClear(d'[..q], m'[..q]);
  }
}
