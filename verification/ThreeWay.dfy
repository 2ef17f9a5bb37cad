/** Three operations made in one state: an operation has the same effect whichever of the two others it is
    transformed against first (the transformation property C2).  All pairs are compared in that state. */
module ThreeWay {
  import opened Ropes
  import opened Cuts
  import opened Operations
  import opened Convergence
  import opened Striking

  /** The concurrency id with which the operation of user `u` is transformed against that of `v`. */
  function CidOf(u: nat, v: nat): Cid {
    if u > v then Other else Self
  }

  /** The operation of user `u` with the effect of that of user `v` included. */
  function By(op: Operation, u: nat, against: Operation, v: nat): Operation {
    Against(op, against, CidOf(u, v))
  }

  /** Operation `c`, transformed against `a` and then against what `a` has made of `b`, and compared with both
      as they were made. */
  function Via(c: Operation, w: nat, a: Operation, u: nat, b: Operation, v: nat): Operation {
    Transform(Against(c, a, CidOf(w, u)), Against(b, a, CidOf(v, u)), c, b, CidOf(w, v))
  }

  /** The document after `a` and then `b`. */
  function Both(a: Operation, u: nat, b: Operation, v: nat, d: seq<Cell>): seq<Cell> {
    Apply(Against(b, a, CidOf(v, u)), Apply(a, d).doc).doc
  }

  /** The two ways of transforming `c` have the same effect on the document they are meant for. */
  ghost predicate SameEffect(c: Operation, w: nat, a: Operation, u: nat, b: Operation, v: nat, d: seq<Cell>) {
    && Both(a, u, b, v, d) == Both(b, v, a, u, d)
    && Apply(Via(c, w, a, u, b, v), Both(a, u, b, v, d)).ok
    && Apply(Via(c, w, a, u, b, v), Both(a, u, b, v, d)) == Apply(Via(c, w, b, v, a, u), Both(a, u, b, v, d))
  }

  lemma BothAgree(a: Operation, u: nat, b: Operation, v: nat, d: seq<Cell>)
    requires u != v && Apply(a, d).ok && Apply(b, d).ok
    ensures Apply(Against(b, a, CidOf(v, u)), Apply(a, d).doc).ok
    ensures Both(a, u, b, v, d) == Both(b, v, a, u, d)
  {
    hide Transform;
    Convergent(a, b, CidOf(u, v), d);
  }

  // ---------- Earlier states do not matter to deletions ----------

  /** Without two insertions the earlier states and the concurrency id have no influence. */
  lemma {:induction false} LcsIrrelevant(op: Operation, against: Operation, opLcs: Operation, agLcs: Operation,
                                         cid: Cid, other: Cid)
    requires op.Inserts() == 0 || against.Inserts() == 0
    ensures Transform(op, against, opLcs, agLcs, cid) == Against(op, against, other)
    decreases op.Inserts() + against.Inserts(), op.Leaves() + against.Leaves()
  {
    if against.Split? {
      var lcs1 := if agLcs.Split? then agLcs.first else agLcs;
      var lcs2 := if agLcs.Split? then agLcs.second else agLcs;
      var opLcs2 := if agLcs.Split? then Transform(opLcs, lcs1, opLcs, lcs1, cid) else opLcs;
      LcsIrrelevant(op, against.first, opLcs, lcs1, cid, other);
      var tmp := Against(op, against.first, other);
      LcsIrrelevant(tmp, against.second, opLcs2, lcs2, cid, other);
      AgainstSplit(op, against, other);
    } else if op.Split? {
      var lcs1 := if opLcs.Split? then opLcs.first else opLcs;
      var lcs2 := if opLcs.Split? then opLcs.second else opLcs;
      var agLcs2 := if opLcs.Split? then Transform(agLcs, lcs1, agLcs, lcs1, cid.Flip()) else agLcs;
      LcsIrrelevant(op.first, against, lcs1, agLcs, cid, other);
      LcsIrrelevant(against, op.first, agLcs, lcs1, cid.Flip(), other.Flip());
      var against' := Against(against, op.first, other.Flip());
      LcsIrrelevant(op.second, against', lcs2, agLcs2, cid, other);
      SplitAgainst(op, against, other);
    } else {
      AgainstSingle(op, against, other);
    }
  }

  // ---------- Deletions ----------

  /** A deletion, however it reaches the document after two other operations, deletes what is left of
      its range there. */
  lemma DeletionVia(c: Operation, w: nat, a: Operation, u: nat, b: Operation, v: nat, d: seq<Cell>, m: seq<Cell>)
    requires u != v && Apply(a, d).ok && Apply(b, d).ok
    requires |m| == |d| && Strikes(c, m)
    ensures var n := Both(Blank(a, PLAIN), u, Blank(b, PLAIN), v, m);
      && |n| == |Both(a, u, b, v, d)|
      && Strikes(Via(c, w, a, u, b, v), n)
  {
    hide Transform, Strikes, Blank;
    var a', b' := Blank(a, PLAIN), Blank(b, PLAIN);
    BlankApply(a, PLAIN, d, m);
    BlankApply(b, PLAIN, d, m);
    BothAgree(a', u, b', v, m);
    BothAgree(a, u, b, v, d);
    var m1, d1 := Apply(a', m).doc, Apply(a, d).doc;
    StrikesAgainst(c, a, CidOf(w, u), m);
    var c1, b1 := Against(c, a, CidOf(w, u)), Against(b, a, CidOf(v, u));
    BlankAgainst(b, a, CidOf(v, u), PLAIN, PLAIN);
    BlankApply(b1, PLAIN, d1, m1);
    StrikesAgainst(c1, b1, CidOf(w, v), m1);
    NoInserts(c1, m1);
    LcsIrrelevant(c1, b1, c, b, CidOf(w, v), CidOf(w, v));
  }

  lemma NoInserts(op: Operation, m: seq<Cell>)
    requires Strikes(op, m)
    ensures op.Inserts() == 0
  {
  }

  /** C2 for deletions, also split ones, against any two operations. */
  lemma {:induction false} DeletionThreeWay(c: Operation, w: nat, a: Operation, u: nat, b: Operation, v: nat,
                                            d: seq<Cell>)
    requires u != v && c.Inserts() == 0
    requires Apply(a, d).ok && Apply(b, d).ok && Apply(c, d).ok
    ensures SameEffect(c, w, a, u, b, v, d)
  {
    hide Transform, Strikes, Blank;
    var m := MaskExists(c, d);
    var a', b' := Blank(a, PLAIN), Blank(b, PLAIN);
    BlankApply(a, PLAIN, d, m);
    BlankApply(b, PLAIN, d, m);
    BothAgree(a, u, b, v, d);
    BothAgree(a', u, b', v, m);
    DeletionVia(c, w, a, u, b, v, d, m);
    DeletionVia(c, w, b, v, a, u, d, m);
    var d2, n := Both(a, u, b, v, d), Both(a', u, b', v, m);
    StrikesKeep(Via(c, w, a, u, b, v), d2, n);
    StrikesKeep(Via(c, w, b, v, a, u), d2, n);
  }

  // ---------- Insertions ----------

  lemma {:induction false} InsertPastDeletion(op: Operation, x: Operation, opLcs: Operation, xLcs: Operation, cid: Cid)
    requires op.Insert? && x.Inserts() == 0
    ensures Transform(op, x, opLcs, xLcs, cid) == Insert(Past(x, op.pos), op.text)
    decreases x
  {
    if x.Split? {
      LcsIrrelevant(op, x, opLcs, xLcs, cid, cid);
      AgainstSplit(op, x, cid);
      InsertPastDeletion(op, x.first, op, x.first, cid);
      var tmp := Against(op, x.first, cid);
      InsertPastDeletion(tmp, x.second, tmp, x.second, cid);
    }
  }

  lemma {:induction false} PastMonotone(x: Operation, p: nat, q: nat)
    requires p <= q
    ensures Past(x, p) <= Past(x, q)
  {
    if x.Split? {
      PastMonotone(x.first, p, q);
      PastMonotone(x.second, Past(x.first, p), Past(x.first, q));
    }
  }

  lemma KeepCons(c: Cell, d: seq<Cell>, k: Cell, m: seq<Cell>)
    requires |d| == |m|
    ensures Keep([c] + d, [k] + m) == (if k == STRUCK then [] else [c]) + Keep(d, m)
  {
    assert ([c] + d)[1..] == d && ([k] + m)[1..] == m;
  }

  /** Crossing out twice does not depend on the order. */
  lemma {:induction false} KeepTwice(d: seq<Cell>, x: seq<Cell>, y: seq<Cell>)
    requires |d| == |x| == |y|
    ensures |Keep(d, x)| == |Keep(y, x)| && |Keep(d, y)| == |Keep(x, y)|
    ensures Keep(Keep(d, x), Keep(y, x)) == Keep(Keep(d, y), Keep(x, y))
  {
    if d != [] {
      var d', x', y' := d[1..], x[1..], y[1..];
      KeepTwice(d', x', y');
      assert Keep(d, x) == if x[0] == STRUCK then Keep(d', x') else [d[0]] + Keep(d', x');
      assert Keep(y, x) == if x[0] == STRUCK then Keep(y', x') else [y[0]] + Keep(y', x');
      assert Keep(d, y) == if y[0] == STRUCK then Keep(d', y') else [d[0]] + Keep(d', y');
      assert Keep(x, y) == if y[0] == STRUCK then Keep(x', y') else [x[0]] + Keep(x', y');
      hide Keep;
      if x[0] != STRUCK {
        KeepCons(d[0], Keep(d', x'), y[0], Keep(y', x'));
      }
      if y[0] != STRUCK {
        KeepCons(d[0], Keep(d', y'), x[0], Keep(x', y'));
      }
    }
  }

  /** A position moved behind two deletions. */
  lemma PastTwo(a: Operation, b: Operation, cid: Cid, d: seq<Cell>, ma: seq<Cell>, mb: seq<Cell>, p: nat)
    requires |ma| == |mb| == |d| && Strikes(a, ma) && Strikes(b, mb) && p <= |d|
    ensures |Keep(d[..p], ma[..p])| == |Keep(mb[..p], ma[..p])|
    ensures Past(Against(b, a, cid), Past(a, p)) == |Keep(Keep(d[..p], ma[..p]), Keep(mb[..p], ma[..p]))|
  {
    hide Transform, Keep, Strikes, Blank;
    NoInserts(a, ma);
    var d1, m1, q := Apply(a, d).doc, Apply(a, mb).doc, Past(a, p);
    StrikesPast(a, d, ma, p);
    StrikesPast(a, mb, ma, p);
    StrikesKeep(a, d, ma);
    StrikesKeep(a, mb, ma);
    BlankApply(a, PLAIN, mb, mb);
    BlankApply(a, PLAIN, d, mb);
    KeepTwice(d[..p], ma[..p], mb[..p]);
    KeepTwice(d, ma, mb);
    StrikesAgainst(b, a, cid, mb);
    StrikesPast(Against(b, a, cid), d1, m1, q);
  }

  lemma {:induction false} InsertTwoDeletions(c: Operation, w: nat, a: Operation, u: nat, b: Operation, v: nat,
                                              d: seq<Cell>)
    requires c.Insert? && a.Inserts() == 0 && b.Inserts() == 0
    requires Apply(a, d).ok && Apply(b, d).ok && Apply(c, d).ok
    ensures Via(c, w, a, u, b, v) == Via(c, w, b, v, a, u)
  {
    hide Transform, Keep, Strikes, Past;
    var p := c.pos;
    var ma := MaskExists(a, d);
    var mb := MaskExists(b, d);
    InsertPastDeletion(c, a, c, a, CidOf(w, u));
    InsertPastDeletion(c, b, c, b, CidOf(w, v));
    var a1, b1 := Against(a, b, CidOf(u, v)), Against(b, a, CidOf(v, u));
    InsertPastDeletion(Insert(Past(a, p), c.text), b1, c, b, CidOf(w, v));
    InsertPastDeletion(Insert(Past(b, p), c.text), a1, c, a, CidOf(w, u));
    PastTwo(a, b, CidOf(v, u), d, ma, mb, p);
    PastTwo(b, a, CidOf(u, v), d, mb, ma, p);
    KeepTwice(d[..p], ma[..p], mb[..p]);
  }

  /** A mask and the document it covers are moved by the same insertion. */
  lemma MaskInserted(a: Operation, b: Operation, cid: Cid, d: seq<Cell>, mb: seq<Cell>)
    requires a.Insert? && Apply(a, d).ok && |mb| == |d| && Strikes(b, mb)
    ensures Strikes(Against(b, a, cid), Inserted(mb, a.pos, Const(PLAIN, |a.text|)))
  {
    hide Transform, Strikes;
    assert Apply(Blank(a, PLAIN), mb) == Outcome(true, Inserted(mb, a.pos, Const(PLAIN, |a.text|)));
    StrikesAgainst(b, a, cid, mb);
  }

  /** Where a position in front of an insertion is after a deletion that was transformed against it. */
  lemma PastBeforeInserted(a: Operation, b: Operation, cid: Cid, d: seq<Cell>, mb: seq<Cell>, p: nat)
    requires a.Insert? && Apply(a, d).ok && |mb| == |d| && Strikes(b, mb) && p <= a.pos
    ensures Past(Against(b, a, cid), p) == Past(b, p)
  {
    hide Transform, Keep, Strikes, Past, Apply, Inserted;
    assert a.pos <= |d| && Apply(a, d).doc == Inserted(d, a.pos, a.text) by { ApplyInsert(a, d); }
    var ink := Const(PLAIN, |a.text|);
    MaskInserted(a, b, cid, d, mb);
    StrikesPast(b, d, mb, p);
    var d1, m1 := Inserted(d, a.pos, a.text), Inserted(mb, a.pos, ink);
    StrikesPast(Against(b, a, cid), d1, m1, p);
    PrefixInserted(d, a.pos, a.text, p);
    PrefixInserted(mb, a.pos, ink, p);
  }

  lemma PastBehindInserted(a: Operation, b: Operation, cid: Cid, d: seq<Cell>, mb: seq<Cell>, p: nat)
    requires a.Insert? && Apply(a, d).ok && |mb| == |d| && Strikes(b, mb) && a.pos <= p <= |d|
    ensures Past(Against(b, a, cid), p + |a.text|) == Past(b, p) + |a.text|
  {
    hide Transform, Keep, Strikes, Past, Apply, Inserted;
    assert Apply(a, d).doc == Inserted(d, a.pos, a.text) by { ApplyInsert(a, d); }
    var q, x := a.pos, |a.text|;
    var ink := Const(PLAIN, x);
    MaskInserted(a, b, cid, d, mb);
    StrikesPast(b, d, mb, p);
    var d1, m1 := Inserted(d, q, a.text), Inserted(mb, q, ink);
    StrikesPast(Against(b, a, cid), d1, m1, p + x);
    PrefixInserted(d, q, a.text, p);
    PrefixInserted(mb, q, ink, p);
    KeepJoin(d[..q] + a.text, mb[..q] + ink, d[q..p], mb[q..p]);
    KeepJoin(d[..q], mb[..q], a.text, ink);
    KeepJoin(d[..q], mb[..q], d[q..p], mb[q..p]);
    KeepClear(a.text, ink);
  }

  lemma ApplyInsert(op: Operation, d: seq<Cell>)
    requires op.Insert? && Apply(op, d).ok
    ensures op.pos <= |d| && Apply(op, d).doc == Inserted(d, op.pos, op.text)
  {
  }

  lemma PrefixInserted(d: seq<Cell>, q: nat, x: seq<Cell>, p: nat)
    requires q <= |d| && p <= |d|
    ensures p <= q ==> Inserted(d, q, x)[..p] == d[..p]
    ensures q <= p ==> Inserted(d, q, x)[..p + |x|] == d[..q] + x + d[q..p] && d[..p] == d[..q] + d[q..p]
  {
  }

  /** Whether insertion `c` ends up in front of insertion `a`. */
  predicate Before(c: Operation, w: nat, a: Operation, u: nat)
    requires c.Insert? && a.Insert?
  {
    c.pos < a.pos || (c.pos == a.pos && CidOf(w, u) == Other)
  }

  lemma InsertShift(c: Operation, w: nat, a: Operation, u: nat)
    requires c.Insert? && a.Insert?
    ensures Against(c, a, CidOf(w, u)) == Insert(c.pos + (if Before(c, w, a, u) then 0 else |a.text|), c.text)
  {
    TransformInserts(c, a, c, a, CidOf(w, u));
  }

  lemma InsertFirst(c: Operation, w: nat, a: Operation, u: nat, b: Operation, v: nat)
    requires c.Insert? && a.Insert? && b.Inserts() == 0
    ensures Via(c, w, a, u, b, v) == Insert(
      Past(Against(b, a, CidOf(v, u)), c.pos + (if Before(c, w, a, u) then 0 else |a.text|)), c.text)
  {
    hide Past;
    var c1, b1 := Against(c, a, CidOf(w, u)), Against(b, a, CidOf(v, u));
    InsertShift(c, w, a, u);
    InsertPastDeletion(c1, b1, c, b, CidOf(w, v));
  }

  lemma DeleteFirst(c: Operation, w: nat, a: Operation, u: nat, b: Operation, v: nat)
    requires c.Insert? && a.Insert? && b.Inserts() == 0
    ensures Via(c, w, b, v, a, u)
      == Insert(Past(b, c.pos) + (if Before(c, w, a, u) then 0 else |a.text|), c.text)
  {
    hide Transform, Past;
    InsertPastDeletion(c, b, c, b, CidOf(w, v));
    InsertPastDeletion(a, b, a, b, CidOf(u, v));
    TransformInserts(Insert(Past(b, c.pos), c.text), Insert(Past(b, a.pos), a.text), c, a, CidOf(w, u));
    if c.pos <= a.pos {
      PastMonotone(b, c.pos, a.pos);
    } else {
      PastMonotone(b, a.pos, c.pos);
    }
  }

  lemma {:induction false} InsertAroundDeletion(c: Operation, w: nat, a: Operation, u: nat, b: Operation, v: nat,
                                                d: seq<Cell>)
    requires c.Insert? && a.Insert? && b.Inserts() == 0
    requires Apply(a, d).ok && Apply(b, d).ok && Apply(c, d).ok
    ensures Via(c, w, a, u, b, v) == Via(c, w, b, v, a, u)
  {
    hide Strikes, Via, Past;
    var mb := MaskExists(b, d);
    InsertFirst(c, w, a, u, b, v);
    DeleteFirst(c, w, a, u, b, v);
    if Before(c, w, a, u) {
      PastBeforeInserted(a, b, CidOf(v, u), d, mb, c.pos);
    } else {
      PastBehindInserted(a, b, CidOf(v, u), d, mb, c.pos);
    }
  }

  lemma TransformInserts(op: Operation, against: Operation, opLcs: Operation, agLcs: Operation, cid: Cid)
    requires op.Insert? && against.Insert?
    ensures Transform(op, against, opLcs, agLcs, cid) == InsertInsert(op, against, opLcs, agLcs, cid)
  {
  }

  /** An insertion taken past two others, with and without regard to the earlier states. */
  lemma {:induction false} ThreeInserts(c: Operation, w: nat, a: Operation, u: nat, b: Operation, v: nat)
    requires c.Insert? && a.Insert? && b.Insert? && u != v && v != w && u != w
    ensures Via(c, w, a, u, b, v) == Via(c, w, b, v, a, u)
    ensures By(By(c, w, a, u), w, By(b, v, a, u), v) == By(By(c, w, b, v), w, By(a, u, b, v), u)
  {
    hide Transform;
    AgainstSingle(c, a, CidOf(w, u));
    AgainstSingle(c, b, CidOf(w, v));
    AgainstSingle(a, b, CidOf(u, v));
    AgainstSingle(b, a, CidOf(v, u));
    AgainstSingle(By(c, w, a, u), By(b, v, a, u), CidOf(w, v));
    AgainstSingle(By(c, w, b, v), By(a, u, b, v), CidOf(w, u));
    TransformInserts(By(c, w, a, u), By(b, v, a, u), c, b, CidOf(w, v));
    TransformInserts(By(c, w, b, v), By(a, u, b, v), c, a, CidOf(w, u));
  }
}
