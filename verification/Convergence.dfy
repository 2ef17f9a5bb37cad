/** Concurrent operations converge: whichever of two operations is applied first, applying the
    transformed other one leads to the same document. */
module Convergence {
  import opened Ropes
  import opened Cuts
  import opened Operations

  /** Both operations can be applied to `d`, and after either one the transformed other one can be
      applied, with the same result. */
  ghost predicate Converge(a: Operation, b: Operation, cid: Cid, d: seq<Cell>) {
    var da, db := Apply(a, d), Apply(b, d);
    && da.ok && db.ok
    && Apply(Against(b, a, cid.Flip()), da.doc).ok
    && Apply(Against(b, a, cid.Flip()), da.doc) == Apply(Against(a, b, cid), db.doc)
  }

  lemma ConvergeSymmetric(a: Operation, b: Operation, cid: Cid, d: seq<Cell>)
    requires Converge(b, a, cid.Flip(), d)
    ensures Converge(a, b, cid, d)
  {
    assert cid.Flip().Flip() == cid;
  }

  // ---------- Texts ----------

  lemma InsertTwice<T>(d: seq<T>, p: nat, x: seq<T>, q: nat, y: seq<T>)
    requires p <= q <= |d|
    ensures Inserted(Inserted(d, p, x), q + |x|, y) == Inserted(Inserted(d, q, y), p, x)
  {
    assert Inserted(Inserted(d, p, x), q + |x|, y) == d[..p] + x + d[p..q] + y + d[q..];
    assert Inserted(Inserted(d, q, y), p, x) == d[..p] + x + d[p..q] + y + d[q..];
  }

  lemma InsertBeforeErase<T>(d: seq<T>, p: nat, x: seq<T>, a: nat, n: nat)
    requires p <= a && a + n <= |d|
    ensures Erased(Inserted(d, p, x), a + |x|, n) == Inserted(Erased(d, a, n), p, x)
  {
    assert Erased(Inserted(d, p, x), a + |x|, n) == d[..p] + x + d[p..a] + d[a + n..];
    assert Inserted(Erased(d, a, n), p, x) == d[..p] + x + d[p..a] + d[a + n..];
  }

  lemma InsertAfterErase<T>(d: seq<T>, p: nat, x: seq<T>, a: nat, n: nat)
    requires a + n <= p <= |d|
    ensures Erased(Inserted(d, p, x), a, n) == Inserted(Erased(d, a, n), p - n, x)
  {
    assert Erased(Inserted(d, p, x), a, n) == d[..a] + d[a + n..p] + x + d[p..];
    assert Inserted(Erased(d, a, n), p - n, x) == d[..a] + d[a + n..p] + x + d[p..];
  }

  lemma InsertInsideErase<T>(d: seq<T>, p: nat, x: seq<T>, a: nat, n: nat)
    requires a <= p <= a + n <= |d|
    ensures Erased(Erased(Inserted(d, p, x), a, p - a), a + |x|, n - (p - a)) == Inserted(Erased(d, a, n), a, x)
  {
    assert Erased(Inserted(d, p, x), a, p - a) == d[..a] + x + d[p..];
    assert Erased(Erased(Inserted(d, p, x), a, p - a), a + |x|, n - (p - a)) == d[..a] + x + d[a + n..];
    assert Inserted(Erased(d, a, n), a, x) == d[..a] + x + d[a + n..];
  }

  /** The text without two ranges, which may overlap or touch. */
  ghost function WithoutRanges<T>(d: seq<T>, a: nat, n: nat, b: nat, m: nat): seq<T>
    requires a + n <= |d| && b + m <= |d|
  {
    if a + n < b then d[..a] + d[a + n..b] + d[b + m..]
    else if b + m < a then d[..b] + d[b + m..a] + d[a + n..]
    else
      var lo := if a <= b then a else b;
      var hi := if a + n <= b + m then b + m else a + n;
      d[..lo] + d[hi..]
  }

  lemma RangesSymmetric<T>(d: seq<T>, a: nat, n: nat, b: nat, m: nat)
    requires a + n <= |d| && b + m <= |d|
    ensures WithoutRanges(d, a, n, b, m) == WithoutRanges(d, b, m, a, n)
  {
  }

  /** The second range lies behind the one that is erased first. */
  lemma EraseBehind<T>(d: seq<T>, a: nat, n: nat, b: nat, m: nat)
    requires a + n <= b && b + m <= |d|
    ensures Erased(Erased(d, a, n), b - n, m) == WithoutRanges(d, a, n, b, m)
  {
    assert Erased(Erased(d, a, n), b - n, m) == d[..a] + d[a + n..b] + d[b + m..];
  }

  /** The second range lies in front of the one that is erased first. */
  lemma EraseInFront<T>(d: seq<T>, a: nat, n: nat, b: nat, m: nat)
    requires b + m <= a && a + n <= |d|
    ensures Erased(Erased(d, a, n), b, m) == WithoutRanges(d, a, n, b, m)
  {
    assert Erased(Erased(d, a, n), b, m) == d[..b] + d[b + m..a] + d[a + n..];
  }

  lemma ErasedEnds<T>(d: seq<T>, a: nat, n: nat, lo: nat, k: nat)
    requires lo <= a <= k && k + n <= |d|
    ensures Erased(d, a, n)[..lo] == d[..lo]
    ensures Erased(d, a, n)[k..] == d[k + n..]
  {
  }

  /** The ranges overlap or touch: the rest of the second range, once the first is erased. */
  lemma EraseRest<T>(d: seq<T>, a: nat, n: nat, b: nat, m: nat)
    requires a <= b + m && b <= a + n && a + n <= |d| && b + m <= |d|
    ensures var lo := if a <= b then a else b; var hi := if a + n <= b + m then b + m else a + n;
      Erased(Erased(d, a, n), lo, hi - lo - n) == WithoutRanges(d, a, n, b, m)
  {
    var lo := if a <= b then a else b;
    var hi := if a + n <= b + m then b + m else a + n;
    ErasedEnds(d, a, n, lo, hi - n);
  }

  // ---------- Single operations ----------

  lemma AgainstSingle(op: Operation, against: Operation, cid: Cid)
    requires !op.Split? && !against.Split?
    ensures Against(op, against, cid) ==
      if op.Insert? then
        if against.Insert? then InsertInsert(op, against, op, against, cid) else InsertDelete(op, against)
      else
        if against.Insert? then DeleteInsert(op, against) else DeleteDelete(op, against)
  {
  }

  lemma {:induction false} InsertAndInsert(a: Operation, b: Operation, cid: Cid, d: seq<Cell>)
    requires a.Insert? && b.Insert? && Apply(a, d).ok && Apply(b, d).ok
    ensures Converge(a, b, cid, d)
  {
    if a.pos < b.pos || (a.pos == b.pos && cid == Other) {
      InsertInOrder(a, b, cid, d);
    } else {
      InsertInOrder(b, a, cid.Flip(), d);
      ConvergeSymmetric(a, b, cid, d);
    }
  }

  lemma InsertInOrder(a: Operation, b: Operation, cid: Cid, d: seq<Cell>)
    requires a.Insert? && b.Insert? && Apply(a, d).ok && Apply(b, d).ok
    requires a.pos < b.pos || (a.pos == b.pos && cid == Other)
    ensures Converge(a, b, cid, d)
  {
    hide Transform, Inserted;
    AgainstSingle(a, b, cid);
    AgainstSingle(b, a, cid.Flip());
    InsertTwice(d, a.pos, a.text, b.pos, b.text);
  }

  lemma {:induction false} InsertAndDelete(a: Operation, b: Operation, cid: Cid, d: seq<Cell>)
    requires a.Insert? && b.Delete? && Apply(a, d).ok && Apply(b, d).ok
    ensures Converge(a, b, cid, d)
  {
    hide Transform, Inserted, Erased;
    AgainstSingle(a, b, cid);
    AgainstSingle(b, a, cid.Flip());
    var n := |b.text|;
    if a.pos >= b.pos + n {
      InsertAfterErase(d, a.pos, a.text, b.pos, n);
    } else if a.pos <= b.pos {
      InsertBeforeErase(d, a.pos, a.text, b.pos, n);
    } else {
      InsertInsideDelete(a, b, cid, d);
    }
  }

  /** A deletion around an insertion: the deletion is split, deletes exactly its own text, and leaves the
      inserted text where the deletion starts. */
  lemma {:induction false} InsertInsideDelete(a: Operation, b: Operation, cid: Cid, d: seq<Cell>)
    requires a.Insert? && b.Delete? && Apply(a, d).ok && Apply(b, d).ok
    requires b.pos < a.pos < b.pos + |b.text|
    ensures Converge(a, b, cid, d)
    ensures Against(b, a, cid.Flip()) == SplitDelete(b, a.pos - b.pos, |a.text|)
    ensures Apply(Against(b, a, cid.Flip()), Apply(a, d).doc)
      == Outcome(true, Inserted(Erased(d, b.pos, |b.text|), b.pos, a.text))
  {
    hide Transform, Inserted, Erased;
    AgainstSingle(a, b, cid);
    AgainstSingle(b, a, cid.Flip());
    var n, k := |b.text|, a.pos - b.pos;
    InsertInsideErase(d, a.pos, a.text, b.pos, n);
    var first, second := Delete(b.pos, b.text[..k]), Delete(b.pos + |a.text|, b.text[k..]);
    assert Against(b, a, cid.Flip()) == Split(first, second);
    var da := Inserted(d, a.pos, a.text);
    assert Apply(first, da) == Outcome(true, Erased(da, b.pos, k));
    assert Apply(second, Erased(da, b.pos, k)).ok;
  }

  /** After both deletions, in either order, exactly the union of their ranges is gone. */
  lemma {:induction false} DeleteAndDelete(a: Operation, b: Operation, cid: Cid, d: seq<Cell>)
    requires a.Delete? && b.Delete? && Apply(a, d).ok && Apply(b, d).ok
    ensures Converge(a, b, cid, d)
    ensures a.pos + |a.text| <= |d| && b.pos + |b.text| <= |d|
    ensures Apply(Against(b, a, cid.Flip()), Apply(a, d).doc)
      == Outcome(true, WithoutRanges(d, a.pos, |a.text|, b.pos, |b.text|))
  {
    hide Transform, Apply, WithoutRanges, DeleteDelete;
    ApplyDelete(a, d);
    ApplyDelete(b, d);
    DeletionOutcome(b, a, cid.Flip(), d);
    DeletionOutcome(a, b, cid, d);
    RangesSymmetric(d, a.pos, |a.text|, b.pos, |b.text|);
  }

  /** The number of characters that two ranges have in common. */
  function Common(a: Operation, b: Operation): (n: nat)
    requires a.Delete? && b.Delete?
  {
    var lo := if a.pos <= b.pos then b.pos else a.pos;
    var hi := if a.pos + |a.text| <= b.pos + |b.text| then a.pos + |a.text| else b.pos + |b.text|;
    if lo <= hi then hi - lo else 0
  }

  /** A deletion loses what it has in common with the other one. */
  lemma DeleteDeleteRange(a: Operation, b: Operation)
    requires a.Delete? && b.Delete?
    ensures var r := DeleteDelete(a, b);
      && r.Delete? && |r.text| == |a.text| - Common(a, b)
      && r.pos == if a.pos <= b.pos then a.pos
                  else if a.pos >= b.pos + |b.text| then a.pos - |b.text| else b.pos
  {
  }

  /** What a deletion makes of the document in which another one has been performed already. */
  lemma DeletionOutcome(op: Operation, other: Operation, cid: Cid, d: seq<Cell>)
    requires op.Delete? && other.Delete? && op.pos + |op.text| <= |d| && other.pos + |other.text| <= |d|
    ensures Apply(Against(op, other, cid), Erased(d, other.pos, |other.text|))
      == Outcome(true, WithoutRanges(d, other.pos, |other.text|, op.pos, |op.text|))
  {
    hide Transform, Erased, DeleteDelete, Apply, WithoutRanges;
    AgainstSingle(op, other, cid);
    DeleteDeleteRange(op, other);
    ApplyDelete(DeleteDelete(op, other), Erased(d, other.pos, |other.text|));
    if other.pos + |other.text| <= op.pos {
      EraseBehind(d, other.pos, |other.text|, op.pos, |op.text|);
    } else if op.pos + |op.text| <= other.pos {
      EraseInFront(d, other.pos, |other.text|, op.pos, |op.text|);
    } else {
      EraseRest(d, other.pos, |other.text|, op.pos, |op.text|);
    }
  }

  lemma ApplyDelete(op: Operation, d: seq<Cell>)
    requires op.Delete?
    ensures Apply(op, d).ok <==> op.pos + |op.text| <= |d|
    ensures op.pos + |op.text| <= |d| ==> Apply(op, d) == Outcome(true, Erased(d, op.pos, |op.text|))
  {
  }

  // ---------- Split operations ----------

  lemma AgainstSplit(a: Operation, b: Operation, cid: Cid)
    requires b.Split?
    ensures Against(a, b, cid) == Against(Against(a, b.first, cid), b.second, cid)
  {
  }

  /** The two parts of a split operation are transformed one after the other, whatever they are
      transformed against. */
  lemma {:induction false} SplitAgainst(a: Operation, b: Operation, cid: Cid)
    requires a.Split?
    ensures Against(a, b, cid)
      == Split(Against(a.first, b, cid), Against(a.second, Against(b, a.first, cid.Flip()), cid))
    decreases a.Inserts() + b.Inserts(), a.Leaves() + b.Leaves()
  {
    if b.Split? {
      var a1, a2, b1, b2 := a.first, a.second, b.first, b.second;
      SplitAgainst(a, b1, cid);
      var a1', b1' := Against(a1, b1, cid), Against(b1, a1, cid.Flip());
      var a' := Against(a, b1, cid);
      SplitAgainst(a', b2, cid);
      SplitAgainst(b, a1, cid.Flip());
    }
  }

  /** The transformation property C1, for all operations. */
  lemma {:induction false} Convergent(a: Operation, b: Operation, cid: Cid, d: seq<Cell>)
    requires Apply(a, d).ok && Apply(b, d).ok
    ensures Converge(a, b, cid, d)
    decreases a.Inserts() + b.Inserts(), a.Leaves() + b.Leaves()
  {
    if a.Split? {
      ConvergentSplit(a, b, cid, d);
    } else if b.Split? {
      ConvergentSplit(b, a, cid.Flip(), d);
      ConvergeSymmetric(a, b, cid, d);
    } else if a.Insert? && b.Insert? {
      InsertAndInsert(a, b, cid, d);
    } else if a.Insert? {
      InsertAndDelete(a, b, cid, d);
    } else if b.Insert? {
      InsertAndDelete(b, a, cid.Flip(), d);
      ConvergeSymmetric(a, b, cid, d);
    } else {
      DeleteAndDelete(a, b, cid, d);
    }
  }

  lemma {:induction false} ConvergentSplit(a: Operation, b: Operation, cid: Cid, d: seq<Cell>)
    requires a.Split? && Apply(a, d).ok && Apply(b, d).ok
    ensures Converge(a, b, cid, d)
    decreases a.Inserts() + b.Inserts(), a.Leaves() + b.Leaves(), 0
  {
    var a1, a2 := a.first, a.second;
    Convergent(a1, b, cid, d);
    var b' := Against(b, a1, cid.Flip());
    Convergent(a2, b', cid, Apply(a1, d).doc);
    SplitAgainst(a, b, cid);
    AgainstSplit(b, a, cid.Flip());
  }
}
