/** Undoing operations, also after they were transformed.

    A deletion carries the text it deletes.  This text is what makes it reversible, so it has to be
    the text that the document really has at that place. */
module Undo {
  import opened Ropes
  import opened Cuts
  import opened Operations
  import opened Convergence

  /** The operation can be applied, and its deletions carry the text they delete. */
  ghost predicate Faithful(op: Operation, d: seq<Cell>) {
    match op
    case Insert(pos, _) => pos <= |d|
    case Delete(pos, text) => pos + |text| <= |d| && text == d[pos..pos + |text|]
    case Split(first, second) => Faithful(first, d) && Faithful(second, Apply(first, d).doc)
  }

  lemma {:induction false} FaithfulApplies(op: Operation, d: seq<Cell>)
    requires Faithful(op, d)
    ensures Apply(op, d).ok
  {
    if op.Split? {
      FaithfulApplies(op.first, d);
      FaithfulApplies(op.second, Apply(op.first, d).doc);
    }
  }

  lemma {:induction false} RevertTwice(op: Operation)
    ensures Revert(Revert(op)) == op
  {
    if op.Split? {
      RevertTwice(op.first);
      RevertTwice(op.second);
    }
  }

  /** Applying an operation and then its reverse restores the document, and the reverse is faithful
      again, so that it can be undone itself. */
  lemma {:induction false} RevertRestores(op: Operation, d: seq<Cell>)
    requires Faithful(op, d)
    ensures Faithful(Revert(op), Apply(op, d).doc)
    ensures Apply(Revert(op), Apply(op, d).doc) == Outcome(true, d)
  {
    match op
    case Insert(pos, text) =>
      assert Erased(Inserted(d, pos, text), pos, |text|) == d;
      assert Inserted(d, pos, text)[pos..pos + |text|] == text;
    case Delete(pos, text) =>
      assert Inserted(Erased(d, pos, |text|), pos, text) == d;
    case Split(first, second) =>
      var d1 := Apply(first, d).doc;
      FaithfulApplies(first, d);
      RevertRestores(first, d);
      RevertRestores(second, d1);
  }

  // ---------- Single operations ----------

  lemma SliceInserted<T>(d: seq<T>, p: nat, x: seq<T>, o: nat, q: nat)
    requires p <= |d| && o <= q <= |d|
    ensures q <= p ==> Inserted(d, p, x)[o..q] == d[o..q]
    ensures p <= o ==> Inserted(d, p, x)[o + |x|..q + |x|] == d[o..q]
  {
  }

  lemma SliceParts<T>(d: seq<T>, o: nat, n: nat, k: nat)
    requires k <= n && o + n <= |d|
    ensures d[o..o + n][..k] == d[o..o + k] && d[o..o + n][k..] == d[o + k..o + n]
  {
  }

  lemma SliceErased<T>(d: seq<T>, b: nat, m: nat, o: nat, q: nat)
    requires b + m <= |d| && o <= q <= |d|
    ensures q <= b ==> Erased(d, b, m)[o..q] == d[o..q]
    ensures b + m <= o ==> Erased(d, b, m)[o - m..q - m] == d[o..q]
  {
  }

  lemma SliceAroundErased<T>(d: seq<T>, b: nat, m: nat, o: nat, q: nat)
    requires o <= b && b + m <= q <= |d|
    ensures Erased(d, b, m)[o..q - m] == Erased(d[o..q], b - o, m)
  {
    var e := Erased(d, b, m);
    SliceErased(d, b, m, o, b);
    SliceErased(d, b, m, b + m, q);
    assert e[o..q - m] == e[o..b] + e[b..q - m];
    assert d[o..q][..b - o] == d[o..b] && d[o..q][b - o + m..] == d[b + m..q];
  }

  lemma {:induction false} DeleteInsertFaithful(op: Operation, against: Operation, d: seq<Cell>)
    requires op.Delete? && against.Insert? && Faithful(op, d) && Apply(against, d).ok
    ensures Faithful(DeleteInsert(op, against), Apply(against, d).doc)
  {
    hide Inserted, Erased, SplitDelete;
    if op.pos < against.pos < op.pos + |op.text| {
      SplitDeleteFaithful(op, against, d);
    } else {
      SliceInserted(d, against.pos, against.text, op.pos, op.pos + |op.text|);
    }
  }

  lemma SplitDeleteFaithful(op: Operation, against: Operation, d: seq<Cell>)
    requires op.Delete? && against.Insert? && Faithful(op, d) && Apply(against, d).ok
    requires op.pos < against.pos < op.pos + |op.text|
    ensures Faithful(SplitDelete(op, against.pos - op.pos, |against.text|), Apply(against, d).doc)
  {
    hide Inserted, Erased;
    var n, x, p, k := |op.text|, |against.text|, against.pos, against.pos - op.pos;
    var e := Inserted(d, p, against.text);
    var first, second := Delete(op.pos, op.text[..k]), Delete(op.pos + x, op.text[k..]);
    SliceInserted(d, p, against.text, op.pos, p);
    SliceInserted(d, p, against.text, p, op.pos + n);
    SliceParts(d, op.pos, n, k);
    SliceErased(e, op.pos, k, p + x, op.pos + n + x);
    assert Faithful(first, e) && Apply(first, e).doc == Erased(e, op.pos, k);
    assert p + x - k == op.pos + x && op.pos + n + x - k == op.pos + x + (n - k);
    assert Faithful(second, Erased(e, op.pos, k));
  }

  lemma DeleteDeleteFaithful(op: Operation, against: Operation, d: seq<Cell>)
    requires op.Delete? && against.Delete? && Faithful(op, d) && Apply(against, d).ok
    ensures Faithful(DeleteDelete(op, against), Apply(against, d).doc)
  {
    hide Erased;
    var a, n, b, m := op.pos, |op.text|, against.pos, |against.text|;
    if a + n <= b || a >= b + m {
      SliceErased(d, b, m, a, a + n);
    } else if a < b && b + m < a + n {
      SliceAroundErased(d, b, m, a, a + n);
    } else {
      OverlapFaithful(op, against, d);
    }
  }

  /** The end of the range is left. */
  lemma EndLeft<T>(d: seq<T>, b: nat, m: nat, a: nat, n: nat)
    requires b <= a < b + m < a + n <= |d|
    ensures Erased(d, b, m)[b..a + n - m] == Erased(d[a..a + n], 0, b + m - a)
  {
    SliceErased(d, b, m, b + m, a + n);
  }

  /** The start of the range is left. */
  lemma StartLeft<T>(d: seq<T>, b: nat, m: nat, a: nat, n: nat)
    requires a < b < a + n <= b + m <= |d|
    ensures Erased(d, b, m)[a..b] == Erased(d[a..a + n], b - a, a + n - b)
  {
    SliceErased(d, b, m, a, b);
    SliceParts(d, a, n, b - a);
  }

  lemma OverlapFaithful(op: Operation, against: Operation, d: seq<Cell>)
    requires op.Delete? && against.Delete? && Faithful(op, d) && Apply(against, d).ok
    requires against.pos < op.pos + |op.text| && op.pos < against.pos + |against.text|
    requires against.pos <= op.pos || against.pos + |against.text| >= op.pos + |op.text|
    ensures Faithful(DeleteDelete(op, against), Apply(against, d).doc)
  {
    hide Erased;
    var a, n, b, m := op.pos, |op.text|, against.pos, |against.text|;
    if b <= a && b + m >= a + n {
      assert Erased(op.text, 0, n) == [];
    } else if b <= a {
      EndLeft(d, b, m, a, n);
    } else {
      StartLeft(d, b, m, a, n);
    }
  }

  lemma InsertFaithful(op: Operation, against: Operation, cid: Cid, d: seq<Cell>)
    requires op.Insert? && !against.Split? && Faithful(op, d) && Apply(against, d).ok
    ensures Faithful(Against(op, against, cid), Apply(against, d).doc)
  {
    AgainstSingle(op, against, cid);
  }

  // ---------- All operations ----------

  /** Transformation keeps operations faithful: what a transformed deletion carries is what the
      document has at its new place. */
  lemma {:induction false} FaithfulAgainst(op: Operation, against: Operation, cid: Cid, d: seq<Cell>)
    requires Faithful(op, d) && Apply(against, d).ok
    ensures Faithful(Against(op, against, cid), Apply(against, d).doc)
    decreases op.Inserts() + against.Inserts(), op.Leaves() + against.Leaves()
  {
    hide Transform;
    FaithfulApplies(op, d);
    if against.Split? {
      AgainstSplit(op, against, cid);
      FaithfulAgainst(op, against.first, cid, d);
      FaithfulAgainst(Against(op, against.first, cid), against.second, cid, Apply(against.first, d).doc);
    } else if op.Split? {
      var op1, op2 := op.first, op.second;
      SplitAgainst(op, against, cid);
      Convergent(op1, against, cid, d);
      FaithfulAgainst(op1, against, cid, d);
      FaithfulAgainst(op2, Against(against, op1, cid.Flip()), cid, Apply(op1, d).doc);
    } else if op.Insert? {
      InsertFaithful(op, against, cid, d);
    } else {
      AgainstSingle(op, against, cid);
      if against.Insert? {
        DeleteInsertFaithful(op, against, d);
      } else {
        DeleteDeleteFaithful(op, against, d);
      }
    }
  }

  /** An operation can be undone after it was transformed. */
  lemma {:induction false} UndoTransformed(op: Operation, against: Operation, cid: Cid, d: seq<Cell>)
    requires Faithful(op, d) && Apply(against, d).ok
    ensures var e, t := Apply(against, d).doc, Against(op, against, cid);
      && Apply(t, e).ok
      && Apply(Revert(t), Apply(t, e).doc) == Outcome(true, e)
  {
    FaithfulAgainst(op, against, cid, d);
    FaithfulApplies(Against(op, against, cid), Apply(against, d).doc);
    RevertRestores(Against(op, against, cid), Apply(against, d).doc);
  }
}
