/** C2 for three operations made in one state, one of which deletes a range and then inserts a text, while
    the others insert: it fails exactly in one circular order. */
module Replacements {
  import opened Ropes
  import opened Cuts
  import opened Operations
  import opened Convergence
  import opened Undo
  import opened ThreeWay
  import opened PureOperations

  /** A range is deleted, and a text is inserted at position `at` of what is left. */
  function Replacement(pos: nat, oldText: seq<Cell>, at: nat, text: seq<Cell>): Operation {
    Split(Delete(pos, oldText), Insert(at, text))
  }

  // ---------- Positions ----------

  /** Position `q` when a range of length `n` at `p` is deleted. */
  function Fallen(p: nat, n: nat, q: nat): nat {
    if q >= p + n then q - n else if q < p then q else p
  }

  /** Where an insertion at `s` goes that meets one of length `n` at `t`. */
  function Pushed(s: nat, t: nat, n: nat, first: bool): nat {
    if s < t || (s == t && first) then s else s + n
  }

  /** Whether insertion `a` comes before insertion `b` in the document both were made for. */
  predicate InFront(a: Operation, u: nat, b: Operation, v: nat)
    requires a.Insert? && b.Insert?
  {
    a.pos < b.pos || (a.pos == b.pos && u > v)
  }

  lemma PastDelete(c: Operation, w: nat, p: nat, o: seq<Cell>, v: nat)
    requires c.Insert?
    ensures By(c, w, Delete(p, o), v) == Insert(Fallen(p, |o|, c.pos), c.text)
  {
    hide Transform;
    InsertPastDeletion(c, Delete(p, o), c, Delete(p, o), CidOf(w, v));
  }

  lemma PastInsertion(op: Operation, against: Operation, opLcs: Operation, agLcs: Operation, cid: Cid)
    requires op.Insert? && against.Insert? && opLcs.Insert? && agLcs.Insert?
    ensures Transform(op, against, opLcs, agLcs, cid) == Insert(
      Pushed(op.pos, against.pos, |against.text|, opLcs.pos < agLcs.pos || (opLcs.pos == agLcs.pos && cid == Other)),
      op.text)
  {
    TransformInserts(op, against, opLcs, agLcs, cid);
  }

  lemma PastInsert(c: Operation, w: nat, a: Operation, u: nat)
    requires c.Insert? && a.Insert?
    ensures By(c, w, a, u) == Insert(Pushed(c.pos, a.pos, |a.text|, w > u), c.text)
  {
    hide Transform;
    InsertShift(c, w, a, u);
  }

  lemma AfterDeletion(c: Operation, w: nat, a: Operation, u: nat, p: nat, o: seq<Cell>, v: nat)
    requires c.Insert? && a.Insert?
    ensures Via(c, w, Delete(p, o), v, a, u)
      == Insert(Pushed(Fallen(p, |o|, c.pos), Fallen(p, |o|, a.pos), |a.text|, InFront(c, w, a, u)), c.text)
  {
    hide Transform;
    PastDelete(c, w, p, o, v);
    PastDelete(a, u, p, o, v);
    TransformInserts(By(c, w, Delete(p, o), v), By(a, u, Delete(p, o), v), c, a, CidOf(w, u));
  }

  // ---------- An insertion that passes a replacement ----------

  /** The insertion `c` taken past `a` and then the two parts of the replacement. */
  lemma PastParts(c: Operation, w: nat, a: Operation, u: nat, del: Operation, ins: Operation, v: nat, d: seq<Cell>)
    requires c.Insert? && a.Insert? && del.Delete? && ins.Insert? && u != v && v != w && u != w
    requires Apply(c, d).ok && Apply(a, d).ok && Apply(del, d).ok
    ensures Via(c, w, a, u, Split(del, ins), v) ==
      Transform(Via(c, w, del, v, a, u), By(ins, v, By(a, u, del, v), u), By(c, w, del, v), ins, CidOf(w, v))
  {
    hide Transform, Apply;
    var b := Split(del, ins);
    BySplit(b, v, a, u);
    InsertAroundDeletion(c, w, a, u, del, v, d);
    LcsStep(By(c, w, a, u), By(b, v, a, u), c, b, CidOf(w, v));
  }

  /** The insertion `c` taken past `a` first. */
  lemma PastInsertionFirst(c: Operation, w: nat, a: Operation, u: nat, p: nat, o: seq<Cell>, q: nat, y: seq<Cell>,
                           v: nat, d: seq<Cell>)
    requires c.Insert? && a.Insert? && u != v && v != w && u != w
    requires Apply(c, d).ok && Apply(a, d).ok && p + |o| <= |d|
    ensures var i, k := Fallen(p, |o|, a.pos), Fallen(p, |o|, c.pos);
      Via(c, w, a, u, Replacement(p, o, q, y), v)
        == Insert(Pushed(Pushed(k, i, |a.text|, InFront(c, w, a, u)), Pushed(q, i, |a.text|, v > u), |y|,
                         k < q || (k == q && w > v)), c.text)
  {
    hide Transform, Via, Apply, Pushed, By, InsertInsert;
    var del, ins := Delete(p, o), Insert(q, y);
    assert Apply(del, d).ok by { ApplyDelete(del, d); }
    PastParts(c, w, a, u, del, ins, v, d);
    PastDelete(a, u, p, o, v);
    PastDelete(c, w, p, o, v);
    PastInsert(ins, v, By(a, u, del, v), u);
    AfterDeletion(c, w, a, u, p, o, v);
    PastInsertion(Via(c, w, del, v, a, u), By(ins, v, By(a, u, del, v), u), By(c, w, del, v), ins, CidOf(w, v));
  }

  lemma PastReplacement(c: Operation, w: nat, p: nat, o: seq<Cell>, q: nat, y: seq<Cell>, v: nat)
    requires c.Insert? && w != v
    ensures By(c, w, Replacement(p, o, q, y), v) == Insert(Pushed(Fallen(p, |o|, c.pos), q, |y|, w > v), c.text)
  {
    hide Transform;
    BySplit(c, w, Replacement(p, o, q, y), v);
    PastDelete(c, w, p, o, v);
    PastInsert(By(c, w, Delete(p, o), v), w, Insert(q, y), v);
  }

  /** The insertion `c` taken past the replacement first. */
  lemma PastReplacementFirst(c: Operation, w: nat, a: Operation, u: nat, p: nat, o: seq<Cell>, q: nat, y: seq<Cell>,
                             v: nat)
    requires c.Insert? && a.Insert? && u != v && v != w && u != w
    ensures var k, i := Fallen(p, |o|, c.pos), Fallen(p, |o|, a.pos);
      Via(c, w, Replacement(p, o, q, y), v, a, u)
        == Insert(Pushed(Pushed(k, q, |y|, w > v), Pushed(i, q, |y|, u > v), |a.text|, InFront(c, w, a, u)), c.text)
  {
    hide Transform;
    var b := Replacement(p, o, q, y);
    PastReplacement(c, w, p, o, q, y, v);
    PastReplacement(a, u, p, o, q, y, v);
    PastInsertion(By(c, w, b, v), By(a, u, b, v), c, a, CidOf(w, u));
  }

  /** Two insertions into the range that is replaced are ordered by their positions, but each of them is
      ordered against the replacement by the users.  Here the insertion at `first` comes before the one
      at `second` by position, after the replacement, and the replacement after the other one. */
  predicate Circle(p: nat, n: nat, q: nat, first: nat, u: nat, second: nat, w: nat, v: nat) {
    p == q && p <= first < second <= p + n && u < v < w
  }

  /** Two insertions and the replacement are ordered in a circle. */
  predicate Circular(c: Operation, w: nat, a: Operation, u: nat, b: Operation, v: nat)
    requires c.Insert? && a.Insert? && b.Split? && b.first.Delete? && b.second.Insert?
  {
    var p, n, q := b.first.pos, |b.first.text|, b.second.pos;
    Circle(p, n, q, a.pos, u, c.pos, w, v) || Circle(p, n, q, c.pos, w, a.pos, u, v)
  }

  /** The positions alone: `k` and `i` are those of the insertions when the range is gone, `q` that of
      the new text, `x` and `y` the lengths inserted, `ca`, `cb` and `ab` the order of the operations. */
  lemma Positions(q: nat, k: nat, i: nat, x: nat, y: nat, ca: bool, cb: bool, ab: bool)
    requires (k < i ==> ca) && (i < k ==> !ca)
    ensures var here := k == q && i == q;
      var one := Pushed(Pushed(k, i, x, ca), Pushed(q, i, x, !ab), y, k < q || (k == q && cb));
      var two := Pushed(Pushed(k, q, y, cb), Pushed(i, q, y, ab), x, ca);
      && (one == two <==> !(here && x > 0 && y > 0 && ((cb && !ca && !ab) || (!cb && ca && ab))))
      && (here && x > 0 && y > 0 && cb && !ca && !ab ==> one == q + x + y && two == q)
      && (here && x > 0 && y > 0 && !cb && ca && ab ==> one == q && two == q + x + y)
  {
  }

  /** The two ways of taking an insertion past another one and a replacement agree exactly if the
      three operations are not ordered in a circle, or one of the two texts passed is empty. */
  lemma {:induction false} ReplacementVia(c: Operation, w: nat, a: Operation, u: nat,
                                          p: nat, o: seq<Cell>, q: nat, y: seq<Cell>, v: nat, d: seq<Cell>)
    requires c.Insert? && a.Insert? && u != v && v != w && u != w
    requires Apply(c, d).ok && Apply(a, d).ok && p + |o| <= |d|
    ensures Via(c, w, a, u, Replacement(p, o, q, y), v) == Via(c, w, Replacement(p, o, q, y), v, a, u)
      <==> !(Circular(c, w, a, u, Replacement(p, o, q, y), v) && a.text != [] && y != [])
    ensures Circular(c, w, a, u, Replacement(p, o, q, y), v) && a.text != [] && y != [] ==>
      && Via(c, w, a, u, Replacement(p, o, q, y), v)
           == Insert(if a.pos < c.pos then p + |a.text| + |y| else p, c.text)
      && Via(c, w, Replacement(p, o, q, y), v, a, u)
           == Insert(if a.pos < c.pos then p else p + |a.text| + |y|, c.text)
  {
    hide Transform, Via, Apply, Pushed;
    PastInsertionFirst(c, w, a, u, p, o, q, y, v, d);
    PastReplacementFirst(c, w, a, u, p, o, q, y, v);
    var k, i := Fallen(p, |o|, c.pos), Fallen(p, |o|, a.pos);
    Positions(q, k, i, |a.text|, |y|, InFront(c, w, a, u), w > v, u > v);
  }

  // ---------- Documents ----------

  /** A text put in front of another one or behind it, between the same surroundings. */
  lemma Commute<T>(l: seq<T>, m: seq<T>, r: seq<T>, z: seq<T>)
    ensures Inserted(l + m + r, |l|, z) == Inserted(l + m + r, |l| + |m|, z) <==> z + m == m + z
  {
    var s := l + m + r;
    assert Inserted(s, |l|, z) == l + (z + m) + r;
    assert Inserted(s, |l| + |m|, z) == l + (m + z) + r;
    assert (l + (z + m) + r)[|l|..|l| + |z + m|] == z + m;
    assert (l + (m + z) + r)[|l|..|l| + |m + z|] == m + z;
  }

  lemma BothSides<T>(d: seq<T>, p: nat, n: nat, x: seq<T>, y: seq<T>)
    requires p + n <= |d|
    ensures Inserted(Inserted(Erased(d, p, n), p, y), p, x) == d[..p] + (x + y) + d[p + n..]
    ensures Inserted(Inserted(Erased(d, p, n), p, y), p + |y|, x) == d[..p] + (y + x) + d[p + n..]
  {
    assert Inserted(Erased(d, p, n), p, y) == d[..p] + y + d[p + n..];
  }

  lemma ApplyReplacement(p: nat, o: seq<Cell>, q: nat, y: seq<Cell>, d: seq<Cell>)
    requires p + |o| <= |d| && q <= |d| - |o|
    ensures Apply(Replacement(p, o, q, y), d) == Outcome(true, Inserted(Erased(d, p, |o|), q, y))
  {
    assert Apply(Delete(p, o), d) == Outcome(true, Erased(d, p, |o|));
  }

  /** What the other two operations leave at the place of the range. */
  function Between(a: Operation, c: Operation, b: Operation): seq<Cell>
    requires c.Insert? && a.Insert? && b.Split? && b.second.Insert?
  {
    if a.pos < c.pos then b.second.text + a.text else a.text + b.second.text
  }

  lemma CircularDocument(c: Operation, w: nat, a: Operation, u: nat, p: nat, o: seq<Cell>, y: seq<Cell>, v: nat,
                         d: seq<Cell>)
    requires c.Insert? && a.Insert? && u != v && v != w && u != w
    requires Apply(a, d).ok && p + |o| <= |d| && Circular(c, w, a, u, Replacement(p, o, p, y), v)
    ensures Both(a, u, Replacement(p, o, p, y), v, d) == d[..p] + Between(a, c, Replacement(p, o, p, y)) + d[p + |o|..]
  {
    hide Transform, Apply, Inserted, Erased, Against;
    var b := Replacement(p, o, p, y);
    ApplyReplacement(p, o, p, y, d);
    BothAgree(a, u, b, v, d);
    ByApplies(a, u, b, v, d);
    PastReplacement(a, u, p, o, p, y, v);
    BothSides(d, p, |o|, a.text, y);
    ApplyInsert(By(a, u, b, v), Inserted(Erased(d, p, |o|), p, y));
  }

  /** C2 for two insertions, one of which passes the other and a replacement: it fails exactly if the
      three are ordered in a circle and the difference can be seen in the text. */
  lemma {:induction false} ReplacementThreeWay(c: Operation, w: nat, a: Operation, u: nat,
                                               p: nat, o: seq<Cell>, q: nat, y: seq<Cell>, v: nat, d: seq<Cell>)
    requires c.Insert? && a.Insert? && u != v && v != w && u != w
    requires Apply(c, d).ok && Apply(a, d).ok && p + |o| <= |d| && q <= |d| - |o|
    ensures SameEffect(c, w, a, u, Replacement(p, o, q, y), v, d) <==>
      !(&& Circular(c, w, a, u, Replacement(p, o, q, y), v) && a.text != [] && y != []
        && c.text + Between(a, c, Replacement(p, o, q, y)) != Between(a, c, Replacement(p, o, q, y)) + c.text)
  {
    hide Transform, Via, Both;
    var b := Replacement(p, o, q, y);
    ApplyReplacement(p, o, q, y, d);
    BothAgree(a, u, b, v, d);
    ReplacementVia(c, w, a, u, p, o, q, y, v, d);
    if Circular(c, w, a, u, b, v) && a.text != [] && y != [] {
      CircularDocument(c, w, a, u, p, o, y, v, d);
      Commute(d[..p], Between(a, c, b), d[p + |o|..], c.text);
    } else {
      ViaReplacementApplies(c, w, a, u, b, v, d);
    }
  }

  lemma ViaReplacementApplies(c: Operation, w: nat, a: Operation, u: nat, b: Operation, v: nat, d: seq<Cell>)
    requires c.Insert? && a.Insert? && u != v && v != w && u != w
    requires Apply(a, d).ok && Apply(b, d).ok && Apply(c, d).ok
    ensures Apply(Via(c, w, b, v, a, u), Both(b, v, a, u, d)).ok
  {
    hide Transform, Apply;
    Kept(c, w, b, v);
    Kept(a, u, b, v);
    ByApplies(c, w, b, v, d);
    ByApplies(a, u, b, v, d);
    var c', a', d' := By(c, w, b, v), By(a, u, b, v), Apply(b, d).doc;
    Convergent(a', c', Self, d');
    Convergent(a', c', Other, d');
    TransformInserts(c', a', c, a, CidOf(w, u));
    TransformInserts(c', a', c', a', Self);
    TransformInserts(c', a', c', a', Other);
  }

  // ---------- A replacement that passes two insertions ----------

  /** The replacement taken past `a` and then `b`, part by part. */
  lemma PassingParts(del: Operation, ins: Operation, w: nat, a: Operation, u: nat, b: Operation, v: nat)
    requires del.Delete? && ins.Insert? && a.Insert? && b.Insert? && u != v && v != w && u != w
    ensures Via(Split(del, ins), w, a, u, b, v) ==
      Split(Via(del, w, a, u, b, v),
            Transform(By(ins, w, By(a, u, del, w), u), Via(b, v, a, u, del, w), ins, By(b, v, del, w), CidOf(w, v)))
  {
    hide Transform;
    var c := Split(del, ins);
    BySplit(c, w, a, u);
    Kept(b, v, a, u);
    LcsStep(By(c, w, a, u), By(b, v, a, u), c, b, CidOf(w, v));
  }

  /** Where the text of the replacement ends up. */
  lemma PassingVia(p: nat, o: seq<Cell>, q: nat, y: seq<Cell>, w: nat, a: Operation, u: nat, b: Operation, v: nat,
                   d: seq<Cell>)
    requires a.Insert? && b.Insert? && u != v && v != w && u != w
    requires Apply(a, d).ok && Apply(b, d).ok && p + |o| <= |d|
    ensures var i, k := Fallen(p, |o|, a.pos), Fallen(p, |o|, b.pos);
      Via(Replacement(p, o, q, y), w, a, u, b, v) ==
      Split(Via(Delete(p, o), w, a, u, b, v),
            Insert(Pushed(Pushed(q, i, |a.text|, w > u), Pushed(k, i, |a.text|, InFront(b, v, a, u)), |b.text|,
                          q < k || (q == k && w > v)), y))
  {
    hide Transform, Via, Apply, Pushed, By, InsertInsert;
    var del, ins := Delete(p, o), Insert(q, y);
    assert Apply(del, d).ok by { ApplyDelete(del, d); }
    PassingParts(del, ins, w, a, u, b, v);
    InsertAroundDeletion(b, v, a, u, del, w, d);
    AfterDeletion(b, v, a, u, p, o, w);
    PastDelete(a, u, p, o, w);
    PastDelete(b, v, p, o, w);
    PastInsert(ins, w, By(a, u, del, w), u);
    PastInsertion(By(ins, w, By(a, u, del, w), u), Via(b, v, a, u, del, w), ins, By(b, v, del, w), CidOf(w, v));
  }

  /** The document when only the insertion of the replacement is left to be done. */
  lemma PassingDocument(p: nat, o: seq<Cell>, w: nat, a: Operation, u: nat, b: Operation, v: nat, d: seq<Cell>)
    requires a.Insert? && b.Insert? && u != v && v != w && u != w
    requires Apply(a, d).ok && Apply(b, d).ok && p + |o| <= |d|
    ensures var i, k := Fallen(p, |o|, a.pos), Fallen(p, |o|, b.pos);
      && i <= |d| - |o| && k <= |d| - |o|
      && Apply(Via(Delete(p, o), w, a, u, b, v), Both(a, u, b, v, d)) == Outcome(true,
           Inserted(Inserted(Erased(d, p, |o|), i, a.text), Pushed(k, i, |a.text|, InFront(b, v, a, u)), b.text))
  {
    hide Transform, Inserted, Erased, Apply, Pushed;
    var del := Delete(p, o);
    ApplyDelete(del, d);
    ApplyInsert(a, d);
    ApplyInsert(b, d);
    Convergent(del, a, CidOf(w, u), d);
    ByApplies(b, v, a, u, d);
    Convergent(By(del, w, a, u), By(b, v, a, u), CidOf(w, v), Apply(a, d).doc);
    DeletionKept(del, w, a, u);
    LcsIrrelevant(By(del, w, a, u), By(b, v, a, u), del, b, CidOf(w, v), CidOf(w, v));
    LcsIrrelevant(By(b, v, a, u), By(del, w, a, u), b, del, CidOf(v, w), CidOf(v, w));
    InsertAroundDeletion(b, v, a, u, del, w, d);
    AfterDeletion(b, v, a, u, p, o, w);
    PastDelete(a, u, p, o, w);
    ApplyInsert(By(a, u, del, w), Erased(d, p, |o|));
    ApplyInsert(Via(b, v, a, u, del, w), Inserted(Erased(d, p, |o|), Fallen(p, |o|, a.pos), a.text));
  }

  lemma DeletionKept(op: Operation, u: nat, against: Operation, v: nat)
    ensures By(op, u, against, v).Inserts() == op.Inserts()
  {
  }

  /** The positions alone, as above. */
  lemma PassingPositions(q: nat, i: nat, k: nat, x: nat, z: nat, ca: bool, cb: bool, ba: bool)
    requires (k < i ==> ba) && (i < k ==> !ba)
    ensures var here := k == q && i == q;
      var one := Pushed(Pushed(q, i, x, ca), Pushed(k, i, x, ba), z, q < k || (q == k && cb));
      var two := Pushed(Pushed(q, k, z, cb), Pushed(i, k, z, !ba), x, q < i || (q == i && ca));
      && (one == two <==> !(here && x > 0 && z > 0 && ((ca && !ba && !cb) || (!ca && ba && cb))))
      && (here && x > 0 && z > 0 && ca && !ba && !cb ==> one == q && two == q + x + z)
      && (here && x > 0 && z > 0 && !ca && ba && cb ==> one == q + x + z && two == q)
  {
  }

  /** The two texts inserted into the range, in the order of their positions. */
  function InOrder(a: Operation, b: Operation): seq<Cell>
    requires a.Insert? && b.Insert?
  {
    if a.pos < b.pos then a.text + b.text else b.text + a.text
  }

  lemma PassingCircularDocument(p: nat, o: seq<Cell>, w: nat, a: Operation, u: nat, b: Operation, v: nat, d: seq<Cell>)
    requires a.Insert? && b.Insert? && u != v && v != w && u != w
    requires Apply(a, d).ok && Apply(b, d).ok && p + |o| <= |d|
    requires p <= a.pos <= p + |o| && p <= b.pos <= p + |o| && a.pos != b.pos
    ensures Apply(Via(Delete(p, o), w, a, u, b, v), Both(a, u, b, v, d))
      == Outcome(true, d[..p] + InOrder(a, b) + d[p + |o|..])
  {
    hide Transform, Inserted, Erased, Apply, Via, Both;
    PassingDocument(p, o, w, a, u, b, v, d);
    BothSides(d, p, |o|, b.text, a.text);
  }

  /** C2 for a replacement that passes two insertions: it fails exactly if the three are ordered in a
      circle and the difference can be seen in the text. */
  lemma {:induction false} ReplacementPassing(p: nat, o: seq<Cell>, q: nat, y: seq<Cell>, w: nat,
                                              a: Operation, u: nat, b: Operation, v: nat, d: seq<Cell>)
    requires a.Insert? && b.Insert? && u != v && v != w && u != w
    requires Apply(a, d).ok && Apply(b, d).ok && p + |o| <= |d| && q <= |d| - |o|
    ensures SameEffect(Replacement(p, o, q, y), w, a, u, b, v, d) <==>
      !(&& Circular(a, u, b, v, Replacement(p, o, q, y), w) && a.text != [] && b.text != []
        && y + InOrder(a, b) != InOrder(a, b) + y)
  {
    hide Transform, Via, Both, Apply, Pushed, Inserted;
    var del := Delete(p, o);
    assert Apply(del, d).ok by { ApplyDelete(del, d); }
    BothAgree(a, u, b, v, d);
    PassingVia(p, o, q, y, w, a, u, b, v, d);
    PassingVia(p, o, q, y, w, b, v, a, u, d);
    DeletionThreeWay(del, w, a, u, b, v, d);
    var i, k := Fallen(p, |o|, a.pos), Fallen(p, |o|, b.pos);
    var ba := InFront(b, v, a, u);
    PassingPositions(q, i, k, |a.text|, |b.text|, w > u, w > v, ba);
    var rest := Apply(Via(del, w, a, u, b, v), Both(a, u, b, v, d));
    var one := Via(Replacement(p, o, q, y), w, a, u, b, v);
    var two := Via(Replacement(p, o, q, y), w, b, v, a, u);
    ApplySplit(one, Both(a, u, b, v, d));
    ApplySplit(two, Both(a, u, b, v, d));
    if Circular(a, u, b, v, Replacement(p, o, q, y), w) && a.text != [] && b.text != [] {
      PassingCircularDocument(p, o, w, a, u, b, v, d);
      Commute(d[..p], InOrder(a, b), d[p + |o|..], y);
      ApplyInsertAt(one.second, rest.doc);
      ApplyInsertAt(two.second, rest.doc);
    } else {
      assert one.second == two.second;
      assert one.second.pos <= |rest.doc| by { PassingFits(p, o, q, y, w, a, u, b, v, d); }
      ApplyInsertAt(one.second, rest.doc);
    }
  }

  lemma ApplySplit(op: Operation, d: seq<Cell>)
    requires op.Split?
    ensures Apply(op, d)
      == if Apply(op.first, d).ok then Apply(op.second, Apply(op.first, d).doc) else Apply(op.first, d)
  {
  }

  lemma ApplyInsertAt(op: Operation, d: seq<Cell>)
    requires op.Insert?
    ensures op.pos <= |d| ==> Apply(op, d) == Outcome(true, Inserted(d, op.pos, op.text))
    ensures op.pos > |d| ==> !Apply(op, d).ok
  {
  }

  lemma PassingFits(p: nat, o: seq<Cell>, q: nat, y: seq<Cell>, w: nat, a: Operation, u: nat, b: Operation, v: nat,
                    d: seq<Cell>)
    requires a.Insert? && b.Insert? && u != v && v != w && u != w
    requires Apply(a, d).ok && Apply(b, d).ok && p + |o| <= |d| && q <= |d| - |o|
    ensures var i, k := Fallen(p, |o|, a.pos), Fallen(p, |o|, b.pos);
      Pushed(Pushed(q, i, |a.text|, w > u), Pushed(k, i, |a.text|, InFront(b, v, a, u)), |b.text|,
             q < k || (q == k && w > v))
      <= |Apply(Via(Delete(p, o), w, a, u, b, v), Both(a, u, b, v, d)).doc|
  {
    hide Via, Both, Apply;
    PassingDocument(p, o, w, a, u, b, v, d);
  }

  // ---------- Concrete inputs ----------

  /** A document and three operations, all of them reversible, for which C2 fails. */
  lemma {:induction false} CircleBreaksC2(d: seq<Cell>, x: Cell, y: Cell, z: Cell)
    requires |d| >= 7 && y != z
    ensures var a, b, c := Insert(5, [x]), Replacement(3, d[3..7], 3, [y]), Insert(6, [z]);
      && Faithful(a, d) && Faithful(b, d) && Faithful(c, d)
      && !SameEffect(c, 3, a, 1, b, 2, d)
  {
    hide SameEffect;
    var a, c := Insert(5, [x]), Insert(6, [z]);
    ReplacementThreeWay(c, 3, a, 1, 3, d[3..7], 3, [y], 2, d);
    assert ([z] + ([y] + [x]))[0] == z && (([y] + [x]) + [z])[0] == y;
  }

  /** The same with the replacement as the operation that passes the others, for a single character. */
  lemma {:induction false} PassingBreaksC2(e: Cell, x: Cell, y: Cell, z: Cell)
    requires x != y
    ensures var a, b, c := Insert(0, [x]), Insert(1, [z]), Replacement(0, [e], 0, [y]);
      && Faithful(a, [e]) && Faithful(b, [e]) && Faithful(c, [e])
      && !SameEffect(c, 2, a, 1, b, 3, [e])
  {
    hide SameEffect;
    var a, b := Insert(0, [x]), Insert(1, [z]);
    ReplacementPassing(0, [e], 0, [y], 2, a, 1, b, 3, [e]);
    assert ([y] + ([x] + [z]))[0] == y && (([x] + [z]) + [y])[0] == x;
  }
}
