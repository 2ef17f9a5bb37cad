/** C2 for operations that are compared at earlier states, or at the present one.

    Two operations are compared at the earliest state to which both can be transformed.  Three operations
    have three such states, and these need not be the same. */
module PairStates {
  import opened Ropes
  import opened Cuts
  import opened Operations
  import opened Convergence
  import opened Undo
  import opened Striking
  import opened ThreeWay
  import opened PureOperations
  import opened EarlierStates
  import opened Replacements

  /** Operations `a`, `b` and `c` as they were at the states at which they are compared in pairs: `ca` is
      `c` where it is compared with `a`, and `ac` is `a` there. */
  datatype Earlier = Earlier(ca: Operation, ac: Operation, cb: Operation, bc: Operation, ab: Operation, ba: Operation) {

    predicate Inserts() {
      ca.Insert? && ac.Insert? && cb.Insert? && bc.Insert? && ab.Insert? && ba.Insert?
    }

    /** The same with the roles of `a` and `b` exchanged. */
    function Swap(): Earlier {
      Earlier(cb, bc, ca, ac, ba, ab)
    }
  }

  /** Operation `c`, taken past `a` and then past what `a` has made of `b`. */
  function ViaWith(c: Operation, w: nat, a: Operation, u: nat, b: Operation, v: nat, e: Earlier): Operation {
    Transform(Transform(c, a, e.ca, e.ac, CidOf(w, u)), Transform(b, a, e.ba, e.ab, CidOf(v, u)), e.cb, e.bc,
              CidOf(w, v))
  }

  /** The document after `a` and then `b`. */
  function BothWith(a: Operation, u: nat, b: Operation, v: nat, e: Earlier, d: seq<Cell>): seq<Cell> {
    Apply(Transform(b, a, e.ba, e.ab, CidOf(v, u)), Apply(a, d).doc).doc
  }

  ghost predicate SameEffectWith(c: Operation, w: nat, a: Operation, u: nat, b: Operation, v: nat, e: Earlier,
                                 d: seq<Cell>) {
    && BothWith(a, u, b, v, e, d) == BothWith(b, v, a, u, e.Swap(), d)
    && Apply(ViaWith(c, w, a, u, b, v, e), BothWith(a, u, b, v, e, d)).ok
    && Apply(ViaWith(c, w, a, u, b, v, e), BothWith(a, u, b, v, e, d))
         == Apply(ViaWith(c, w, b, v, a, u, e.Swap()), BothWith(a, u, b, v, e, d))
  }

  // ---------- Three insertions ----------

  /** Which of two insertions at one place comes first: the one that was in front at the earlier state,
      and otherwise that of the greater user. */
  predicate Leads(aLcs: Operation, u: nat, bLcs: Operation, v: nat)
    requires aLcs.Insert? && bLcs.Insert?
  {
    InFront(aLcs, u, bLcs, v)
  }

  /** Whether `a` comes before `b`: by position, then earlier position, then user. */
  predicate Ahead(a: Operation, aLcs: Operation, u: nat, b: Operation, bLcs: Operation, v: nat)
    requires a.Insert? && b.Insert? && aLcs.Insert? && bLcs.Insert?
  {
    a.pos < b.pos || (a.pos == b.pos && Leads(aLcs, u, bLcs, v))
  }

  /** The order of the three insertions goes round in a circle. */
  predicate Cycle(c: Operation, w: nat, a: Operation, u: nat, b: Operation, v: nat, e: Earlier)
    requires c.Insert? && a.Insert? && b.Insert? && e.Inserts()
  {
    var ca, cb, ab := Ahead(c, e.ca, w, a, e.ac, u), Ahead(c, e.cb, w, b, e.bc, v), Ahead(a, e.ab, u, b, e.ba, v);
    (ca && ab && !cb) || (!ca && !ab && cb)
  }

  /** The texts of `a` and `b` in their order. */
  function Ordered(a: Operation, u: nat, b: Operation, v: nat, e: Earlier): seq<Cell>
    requires a.Insert? && b.Insert? && e.Inserts()
  {
    if Ahead(a, e.ab, u, b, e.ba, v) then a.text + b.text else b.text + a.text
  }

  lemma PastWith(c: Operation, cLcs: Operation, w: nat, a: Operation, aLcs: Operation, u: nat)
    requires c.Insert? && a.Insert? && cLcs.Insert? && aLcs.Insert?
    ensures Transform(c, a, cLcs, aLcs, CidOf(w, u))
      == Insert(Pushed(c.pos, a.pos, |a.text|, Leads(cLcs, w, aLcs, u)), c.text)
  {
    hide Transform;
    PastInsertion(c, a, cLcs, aLcs, CidOf(w, u));
  }

  /** The positions alone: `k`, `i` and `j` are those of `c`, `a` and `b`, `x` and `y` the lengths of `a`
      and `b`, and `ca`, `cb` and `ab` tell which operation leads where positions are equal. */
  lemma ThreePositions(k: nat, i: nat, j: nat, x: nat, y: nat, ca: bool, cb: bool, ab: bool)
    ensures var here := k == i && i == j && x > 0 && y > 0;
      var one := Pushed(Pushed(k, i, x, ca), Pushed(j, i, x, !ab), y, cb);
      var two := Pushed(Pushed(k, j, y, cb), Pushed(i, j, y, ab), x, ca);
      && (one == two <==> !(here && ((ca && ab && !cb) || (!ca && !ab && cb))))
      && (here && ca && ab && !cb ==> one == k && two == k + x + y)
      && (here && !ca && !ab && cb ==> one == k + x + y && two == k)
      && one <= k + x + y
  {
  }

  /** Where `c` goes. */
  lemma InsertionsVia(c: Operation, w: nat, a: Operation, u: nat, b: Operation, v: nat, e: Earlier)
    requires c.Insert? && a.Insert? && b.Insert? && e.Inserts() && u != v && v != w && u != w
    ensures ViaWith(c, w, a, u, b, v, e) == Insert(
      Pushed(Pushed(c.pos, a.pos, |a.text|, Leads(e.ca, w, e.ac, u)),
             Pushed(b.pos, a.pos, |a.text|, Leads(e.ba, v, e.ab, u)), |b.text|, Leads(e.cb, w, e.bc, v)), c.text)
  {
    hide Transform, Leads, Pushed;
    PastWith(c, e.ca, w, a, e.ac, u);
    PastWith(b, e.ba, v, a, e.ab, u);
    PastWith(Transform(c, a, e.ca, e.ac, CidOf(w, u)), e.cb, w, Transform(b, a, e.ba, e.ab, CidOf(v, u)), e.bc, v);
  }

  lemma OnePlace<T>(d: seq<T>, p: nat, x: seq<T>, y: seq<T>)
    requires p <= |d|
    ensures Inserted(Inserted(d, p, x), p, y) == d[..p] + (y + x) + d[p..]
    ensures Inserted(Inserted(d, p, x), p + |x|, y) == d[..p] + (x + y) + d[p..]
  {
  }

  lemma InsertionFits<T>(d: seq<T>, p: nat, x: seq<T>, q: nat, first: bool, y: seq<T>)
    requires p <= |d| && q <= |d|
    ensures Pushed(q, p, |x|, first) <= |Inserted(d, p, x)|
    ensures |Inserted(Inserted(d, p, x), Pushed(q, p, |x|, first), y)| == |d| + |x| + |y|
  {
  }

  /** The document behind both insertions. */
  lemma InsertionsDocument(a: Operation, u: nat, b: Operation, v: nat, e: Earlier, d: seq<Cell>)
    requires a.Insert? && b.Insert? && e.Inserts() && u != v && Apply(a, d).ok && Apply(b, d).ok
    ensures a.pos <= |d| && b.pos <= |d|
    ensures BothWith(a, u, b, v, e, d) == BothWith(b, v, a, u, e.Swap(), d)
    ensures |BothWith(a, u, b, v, e, d)| == |d| + |a.text| + |b.text|
    ensures a.pos == b.pos ==> BothWith(a, u, b, v, e, d) == d[..a.pos] + Ordered(a, u, b, v, e) + d[a.pos..]
  {
    hide Transform, Apply, Inserted, Pushed;
    ConvergentLater(a, b, e.ab, e.ba, CidOf(u, v), d);
    PastWith(b, e.ba, v, a, e.ab, u);
    ApplyInsert(a, d);
    ApplyInsert(b, d);
    var first := Leads(e.ba, v, e.ab, u);
    InsertionFits(d, a.pos, a.text, b.pos, first, b.text);
    ApplyInsert(Transform(b, a, e.ba, e.ab, CidOf(v, u)), Inserted(d, a.pos, a.text));
    if a.pos == b.pos {
      OnePlace(d, a.pos, a.text, b.text);
      PushedAt(a.pos, |a.text|, first);
    }
  }

  lemma PushedAt(p: nat, n: nat, first: bool)
    ensures Pushed(p, p, n, first) == if first then p else p + n
  {
  }

  /** C2 for three insertions, compared in pairs at whatever states: it fails exactly if their order goes
      round in a circle and the difference can be seen in the text. */
  lemma {:induction false} InsertionsThreeWay(c: Operation, w: nat, a: Operation, u: nat, b: Operation, v: nat,
                                              e: Earlier, d: seq<Cell>)
    requires c.Insert? && a.Insert? && b.Insert? && e.Inserts() && u != v && v != w && u != w
    requires Apply(a, d).ok && Apply(b, d).ok && Apply(c, d).ok
    ensures SameEffectWith(c, w, a, u, b, v, e, d) <==>
      !(&& Cycle(c, w, a, u, b, v, e) && a.text != [] && b.text != []
        && c.text + Ordered(a, u, b, v, e) != Ordered(a, u, b, v, e) + c.text)
  {
    hide Transform, ViaWith, BothWith, Pushed;
    InsertionsVia(c, w, a, u, b, v, e);
    InsertionsVia(c, w, b, v, a, u, e.Swap());
    InsertionsDocument(a, u, b, v, e, d);
    ThreePositions(c.pos, a.pos, b.pos, |a.text|, |b.text|, Leads(e.ca, w, e.ac, u), Leads(e.cb, w, e.bc, v),
                   Leads(e.ab, u, e.ba, v));
    var one, two := ViaWith(c, w, a, u, b, v, e), ViaWith(c, w, b, v, a, u, e.Swap());
    var doc := BothWith(a, u, b, v, e, d);
    ApplyInsertAt(one, doc);
    ApplyInsertAt(two, doc);
    if one != two {
      assert Cycle(c, w, a, u, b, v, e);
      Commute(d[..a.pos], Ordered(a, u, b, v, e), d[a.pos..], c.text);
    }
  }

  /** The order cannot go round in a circle if the three operations are compared at one state. */
  lemma OneStateNoCycle(c: Operation, w: nat, a: Operation, u: nat, b: Operation, v: nat,
                        cLcs: Operation, aLcs: Operation, bLcs: Operation)
    requires c.Insert? && a.Insert? && b.Insert? && cLcs.Insert? && aLcs.Insert? && bLcs.Insert?
    requires u != v && v != w && u != w
    ensures !Cycle(c, w, a, u, b, v, Earlier(cLcs, aLcs, cLcs, bLcs, aLcs, bLcs))
  {
  }

  // ---------- Two insertions and a deletion ----------

  lemma TwoPositions(p: nat, n: nat, k: nat, i: nat, x: nat, ca: bool)
    ensures var one := Pushed(Fallen(p, n, k), Fallen(p, n, i), x, k < i || (k == i && ca));
      var two := Pushed(Fallen(p, n, k), Fallen(p, n, i), x, ca);
      var against := p <= k <= p + n && p <= i <= p + n && ((k < i && !ca) || (i < k && ca));
      && (one == two <==> !against || x == 0)
      && (against ==>
            && Fallen(p, n, k) == Fallen(p, n, i) == p
            && one == (if k < i then p else p + x) && two == (if k < i then p + x else p))
  {
  }

  /** The insertion `c` taken past `a` and then the deletion: the positions decide while they differ. */
  lemma InsertionThenDeletion(c: Operation, a: Operation, tie: Cid, p: nat, o: seq<Cell>, u: nat, v: nat, d: seq<Cell>)
    requires c.Insert? && a.Insert? && Apply(c, d).ok && Apply(a, d).ok && p + |o| <= |d|
    ensures Against(Against(c, a, tie), Against(Delete(p, o), a, CidOf(v, u)), Self)
      == Insert(Pushed(Fallen(p, |o|, c.pos), Fallen(p, |o|, a.pos), |a.text|,
                       c.pos < a.pos || (c.pos == a.pos && tie == Other)), c.text)
  {
    hide Transform, Apply;
    var del := Delete(p, o);
    assert Apply(del, d).ok by { ApplyDelete(del, d); }
    var w' := if tie == Other then u + 1 else 0;
    var u' := if tie == Other then u else 1;
    assert CidOf(w', u') == tie;
    InsertAroundDeletion(c, w', a, u', del, v, d);
    AfterDeletion(c, w', a, u', p, o, v);
    DeletionStays(del, a, CidOf(v, u'));
    LcsIrrelevant(By(c, w', a, u'), By(del, v, a, u'), c, del, CidOf(w', v), Self);
    LcsIrrelevant(del, a, del, a, CidOf(v, u'), CidOf(v, u));
  }

  /** The document behind the deletion and `a`. */
  lemma DeletionDocument(a: Operation, u: nat, p: nat, o: seq<Cell>, v: nat, d: seq<Cell>)
    requires a.Insert? && u != v && Apply(a, d).ok && p + |o| <= |d|
    ensures Both(a, u, Delete(p, o), v, d) == Both(Delete(p, o), v, a, u, d)
    ensures Fallen(p, |o|, a.pos) <= |d| - |o|
    ensures Both(a, u, Delete(p, o), v, d) == Inserted(Erased(d, p, |o|), Fallen(p, |o|, a.pos), a.text)
  {
    hide Transform, Inserted, Erased, Apply;
    var del := Delete(p, o);
    ApplyDelete(del, d);
    ApplyInsert(a, d);
    BothAgree(a, u, del, v, d);
    PastDelete(a, u, p, o, v);
    ByApplies(a, u, del, v, d);
    ApplyInsert(By(a, u, del, v), Erased(d, p, |o|));
  }

  /** The insertions lie in the range, and their order there is not the one in which they are put when the
      range is gone. */
  predicate Turned(c: Operation, a: Operation, p: nat, n: nat, first: bool)
    requires c.Insert? && a.Insert?
  {
    && p <= c.pos <= p + n && p <= a.pos <= p + n
    && ((c.pos < a.pos && !first) || (a.pos < c.pos && first))
  }

  lemma TurnedDocument(d: seq<Cell>, p: nat, n: nat, x: seq<Cell>, z: seq<Cell>)
    requires p + n <= |d|
    ensures Inserted(Inserted(Erased(d, p, n), p, x), p, z) == Inserted(Inserted(Erased(d, p, n), p, x), p + |x|, z)
      <==> z + x == x + z
  {
    assert Inserted(Erased(d, p, n), p, x) == d[..p] + x + d[p + n..];
    Commute(d[..p], x, d[p + n..], z);
  }

  /** C2 for an insertion that passes another one and a deletion, when the insertions are compared at an
      earlier state: it fails exactly if the deletion brings them to one place, where the earlier state
      puts them the other way around, and the difference can be seen in the text. */
  lemma {:induction false} DeletionThreeWayWith(c: Operation, w: nat, a: Operation, u: nat, p: nat, o: seq<Cell>,
                                                v: nat, e: Earlier, d: seq<Cell>)
    requires c.Insert? && a.Insert? && e.ca.Insert? && e.ac.Insert? && u != v && v != w && u != w
    requires Apply(a, d).ok && Apply(c, d).ok && p + |o| <= |d|
    ensures SameEffectWith(c, w, a, u, Delete(p, o), v, e, d) <==>
      !(Turned(c, a, p, |o|, Leads(e.ca, w, e.ac, u)) && c.text + a.text != a.text + c.text)
  {
    hide Transform, Apply, Inserted, Erased, Pushed, Fallen;
    var del, first := Delete(p, o), Leads(e.ca, w, e.ac, u);
    ApplyInsert(c, d);
    ApplyInsert(a, d);
    ViaPastDeletion(c, w, a, u, p, o, v, e, d);
    ViaDeletionFirst(c, w, a, u, p, o, v, e);
    DeletionBoths(a, u, p, o, v, e, d);
    TwoPositions(p, |o|, c.pos, a.pos, |a.text|, first);
    var doc := BothWith(a, u, del, v, e, d);
    var one, two := ViaWith(c, w, a, u, del, v, e), ViaWith(c, w, del, v, a, u, e.Swap());
    PushedFits(d, p, |o|, c.pos, a.pos, a.text, c.pos < a.pos || (c.pos == a.pos && first));
    ApplyInsertAt(one, doc);
    ApplyInsertAt(two, doc);
    if Turned(c, a, p, |o|, first) {
      TurnedDocument(d, p, |o|, a.text, c.text);
    }
  }

  lemma PushedFits(d: seq<Cell>, p: nat, n: nat, k: nat, i: nat, x: seq<Cell>, first: bool)
    requires p + n <= |d| && k <= |d| && i <= |d|
    ensures Fallen(p, n, i) <= |d| - n
    ensures Pushed(Fallen(p, n, k), Fallen(p, n, i), |x|, first)
      <= |Inserted(Erased(d, p, n), Fallen(p, n, i), x)|
  {
  }

  /** Where two insertions are compared matters only if they are at one place. */
  lemma TieOf(c: Operation, cLcs: Operation, w: nat, a: Operation, aLcs: Operation, u: nat) returns (tie: Cid)
    requires c.Insert? && a.Insert? && cLcs.Insert? && aLcs.Insert?
    ensures tie == if Leads(cLcs, w, aLcs, u) then Other else Self
    ensures Transform(c, a, cLcs, aLcs, CidOf(w, u)) == Against(c, a, tie)
  {
    hide Transform;
    tie := if Leads(cLcs, w, aLcs, u) then Other else Self;
    PastWith(c, cLcs, w, a, aLcs, u);
    PastInsertion(c, a, c, a, tie);
  }

  lemma ViaPastDeletion(c: Operation, w: nat, a: Operation, u: nat, p: nat, o: seq<Cell>, v: nat, e: Earlier,
                        d: seq<Cell>)
    requires c.Insert? && a.Insert? && e.ca.Insert? && e.ac.Insert? && u != v && v != w && u != w
    requires Apply(a, d).ok && Apply(c, d).ok && p + |o| <= |d|
    ensures ViaWith(c, w, a, u, Delete(p, o), v, e)
      == Insert(Pushed(Fallen(p, |o|, c.pos), Fallen(p, |o|, a.pos), |a.text|,
                       c.pos < a.pos || (c.pos == a.pos && Leads(e.ca, w, e.ac, u))), c.text)
  {
    hide Transform, Apply, Pushed, Fallen, Leads;
    var del := Delete(p, o);
    var tie := TieOf(c, e.ca, w, a, e.ac, u);
    LcsIrrelevant(del, a, e.ba, e.ab, CidOf(v, u), CidOf(v, u));
    DeletionStays(del, a, CidOf(v, u));
    LcsIrrelevant(Against(c, a, tie), By(del, v, a, u), e.cb, e.bc, CidOf(w, v), Self);
    InsertionThenDeletion(c, a, tie, p, o, u, v, d);
  }

  lemma ViaDeletionFirst(c: Operation, w: nat, a: Operation, u: nat, p: nat, o: seq<Cell>, v: nat, e: Earlier)
    requires c.Insert? && a.Insert? && e.ca.Insert? && e.ac.Insert? && u != v && v != w && u != w
    ensures ViaWith(c, w, Delete(p, o), v, a, u, e.Swap())
      == Insert(Pushed(Fallen(p, |o|, c.pos), Fallen(p, |o|, a.pos), |a.text|, Leads(e.ca, w, e.ac, u)), c.text)
  {
    hide Transform, Pushed, Fallen, Leads;
    var del := Delete(p, o);
    LcsIrrelevant(c, del, e.cb, e.bc, CidOf(w, v), CidOf(w, v));
    LcsIrrelevant(a, del, e.ab, e.ba, CidOf(u, v), CidOf(u, v));
    PastDelete(c, w, p, o, v);
    PastDelete(a, u, p, o, v);
    PastWith(By(c, w, del, v), e.ca, w, By(a, u, del, v), e.ac, u);
  }

  lemma DeletionBoths(a: Operation, u: nat, p: nat, o: seq<Cell>, v: nat, e: Earlier, d: seq<Cell>)
    requires a.Insert? && u != v && Apply(a, d).ok && p + |o| <= |d|
    ensures Fallen(p, |o|, a.pos) <= |d| - |o|
    ensures BothWith(a, u, Delete(p, o), v, e, d) == BothWith(Delete(p, o), v, a, u, e.Swap(), d)
      == Inserted(Erased(d, p, |o|), Fallen(p, |o|, a.pos), a.text)
  {
    hide Transform, Apply, Inserted, Erased, Fallen;
    var del := Delete(p, o);
    LcsIrrelevant(del, a, e.ba, e.ab, CidOf(v, u), CidOf(v, u));
    LcsIrrelevant(a, del, e.ab, e.ba, CidOf(u, v), CidOf(u, v));
    DeletionDocument(a, u, p, o, v, d);
  }

  // ---------- Comparison at the present state ----------

  /** The two ways of taking `c` past the others, when operations are compared as they are. */
  ghost predicate SameEffectNow(c: Operation, w: nat, a: Operation, u: nat, b: Operation, v: nat, d: seq<Cell>) {
    var one, two := By(By(c, w, a, u), w, By(b, v, a, u), v), By(By(c, w, b, v), w, By(a, u, b, v), u);
    && Both(a, u, b, v, d) == Both(b, v, a, u, d)
    && Apply(one, Both(a, u, b, v, d)).ok
    && Apply(one, Both(a, u, b, v, d)) == Apply(two, Both(a, u, b, v, d))
  }

  /** C2 holds without earlier states, too, unless a deletion comes between two insertions. */
  lemma {:induction false} PureNow(c: Operation, w: nat, a: Operation, u: nat, b: Operation, v: nat, d: seq<Cell>)
    requires u != v && v != w && u != w && Pure(a) && Pure(b) && Pure(c)
    requires Inserting(c) ==> (Inserting(a) <==> Inserting(b))
    requires Apply(a, d).ok && Apply(b, d).ok && Apply(c, d).ok
    ensures SameEffectNow(c, w, a, u, b, v, d)
  {
    hide Transform, Strikes;
    BothAgree(a, u, b, v, d);
    if !Inserting(c) {
      DeletionThreeWay(c, w, a, u, b, v, d);
      DeletionStays(c, a, CidOf(w, u));
      DeletionStays(c, b, CidOf(w, v));
      LcsIrrelevant(By(c, w, a, u), By(b, v, a, u), c, b, CidOf(w, v), CidOf(w, v));
      LcsIrrelevant(By(c, w, b, v), By(a, u, b, v), c, a, CidOf(w, u), CidOf(w, u));
    } else {
      ByApplies(c, w, a, u, d);
      ByApplies(b, v, a, u, d);
      ByApplies(By(c, w, a, u), w, By(b, v, a, u), v, Apply(a, d).doc);
      if Inserting(a) {
        InsertingAgree(c, w, a, u, b, v);
      } else {
        var ma := MaskExists(a, d);
        var mb := MaskExists(b, d);
        PastTwoDeletions(c, w, a, u, b, v, d, ma, mb);
      }
    }
  }

  /** Without earlier states a deletion makes C2 fail exactly if it brings two insertions to one place
      whose order by position is not that of the users, and the difference can be seen in the text. */
  lemma {:induction false} DeletionNow(c: Operation, w: nat, a: Operation, u: nat, p: nat, o: seq<Cell>, v: nat,
                                       d: seq<Cell>)
    requires c.Insert? && a.Insert? && u != v && v != w && u != w
    requires Apply(a, d).ok && Apply(c, d).ok && p + |o| <= |d|
    ensures SameEffectNow(c, w, a, u, Delete(p, o), v, d) <==>
      !(&& p <= c.pos <= p + |o| && p <= a.pos <= p + |o|
        && ((c.pos < a.pos && w < u) || (a.pos < c.pos && u < w))
        && c.text + a.text != a.text + c.text)
  {
    hide Transform, Apply, Inserted, Erased, Pushed, Fallen, Both;
    var del := Delete(p, o);
    ApplyInsert(c, d);
    ApplyInsert(a, d);
    InsertionThenDeletion(c, a, CidOf(w, u), p, o, u, v, d);
    DeletionStays(del, a, CidOf(v, u));
    LcsIrrelevant(By(c, w, a, u), By(del, v, a, u), By(c, w, a, u), By(del, v, a, u), CidOf(w, v), Self);
    PastDelete(c, w, p, o, v);
    PastDelete(a, u, p, o, v);
    PastInsert(By(c, w, del, v), w, By(a, u, del, v), u);
    DeletionDocument(a, u, p, o, v, d);
    TwoPositions(p, |o|, c.pos, a.pos, |a.text|, w > u);
    var doc := Both(a, u, del, v, d);
    var one, two := By(By(c, w, a, u), w, By(del, v, a, u), v), By(By(c, w, del, v), w, By(a, u, del, v), u);
    PushedFits(d, p, |o|, c.pos, a.pos, a.text, c.pos < a.pos || (c.pos == a.pos && w > u));
    ApplyInsertAt(one, doc);
    ApplyInsertAt(two, doc);
    if Turned(c, a, p, |o|, w > u) {
      TurnedDocument(d, p, |o|, a.text, c.text);
    }
  }

  // ---------- Concrete inputs ----------

  /** A range is deleted and a text is typed in its place, while two others insert into the range: three
      insertions for which C2 fails, each pair of them compared at the earliest state it shares. */
  lemma {:induction false} TypingBreaksC2(d: seq<Cell>, x: Cell, y: Cell, z: Cell)
    requires |d| >= 7 && y != z
    ensures var a, c, del := Insert(5, [x]), Insert(6, [z]), Delete(3, d[3..7]);
      var a', c', t, d' := By(a, 1, del, 2), By(c, 3, del, 2), Insert(3, [y]), Apply(del, d).doc;
      && Faithful(a, d) && Faithful(c, d) && Faithful(del, d)
      && Faithful(a', d') && Faithful(c', d') && Faithful(t, d')
      && !SameEffectWith(c', 3, a', 1, t, 2, Earlier(c, a, c', t, a', t), d')
  {
    hide SameEffectWith;
    var a, c, del := Insert(5, [x]), Insert(6, [z]), Delete(3, d[3..7]);
    PastDelete(a, 1, 3, d[3..7], 2);
    PastDelete(c, 3, 3, d[3..7], 2);
    var a', c', t, d' := By(a, 1, del, 2), By(c, 3, del, 2), Insert(3, [y]), Apply(del, d).doc;
    assert |d'| == |d| - 4;
    InsertionsThreeWay(c', 3, a', 1, t, 2, Earlier(c, a, c', t, a', t), d');
    assert ([z] + ([y] + [x]))[0] == z && (([y] + [x]) + [z])[0] == y;
  }

  /** Two insertions and a deletion for which C2 fails when operations are compared as they are. */
  lemma {:induction false} NowBreaksC2(d: seq<Cell>, x: Cell, z: Cell)
    requires |d| >= 7 && x != z
    ensures var a, c, del := Insert(5, [x]), Insert(6, [z]), Delete(3, d[3..7]);
      && Faithful(a, d) && Faithful(c, d) && Faithful(del, d)
      && !SameEffectNow(c, 3, a, 1, del, 2, d)
  {
    hide SameEffectNow;
    var a, c := Insert(5, [x]), Insert(6, [z]);
    DeletionNow(c, 3, a, 1, 3, d[3..7], 2, d);
    assert ([z] + [x])[0] == z && ([x] + [z])[0] == x;
  }
}
