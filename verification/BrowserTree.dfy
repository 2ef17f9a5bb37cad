/** `InfGtkBrowserStore` as a tree model: the nodes of a browser below a toplevel item.  While a node
    is being removed it is still in the browser but must not be seen any more; it is called missing. */
module BrowserTree {
  import opened Options

  /** The explored part of a directory.  Nodes are numbered, 0 is the root; `children` has an entry for
      every explored subdirectory, `depth` one for every node. */
  datatype Tree = Tree(children: map<nat, seq<nat>>, parent: map<nat, nat>, depth: map<nat, nat>) {

    ghost predicate Valid() {
      && 0 in depth && 0 !in parent
      && (forall n {:trigger Hangs(n)} :: n in depth ==> n == 0 || Hangs(n))
      && (forall n :: n in parent ==> n in depth)
      && (forall n :: n in children ==> n in depth && Distinct(children[n]))
      && (forall n, k :: n in children && k in children[n] ==> k in parent && parent[k] == n)
    }

    /** The node is one of the children of its parent, one step further from the root. */
    ghost predicate Hangs(n: nat) {
      && n in parent && parent[n] in depth && n in depth
      && depth[n] == depth[parent[n]] + 1 && n in Kids(parent[n])
    }

    function Kids(n: nat): seq<nat> {
      if n in children then children[n] else []
    }

    // The navigation that a browser offers.

    predicate Explored(n: nat) {
      n in children
    }

    function GetChild(n: nat): Option<nat> {
      if Kids(n) == [] then None else Some(Kids(n)[0])
    }

    function GetNext(n: nat): Option<nat> {
      if n !in parent then None
      else
        var kids := Kids(parent[n]);
        var i := IndexOf(kids, n);
        if i + 1 < |kids| then Some(kids[i + 1]) else None
    }

    function GetParent(n: nat): Option<nat> {
      if n in parent then Some(parent[n]) else None
    }
  }

  ghost predicate Distinct(s: seq<nat>) {
    forall i, j :: 0 <= i < j < |s| ==> s[i] != s[j]
  }

  function IndexOf(s: seq<nat>, x: nat): (i: nat)
    ensures i <= |s| && (x in s ==> i < |s| && s[i] == x)
  {
    if s == [] || s[0] == x then 0 else 1 + IndexOf(s[1..], x)
  }

  lemma {:induction false} IndexAt(s: seq<nat>, i: nat)
    requires Distinct(s) && i < |s|
    ensures IndexOf(s, s[i]) == i
  {
    if i > 0 {
      assert s[0] != s[i];
      assert Distinct(s[1..]);
      IndexAt(s[1..], i - 1);
    }
  }

  lemma ChildOf(t: Tree, p: nat, k: nat)
    requires t.Valid() && k in t.Kids(p)
    ensures p in t.children && p in t.depth && k in t.depth && k in t.parent && k != 0 && t.parent[k] == p
  {
  }

  lemma KidsDistinct(t: Tree, p: nat)
    requires t.Valid()
    ensures Distinct(t.Kids(p))
  {
  }

  lemma NextOf(t: Tree, p: nat, i: nat)
    requires t.Valid() && i < |t.Kids(p)|
    ensures t.GetNext(t.Kids(p)[i]) == if i + 1 < |t.Kids(p)| then Some(t.Kids(p)[i + 1]) else None
  {
    hide Tree.Valid;
    ChildOf(t, p, t.Kids(p)[i]);
    KidsDistinct(t, p);
    IndexAt(t.Kids(p), i);
  }

  // ---------- The pruned tree ----------

  /** The nodes that may be seen. */
  ghost function Pruned(s: seq<nat>, missing: Option<nat>): (r: seq<nat>) {
    if s == [] then []
    else (if missing == Some(s[0]) then [] else [s[0]]) + Pruned(s[1..], missing)
  }

  /** The node at a path below `n` in the pruned tree. */
  ghost function Descend(t: Tree, missing: Option<nat>, n: nat, path: seq<nat>): Option<nat>
    decreases path
  {
    if path == [] then Some(n)
    else
      var kids := Pruned(t.Kids(n), missing);
      if path[0] < |kids| then Descend(t, missing, kids[path[0]], path[1..]) else None
  }

  /** Neither the node nor one above it is missing. */
  ghost predicate Seen(t: Tree, missing: Option<nat>, n: nat)
    requires t.Valid() && n in t.depth
    decreases t.depth[n]
  {
    missing != Some(n) && (n == 0 || assert t.Hangs(n); Seen(t, missing, t.parent[n]))
  }

  /** The children of the parent that may be seen. */
  ghost function Siblings(t: Tree, missing: Option<nat>, n: nat): seq<nat>
    requires t.Valid() && n in t.depth && n != 0
  {
    assert t.Hangs(n);
    Pruned(t.Kids(t.parent[n]), missing)
  }

  /** The path of a node in the pruned tree. */
  ghost function PathTo(t: Tree, missing: Option<nat>, n: nat): seq<nat>
    requires t.Valid() && n in t.depth
    decreases t.depth[n]
  {
    if n == 0 then []
    else assert t.Hangs(n); PathTo(t, missing, t.parent[n]) + [IndexOf(Pruned(t.Kids(t.parent[n]), missing), n)]
  }

  lemma {:induction false} PrunedJoin(a: seq<nat>, b: seq<nat>, missing: Option<nat>)
    ensures Pruned(a + b, missing) == Pruned(a, missing) + Pruned(b, missing)
  {
    if a == [] {
      assert a + b == b;
    } else {
      assert (a + b)[1..] == a[1..] + b;
      PrunedJoin(a[1..], b, missing);
    }
  }

  /** Pruning removes at most one of several distinct nodes. */
  lemma {:induction false} PrunedLength(s: seq<nat>, missing: Option<nat>)
    requires Distinct(s)
    ensures |Pruned(s, missing)| == |s| - if missing.Some? && missing.value in s then 1 else 0
  {
    if s != [] {
      assert forall i, j :: 0 <= i < j < |s| - 1 ==> s[1..][i] == s[i + 1] && s[1..][j] == s[j + 1];
      PrunedLength(s[1..], missing);
    }
  }

  lemma {:induction false} PrunedMembers(s: seq<nat>, missing: Option<nat>)
    ensures forall x :: x in Pruned(s, missing) <==> x in s && missing != Some(x)
  {
    if s != [] {
      PrunedMembers(s[1..], missing);
    }
  }

  /** Where a node that is not missing is after pruning. */
  lemma PrunedAt(s: seq<nat>, missing: Option<nat>, i: nat)
    requires Distinct(s) && i < |s| && missing != Some(s[i])
    ensures var k := i - if missing.Some? && missing.value in s[..i] then 1 else 0;
      && 0 <= k < |Pruned(s, missing)| && Pruned(s, missing)[k] == s[i]
      && |Pruned(s[..i], missing)| == k
  {
    assert s == s[..i] + ([s[i]] + s[i + 1..]);
    PrunedJoin(s[..i], [s[i]] + s[i + 1..], missing);
    assert ([s[i]] + s[i + 1..])[1..] == s[i + 1..];
    PrunedLength(s[..i], missing);
  }

  lemma {:induction false} PrunedDistinct(s: seq<nat>, missing: Option<nat>)
    requires Distinct(s)
    ensures Distinct(Pruned(s, missing))
  {
    if s != [] {
      assert Distinct(s[1..]);
      PrunedDistinct(s[1..], missing);
      PrunedMembers(s[1..], missing);
      assert s[0] !in s[1..];
    }
  }

  // ---------- Paths and nodes ----------

  lemma {:induction false} DescendJoin(t: Tree, missing: Option<nat>, n: nat, p: seq<nat>, q: seq<nat>)
    ensures Descend(t, missing, n, p + q) ==
      var m := Descend(t, missing, n, p); if m.None? then None else Descend(t, missing, m.value, q)
    decreases p
  {
    if p == [] {
      assert p + q == q;
    } else {
      assert (p + q)[1..] == p[1..] + q;
      var kids := Pruned(t.Kids(n), missing);
      if p[0] < |kids| {
        DescendJoin(t, missing, kids[p[0]], p[1..], q);
      }
    }
  }

  /** The path of a node that may be seen leads to it. */
  lemma {:induction false} PathLeadsThere(t: Tree, missing: Option<nat>, n: nat)
    requires t.Valid() && n in t.depth && Seen(t, missing, n)
    ensures Descend(t, missing, 0, PathTo(t, missing, n)) == Some(n)
    decreases t.depth[n]
  {
    if n != 0 {
      assert t.Hangs(n);
      var p := t.parent[n];
      PathLeadsThere(t, missing, p);
      var kids := Pruned(t.Kids(p), missing);
      PrunedMembers(t.Kids(p), missing);
      var k := IndexOf(kids, n);
      DescendJoin(t, missing, 0, PathTo(t, missing, p), [k]);
      assert [k][1..] == [];
    }
  }

  lemma OneDown(t: Tree, missing: Option<nat>, p: nat, k: nat)
    ensures Descend(t, missing, p, [k]) ==
      if k < |Pruned(t.Kids(p), missing)| then Some(Pruned(t.Kids(p), missing)[k]) else None
  {
    assert [k][1..] == [];
  }

  /** The path of a child is the path of its parent and its place among the children that may be seen. */
  lemma PathOfChild(t: Tree, missing: Option<nat>, p: nat, k: nat)
    requires t.Valid() && p in t.depth && Seen(t, missing, p) && k < |Pruned(t.Kids(p), missing)|
    ensures Pruned(t.Kids(p), missing)[k] in t.parent && t.parent[Pruned(t.Kids(p), missing)[k]] == p
    ensures Seen(t, missing, Pruned(t.Kids(p), missing)[k])
    ensures PathTo(t, missing, Pruned(t.Kids(p), missing)[k]) == PathTo(t, missing, p) + [k]
  {
    hide Tree.Valid, Pruned;
    var kids := Pruned(t.Kids(p), missing);
    PrunedMembers(t.Kids(p), missing);
    assert kids[k] in kids;
    ChildOf(t, p, kids[k]);
    KidsDistinct(t, p);
    PrunedDistinct(t.Kids(p), missing);
    IndexAt(kids, k);
  }

  /** No other path leads to a node, and no path leads to a node that must not be seen. */
  lemma {:induction false} OnlyPath(t: Tree, missing: Option<nat>, path: seq<nat>, n: nat)
    requires t.Valid() && missing != Some(0)
    requires Descend(t, missing, 0, path) == Some(n)
    ensures n in t.depth && Seen(t, missing, n) && PathTo(t, missing, n) == path
    decreases |path|
  {
    if path != [] {
      var init, k := path[..|path| - 1], path[|path| - 1];
      assert path == init + [k];
      DescendJoin(t, missing, 0, init, [k]);
      var p := Descend(t, missing, 0, init).value;
      OnlyPath(t, missing, init, p);
      OneDown(t, missing, p, k);
      PathOfChild(t, missing, p, k);
    }
  }

  lemma PrunedOne(s: seq<nat>, missing: Option<nat>, i: nat)
    requires i < |s|
    ensures Pruned(s[..i + 1], missing) == Pruned(s[..i], missing) + if missing == Some(s[i]) then [] else [s[i]]
  {
    assert s[..i + 1] == s[..i] + [s[i]];
    PrunedJoin(s[..i], [s[i]], missing);
  }

  lemma {:induction false} PrunedNothing(s: seq<nat>)
    ensures Pruned(s, None) == s
  {
    if s != [] {
      PrunedNothing(s[1..]);
    }
  }

  // ---------- Rows and iterators ----------

  /** A toplevel item: its browser if there is one, whether that is open, and the missing node. */
  datatype Row = Row(browser: Option<Tree>, open: bool, missing: Option<nat>) {

    ghost predicate Valid() {
      browser.Some? ==> browser.value.Valid()
    }

    /** The browser, if there is one, is open, and its root is not the missing node. */
    predicate RootShown() {
      missing != Some(0) && (browser.Some? ==> open)
    }

    /** The children of a node that the view may see. */
    ghost function Children(n: nat): seq<nat> {
      if browser.None? || !open || missing == Some(n) then [] else Pruned(browser.value.Kids(n), missing)
    }
  }

  ghost predicate AllValid(rows: seq<Row>) {
    forall i :: 0 <= i < |rows| ==> rows[i].Valid()
  }

  /** A place in the model: a toplevel item, or a node below it. */
  datatype Iter = Iter(row: nat, node: Option<nat>)

  /** A toplevel item stands for the root of its browser. */
  function NodeOf(node: Option<nat>): nat {
    if node.Some? then node.value else 0
  }

  function IterOf(row: nat, n: nat): Iter {
    Iter(row, if n == 0 then None else Some(n))
  }

  /** The iterator denotes something that the view may see. */
  ghost predicate Visible(rows: seq<Row>, iter: Iter)
    requires AllValid(rows)
  {
    && iter.row < |rows|
    && (iter.node.Some? ==>
          var row := rows[iter.row];
          && row.browser.Some? && row.open && iter.node.value != 0
          && iter.node.value in row.browser.value.depth
          && Seen(row.browser.value, row.missing, iter.node.value))
  }

  /** What a path means: the first index is that of the toplevel item. */
  ghost function Locate(rows: seq<Row>, path: seq<nat>): Option<Iter> {
    if path == [] || path[0] >= |rows| then None
    else if |path| == 1 then Some(Iter(path[0], None))
    else
      var row := rows[path[0]];
      if row.browser.None? then None
      else
        var n := Descend(row.browser.value, row.missing, 0, path[1..]);
        if n.None? then None else Some(Iter(path[0], n))
  }

  ghost function PathOf(rows: seq<Row>, iter: Iter): seq<nat>
    requires AllValid(rows) && Visible(rows, iter)
  {
    [iter.row] +
    if iter.node.None? then []
    else PathTo(rows[iter.row].browser.value, rows[iter.row].missing, iter.node.value)
  }

  lemma DescendBelow(t: Tree, missing: Option<nat>, path: seq<nat>, n: nat)
    requires t.Valid() && missing != Some(0) && path != [] && Descend(t, missing, 0, path) == Some(n)
    ensures n != 0
  {
    OnlyPath(t, missing, path, n);
  }

  /** From a path to the place and back: only the path that was taken. */
  lemma PathThereAndBack(rows: seq<Row>, path: seq<nat>)
    requires AllValid(rows)
    requires Locate(rows, path).Some? && (|path| > 1 ==> rows[path[0]].RootShown())
    ensures Visible(rows, Locate(rows, path).value) && PathOf(rows, Locate(rows, path).value) == path
  {
    if |path| > 1 {
      var row := rows[path[0]];
      var n := Descend(row.browser.value, row.missing, 0, path[1..]).value;
      OnlyPath(row.browser.value, row.missing, path[1..], n);
      DescendBelow(row.browser.value, row.missing, path[1..], n);
      assert path == [path[0]] + path[1..];
    }
  }

  /** From a place to its path and back. */
  lemma PlaceThereAndBack(rows: seq<Row>, iter: Iter)
    requires AllValid(rows)
    requires Visible(rows, iter)
    ensures Locate(rows, PathOf(rows, iter)) == Some(iter)
  {
    if iter.node.Some? {
      var row := rows[iter.row];
      PathLeadsThere(row.browser.value, row.missing, iter.node.value);
      var below := PathTo(row.browser.value, row.missing, iter.node.value);
      assert ([iter.row] + below)[1..] == below;
    }
  }

  /** Taking one more step on a path is taking a child: all functions see the same tree. */
  lemma ChildOnPath(rows: seq<Row>, path: seq<nat>, k: nat)
    requires AllValid(rows)
    requires Locate(rows, path).Some? && rows[path[0]].RootShown()
    ensures Locate(rows, path + [k]) ==
      var iter := Locate(rows, path).value;
      var kids := rows[iter.row].Children(NodeOf(iter.node));
      if k < |kids| then Some(Iter(iter.row, Some(kids[k]))) else None
  {
    var row := rows[path[0]];
    var iter := Locate(rows, path).value;
    assert (path + [k])[1..] == path[1..] + [k];
    if row.browser.Some? {
      DescendJoin(row.browser.value, row.missing, 0, path[1..], [k]);
      OneDown(row.browser.value, row.missing, NodeOf(iter.node), k);
      PathThereAndBack(rows, path);
      if iter.node.Some? {
        assert Seen(row.browser.value, row.missing, iter.node.value);
      }
    }
  }

  /** Where the functions do not see the same tree: when the root is missing, its item has no children,
      yet paths still lead below it.  They agree on an item's children exactly otherwise. */
  lemma MissingRoot(rows: seq<Row>, r: nat)
    requires r < |rows| && rows[r].browser.Some? && rows[r].open && rows[r].browser.value.Valid()
    ensures (forall k: nat :: Locate(rows, [r, k]).Some? <==> k < |rows[r].Children(0)|)
      <==> (rows[r].missing != Some(0) || rows[r].browser.value.Kids(0) == [])
  {
    var t, missing := rows[r].browser.value, rows[r].missing;
    var kids := t.Kids(0);
    forall k: nat ensures Locate(rows, [r, k]).Some? <==> k < |Pruned(kids, missing)| {
      assert [r, k][1..] == [k];
      OneDown(t, missing, 0, k);
    }
    if missing == Some(0) && kids != [] {
      PrunedMembers(kids, missing);
      ChildOf(t, 0, kids[0]);
      assert kids[0] in Pruned(kids, missing);
      assert Locate(rows, [r, 0]).Some?;
    }
  }

  /** An item whose root is missing, with one node below it: the path to that node is still there. */
  lemma MissingRootExample()
    ensures var t := Tree(map[0 := [1]], map[1 := 0], map[0 := 0, 1 := 1]);
      var rows := [Row(Some(t), true, Some(0))];
      && t.Valid() && rows[0].Children(0) == [] && Locate(rows, [0, 0]) == Some(Iter(0, Some(1)))
  {
    var t := Tree(map[0 := [1]], map[1 := 0], map[0 := 0, 1 := 1]);
    assert t.Hangs(1);
    assert [0, 0][1..] == [0];
    OneDown(t, Some(0), 0, 0);
    PrunedAbsent([1], Some(0));
  }

  // ---------- The operations of the tree model ----------

  /** The first child that may be seen. */
  function IterChildren(rows: seq<Row>, parent: Option<Iter>): (r: Option<Iter>)
    requires AllValid(rows)
    requires parent.Some? ==> Visible(rows, parent.value)
    ensures parent.None? ==> r == if rows == [] then None else Some(Iter(0, None))
    ensures parent.Some? ==>
      var kids := rows[parent.value.row].Children(NodeOf(parent.value.node));
      r == if kids == [] then None else Some(Iter(parent.value.row, Some(kids[0])))
  {
    if parent.None? then
      if rows == [] then None else Some(Iter(0, None))
    else
      var row := rows[parent.value.row];
      if row.browser.None? || !row.open then None
      else
        var t, n := row.browser.value, NodeOf(parent.value.node);
        if row.missing == Some(n) || !t.Explored(n) then None
        else
          var child := t.GetChild(n);
          if child.None? then None
          else
            ChildrenSkip(t, row.missing, n);
            var shown := if child == row.missing then t.GetNext(child.value) else child;
            if shown.None? then None else Some(Iter(parent.value.row, shown))
  }

  /** The next node, or the one behind it if that is missing. */
  function StepOver(t: Tree, missing: Option<nat>, n: nat): Option<nat> {
    var next := t.GetNext(n);
    if next.Some? && next == missing then t.GetNext(next.value) else next
  }

  /** The next sibling that may be seen. */
  function IterNext(rows: seq<Row>, iter: Iter): (r: Option<Iter>)
    requires AllValid(rows)
    requires Visible(rows, iter)
    ensures iter.node.None? ==> r == if iter.row + 1 < |rows| then Some(Iter(iter.row + 1, None)) else None
    ensures iter.node.Some? ==>
      var kids := Siblings(rows[iter.row].browser.value, rows[iter.row].missing, iter.node.value);
      && IndexOf(kids, iter.node.value) < |kids|
      && r == if IndexOf(kids, iter.node.value) + 1 < |kids|
              then Some(Iter(iter.row, Some(kids[IndexOf(kids, iter.node.value) + 1]))) else None
  {
    if iter.node.None? then
      if iter.row + 1 < |rows| then Some(Iter(iter.row + 1, None)) else None
    else
      var row := rows[iter.row];
      var t := row.browser.value;
      NextSkips(t, row.missing, iter.node.value);
      var next := StepOver(t, row.missing, iter.node.value);
      if next.None? then None else Some(Iter(iter.row, next))
  }

  lemma ChildrenSkip(t: Tree, missing: Option<nat>, n: nat)
    requires t.Valid() && t.Kids(n) != []
    ensures var child := t.GetChild(n);
      (if child == missing then t.GetNext(child.value) else child) ==
      if Pruned(t.Kids(n), missing) == [] then None else Some(Pruned(t.Kids(n), missing)[0])
  {
    var kids := t.Kids(n);
    NextOf(t, n, 0);
    KidsDistinct(t, n);
    FirstShown(kids, missing);
  }

  lemma FirstShown(s: seq<nat>, missing: Option<nat>)
    requires Distinct(s) && s != []
    ensures Pruned(s, missing) ==
      if missing == Some(s[0]) then s[1..] else [s[0]] + Pruned(s[1..], missing)
  {
    if missing == Some(s[0]) {
      PrunedAbsent(s[1..], missing);
    }
  }

  lemma {:induction false} PrunedAbsent(s: seq<nat>, missing: Option<nat>)
    requires missing.Some? ==> missing.value !in s
    ensures Pruned(s, missing) == s
  {
    if s != [] {
      PrunedAbsent(s[1..], missing);
    }
  }

  /** The nodes that may be seen, around one of them. */
  lemma PrunedAround(s: seq<nat>, missing: Option<nat>, i: nat)
    requires Distinct(s) && i < |s| && missing != Some(s[i])
    ensures Pruned(s, missing) == Pruned(s[..i], missing) + [s[i]] + Pruned(s[i + 1..], missing)
  {
    assert s == s[..i] + ([s[i]] + s[i + 1..]);
    PrunedJoin(s[..i], [s[i]] + s[i + 1..], missing);
    assert ([s[i]] + s[i + 1..])[1..] == s[i + 1..];
  }

  /** Two steps from the place of a node, one of them over the missing node. */
  lemma ShownBehind(s: seq<nat>, missing: Option<nat>, k: nat, i: nat)
    requires Distinct(s) && k < |Pruned(s, missing)| && i < |s| && s[i] == Pruned(s, missing)[k]
    ensures missing != Some(s[i]) && k < |Pruned(s, missing)|
    ensures Pruned(s, missing)[k + 1..] == Pruned(s[i + 1..], missing)
  {
    PrunedMembers(s, missing);
    assert s[i] in Pruned(s, missing);
    PrunedAround(s, missing, i);
    PrunedDistinct(s, missing);
    hide Pruned;
    assert Pruned(s, missing)[|Pruned(s[..i], missing)|] == s[i];
  }

  lemma FirstOfRest(s: seq<nat>, k: nat)
    requires k < |s|
    ensures s[k + 1..] == [] <==> k + 1 == |s|
    ensures s[k + 1..] != [] ==> s[k + 1..][0] == s[k + 1]
  {
  }

  lemma NextShown(t: Tree, missing: Option<nat>, p: nat, k: nat)
    requires t.Valid() && k < |Pruned(t.Kids(p), missing)|
    ensures StepOver(t, missing, Pruned(t.Kids(p), missing)[k]) ==
      if k + 1 < |Pruned(t.Kids(p), missing)| then Some(Pruned(t.Kids(p), missing)[k + 1]) else None
  {
    hide Tree.Valid, Tree.GetNext, Pruned, Distinct;
    var kids := t.Kids(p);
    KidsDistinct(t, p);
    var n := Pruned(kids, missing)[k];
    PrunedMembers(kids, missing);
    assert n in Pruned(kids, missing);
    var i := IndexOf(kids, n);
    ShownBehind(kids, missing, k, i);
    FirstOfRest(Pruned(kids, missing), k);
    NextOf(t, p, i);
    if i + 1 < |kids| {
      NextOf(t, p, i + 1);
      DistinctTail(kids, i + 1);
      FirstShown(kids[i + 1..], missing);
    } else {
      PrunedAbsent(kids[i + 1..], missing);
    }
  }

  lemma DistinctTail(s: seq<nat>, i: nat)
    requires Distinct(s) && i <= |s|
    ensures Distinct(s[i..])
  {
  }

  /** A node that may be seen is one of the children of its parent that may be seen. */
  lemma AmongSiblings(t: Tree, missing: Option<nat>, n: nat)
    requires t.Valid() && n in t.depth && n != 0 && missing != Some(n)
    ensures n in t.parent && Siblings(t, missing, n) == Pruned(t.Kids(t.parent[n]), missing)
    ensures n in Siblings(t, missing, n)
  {
    assert t.Hangs(n);
    PrunedMembers(t.Kids(t.parent[n]), missing);
  }

  lemma NextSkips(t: Tree, missing: Option<nat>, n: nat)
    requires t.Valid() && n in t.depth && n != 0 && missing != Some(n)
    ensures var kids := Siblings(t, missing, n);
      && IndexOf(kids, n) < |kids| && kids[IndexOf(kids, n)] == n
      && StepOver(t, missing, n) ==
           if IndexOf(kids, n) + 1 < |kids| then Some(kids[IndexOf(kids, n) + 1]) else None
  {
    hide Tree.Valid, Pruned, StepOver, Siblings;
    AmongSiblings(t, missing, n);
    NextShown(t, missing, t.parent[n], IndexOf(Siblings(t, missing, n), n));
  }

  // ---------- Walks and counts ----------

  /** The siblings met by starting at the first child and then stepping on. */
  ghost function Walk(rows: seq<Row>, parent: Iter, n: nat): Option<Iter>
    requires AllValid(rows) && Visible(rows, parent)
  {
    if n == 0 then IterChildren(rows, Some(parent))
    else
      var before := Walk(rows, parent, n - 1);
      if before.None? || !Visible(rows, before.value) then None else IterNext(rows, before.value)
  }

  /** A child that may be seen is in sight, and its parent is where it was looked for. */
  lemma ChildInSight(rows: seq<Row>, parent: Iter, k: nat)
    requires AllValid(rows) && Visible(rows, parent) && k < |rows[parent.row].Children(NodeOf(parent.node))|
    ensures var child := Iter(parent.row, Some(rows[parent.row].Children(NodeOf(parent.node))[k]));
      Visible(rows, child) && IterParent(rows, child) == Some(IterOf(parent.row, NodeOf(parent.node)))
  {
    var row, p := rows[parent.row], NodeOf(parent.node);
    assert p in row.browser.value.depth && Seen(row.browser.value, row.missing, p);
    PathOfChild(row.browser.value, row.missing, p, k);
  }

  lemma StepToSibling(rows: seq<Row>, parent: Iter, k: nat)
    requires AllValid(rows) && Visible(rows, parent) && k < |rows[parent.row].Children(NodeOf(parent.node))|
    requires Visible(rows, Iter(parent.row, Some(rows[parent.row].Children(NodeOf(parent.node))[k])))
    ensures var kids := rows[parent.row].Children(NodeOf(parent.node));
      IterNext(rows, Iter(parent.row, Some(kids[k]))) ==
      if k + 1 < |kids| then Some(Iter(parent.row, Some(kids[k + 1]))) else None
  {
    hide Tree.Valid, Pruned, Seen, Distinct, StepOver;
    var row, p := rows[parent.row], NodeOf(parent.node);
    NextShown(row.browser.value, row.missing, p, k);
  }

  /** After `n` steps the walk is at the `n`-th child that may be seen. */
  ghost predicate WalkedTo(rows: seq<Row>, parent: Iter, n: nat)
    requires AllValid(rows) && Visible(rows, parent)
  {
    var kids := rows[parent.row].Children(NodeOf(parent.node));
    Walk(rows, parent, n) == if n < |kids| then Some(Iter(parent.row, Some(kids[n]))) else None
  }

  lemma WalkOn(rows: seq<Row>, parent: Iter, n: nat)
    requires AllValid(rows) && Visible(rows, parent) && WalkedTo(rows, parent, n)
    ensures WalkedTo(rows, parent, n + 1)
  {
    if n < |rows[parent.row].Children(NodeOf(parent.node))| {
      ChildInSight(rows, parent, n);
      StepToSibling(rows, parent, n);
    }
  }

  lemma WalkStart(rows: seq<Row>, parent: Iter)
    requires AllValid(rows) && Visible(rows, parent)
    ensures WalkedTo(rows, parent, 0)
  {
    hide IterNext, Row.Children, Tree.Valid;
    assert Walk(rows, parent, 0) == IterChildren(rows, Some(parent));
  }

  lemma {:induction false} WalkArrives(rows: seq<Row>, parent: Iter, n: nat)
    requires AllValid(rows) && Visible(rows, parent)
    ensures WalkedTo(rows, parent, n)
  {
    hide WalkedTo, Visible, AllValid;
    if n == 0 {
      WalkStart(rows, parent);
    } else {
      WalkArrives(rows, parent, n - 1);
      WalkOn(rows, parent, n - 1);
    }
  }

  /** The walk meets exactly the children that may be seen, in their order. */
  lemma {:induction false} WalkMeetsChildren(rows: seq<Row>, parent: Iter, n: nat)
    requires AllValid(rows) && Visible(rows, parent)
    ensures var kids := rows[parent.row].Children(NodeOf(parent.node));
      Walk(rows, parent, n) == if n < |kids| then Some(Iter(parent.row, Some(kids[n]))) else None
  {
    WalkArrives(rows, parent, n);
    assert WalkedTo(rows, parent, n);
  }

  lemma PathAbove(t: Tree, missing: Option<nat>, n: nat, row: nat)
    requires t.Valid() && n in t.depth && n != 0 && Seen(t, missing, n)
    ensures n in t.parent && t.parent[n] in t.depth && Seen(t, missing, t.parent[n])
    ensures var above, below := [row] + PathTo(t, missing, t.parent[n]), [row] + PathTo(t, missing, n);
      |below| == |above| + 1 && above < below
    ensures t.parent[n] == 0 ==> [row] + PathTo(t, missing, t.parent[n]) == [row]
  {
    assert t.Hangs(n);
    assert Seen(t, missing, t.parent[n]);
    var above := PathTo(t, missing, t.parent[n]);
    assert PathTo(t, missing, n) == above + [IndexOf(Siblings(t, missing, n), n)];
    assert [row] + PathTo(t, missing, n) == ([row] + above) + [IndexOf(Siblings(t, missing, n), n)];
  }

  /** The parent of a node; that of a node below the root is the toplevel item. */
  function IterParent(rows: seq<Row>, child: Iter): (r: Option<Iter>)
    requires AllValid(rows) && Visible(rows, child)
    ensures child.node.None? ==> r == None
    ensures child.node.Some? ==>
      && r.Some? && Visible(rows, r.value) && r.value.row == child.row
      && |PathOf(rows, child)| == |PathOf(rows, r.value)| + 1 && PathOf(rows, r.value) < PathOf(rows, child)
  {
    if child.node.None? then None
    else
      var t := rows[child.row].browser.value;
      assert t.Hangs(child.node.value);
      PathAbove(t, rows[child.row].missing, child.node.value, child.row);
      Some(IterOf(child.row, t.GetParent(child.node.value).value))
  }

  function IterHasChild(rows: seq<Row>, iter: Iter): (r: bool)
    requires AllValid(rows) && Visible(rows, iter)
    ensures r <==> rows[iter.row].Children(NodeOf(iter.node)) != []
  {
    var row := rows[iter.row];
    if row.browser.None? || !row.open then false
    else
      var t, n := row.browser.value, NodeOf(iter.node);
      if row.missing == Some(n) || !t.Explored(n) then false
      else
        var child := t.GetChild(n);
        if child.None? then false
        else
          ChildrenSkip(t, row.missing, n);
          child != row.missing || t.GetNext(child.value).Some?
  }

  /** The number of children that may be seen. */
  method IterNChildren(rows: seq<Row>, iter: Option<Iter>) returns (n: nat)
    requires AllValid(rows)
    requires iter.Some? ==>
      Visible(rows, iter.value) && rows[iter.value.row].browser.Some? && rows[iter.value.row].open
    ensures n == if iter.None? then |rows| else |rows[iter.value.row].Children(NodeOf(iter.value.node))|
  {
    n := 0;
    if iter.None? {
      while n < |rows|
        invariant n <= |rows|
      {
        n := n + 1;
      }
    } else {
      var row, p := rows[iter.value.row], NodeOf(iter.value.node);
      var t := row.browser.value;
      if row.missing == Some(p) {
        return;
      }
      ghost var kids, i := t.Kids(p), 0;
      var cur := t.GetChild(p);
      while cur.Some?
        invariant i <= |kids| && cur == if i < |kids| then Some(kids[i]) else None
        invariant n == |Pruned(kids[..i], row.missing)|
        decreases |kids| - i
      {
        NextOf(t, p, i);
        PrunedOne(kids, row.missing, i);
        if cur != row.missing {
          n := n + 1;
        }
        cur := t.GetNext(cur.value);
        i := i + 1;
      }
      assert kids[..i] == kids;
    }
  }

  /** What is known after `i` steps towards the `n`-th child: every missing node met makes the way
      one step longer. */
  ghost predicate OnTheWay(kids: seq<nat>, missing: Option<nat>, n: nat, i: nat, left: nat) {
    && i < |kids| && i <= left && (missing == Some(kids[i]) ==> i < left)
    && left == n + if missing.Some? && missing.value in kids[..i + 1] then 1 else 0
  }

  /** The index `n` among the children that may be seen, counting the missing one if it is up to there. */
  ghost function AmongAll(kids: seq<nat>, missing: Option<nat>, n: nat): nat {
    n + if missing.Some? && missing.value in kids[..if n < |kids| then n + 1 else |kids|] then 1 else 0
  }

  lemma Started(kids: seq<nat>, missing: Option<nat>, n: nat)
    requires kids != []
    ensures OnTheWay(kids, missing, n, 0, if missing == Some(kids[0]) then n + 1 else n)
  {
    assert kids[..1] == [kids[0]];
  }

  lemma FurtherOn(kids: seq<nat>, missing: Option<nat>, n: nat, i: nat, left: nat)
    requires Distinct(kids) && OnTheWay(kids, missing, n, i, left) && i < left && i + 1 < |kids|
    ensures OnTheWay(kids, missing, n, i + 1, if missing == Some(kids[i + 1]) then left + 1 else left)
  {
    assert kids[..i + 2] == kids[..i + 1] + [kids[i + 1]];
    assert kids[i + 1] !in kids[..i + 1];
  }

  lemma Arrived(kids: seq<nat>, missing: Option<nat>, n: nat, i: nat, left: nat)
    requires Distinct(kids) && OnTheWay(kids, missing, n, i, left) && i == left
    ensures n < |Pruned(kids, missing)| && Pruned(kids, missing)[n] == kids[i] && left == AmongAll(kids, missing, n)
  {
    PrunedAt(kids, missing, i);
    assert kids[..i + 1] == kids[..i] + [kids[i]];
  }

  lemma RanOut(kids: seq<nat>, missing: Option<nat>, n: nat, i: nat, left: nat)
    requires Distinct(kids) && OnTheWay(kids, missing, n, i, left) && i < left && i + 1 == |kids|
    ensures n >= |Pruned(kids, missing)| && left == AmongAll(kids, missing, n) && left >= |kids|
  {
    PrunedLength(kids, missing);
    assert kids[..i + 1] == kids;
  }

  /** The `n`-th child that may be seen. */
  method IterNthChild(rows: seq<Row>, parent: Option<Iter>, n: nat) returns (r: Option<Iter>)
    requires AllValid(rows)
    requires parent.Some? ==>
      Visible(rows, parent.value) && rows[parent.value.row].browser.Some? && rows[parent.value.row].open
    ensures parent.None? ==> r == if n < |rows| then Some(Iter(n, None)) else None
    ensures parent.Some? ==>
      var kids := rows[parent.value.row].Children(NodeOf(parent.value.node));
      r == if n < |kids| then Some(Iter(parent.value.row, Some(kids[n]))) else None
  {
    if parent.None? {
      if |rows| == 0 {
        return None;
      }
      var cur, i := 0, 0;
      while i < n
        invariant i <= n && cur == i < |rows|
      {
        cur := cur + 1;
        if cur == |rows| {
          return None;
        }
        i := i + 1;
      }
      return Some(Iter(cur, None));
    }
    var row, p := rows[parent.value.row], NodeOf(parent.value.node);
    var t := row.browser.value;
    if row.missing == Some(p) || !t.Explored(p) {
      return None;
    }
    var cur := t.GetChild(p);
    if cur.None? {
      return None;
    }
    hide Tree.Valid, Tree.GetNext, Pruned, Distinct, OnTheWay, Seen;
    ghost var kids := t.Kids(p);
    KidsDistinct(t, p);
    var left := n;
    if cur == row.missing {
      left := left + 1;
    }
    Started(kids, row.missing, n);
    var i := 0;
    while i < left
      invariant i < |kids| && cur == Some(kids[i]) && i <= left
      invariant OnTheWay(kids, row.missing, n, i, left)
      decreases |kids| - i
    {
      NextOf(t, p, i);
      cur := t.GetNext(cur.value);
      if cur.None? {
        RanOut(kids, row.missing, n, i, left);
        return None;
      }
      FurtherOn(kids, row.missing, n, i, left);
      if cur == row.missing {
        left := left + 1;
      }
      i := i + 1;
    }
    Arrived(kids, row.missing, n, i, left);
    return Some(Iter(parent.value.row, cur));
  }

  // ---------- Paths ----------

  /** A list of indices. */
  class TreePath {
    var indices: seq<nat>

    constructor ()
      ensures indices == []
    {
      indices := [];
    }

    method AppendIndex(n: nat)
      modifies this
      ensures indices == old(indices) + [n]
    {
      indices := indices + [n];
    }
  }

  /** A path below `p`, with indices that count all children as far as there are such. */
  ghost function Rewritten(t: Tree, missing: Option<nat>, p: nat, path: seq<nat>): (r: seq<nat>)
    ensures |r| == |path|
    decreases |path|
  {
    if path == [] then []
    else
      var k := AmongAll(t.Kids(p), missing, path[0]);
      [k] + if k < |t.Kids(p)| then Rewritten(t, missing, t.Kids(p)[k], path[1..]) else path[1..]
  }

  /** One step down a path.  The index is rewritten when a missing node is met, so that afterwards it
      counts all the children. */
  method StepDown(t: Tree, missing: Option<nat>, p: nat, path: TreePath, n: nat) returns (r: Option<nat>)
    requires t.Valid() && n < |path.indices|
    modifies path
    ensures r == Descend(t, missing, p, [old(path.indices[n])])
    ensures path.indices == old(path.indices)[n := AmongAll(t.Kids(p), missing, old(path.indices[n]))]
    ensures r == if path.indices[n] < |t.Kids(p)| then Some(t.Kids(p)[path.indices[n]]) else None
    ensures r.Some? ==> r == Descend(t, None, p, [path.indices[n]])
  {
    ghost var was := path.indices;
    ghost var kids := t.Kids(p);
    OneDown(t, missing, p, was[n]);
    if !t.Explored(p) {
      return None;
    }
    r := t.GetChild(p);
    if r.None? {
      return None;
    }
    hide Tree.Valid, Tree.GetNext, Pruned, Distinct, OnTheWay, Descend;
    KidsDistinct(t, p);
    if r == missing {
      path.indices := path.indices[n := path.indices[n] + 1];
    }
    Started(kids, missing, was[n]);
    var i := 0;
    while i < path.indices[n]
      invariant i < |kids| && r == Some(kids[i])
      invariant |path.indices| == |was| && path.indices == was[n := path.indices[n]]
      invariant was[n] <= path.indices[n] && i <= path.indices[n]
      invariant OnTheWay(kids, missing, was[n], i, path.indices[n])
      decreases |kids| - i
    {
      NextOf(t, p, i);
      r := t.GetNext(r.value);
      if r.None? {
        RanOut(kids, missing, was[n], i, path.indices[n]);
        return None;
      }
      FurtherOn(kids, missing, was[n], i, path.indices[n]);
      if r == missing {
        path.indices := path.indices[n := path.indices[n] + 1];
      }
      i := i + 1;
    }
    Arrived(kids, missing, was[n], i, path.indices[n]);
    OneDown(t, None, p, i);
    PrunedNothing(kids);
  }

  /** The path goes on below an item with a browser. */
  ghost predicate Followed(rows: seq<Row>, path: seq<nat>) {
    |path| > 1 && path[0] < |rows| && rows[path[0]].browser.Some?
  }

  /** The place a path leads to.  The path is rewritten on the way: afterwards it leads to the same
      place in the tree in which nothing is pruned. */
  method GetIter(rows: seq<Row>, path: TreePath) returns (r: Option<Iter>)
    requires AllValid(rows)
    requires |path.indices| > 1 && path.indices[0] < |rows| && rows[path.indices[0]].browser.Some? ==>
      rows[path.indices[0]].open
    modifies path
    ensures r == Locate(rows, old(path.indices))
    ensures path.indices == if Followed(rows, old(path.indices))
      then old(path.indices)[..1] + Rewritten(rows[old(path.indices)[0]].browser.value,
                                              rows[old(path.indices)[0]].missing, 0, old(path.indices)[1..])
      else old(path.indices)
    ensures path.indices != [] ==> path.indices[0] == old(path.indices)[0]
    ensures |path.indices| <= 1 ==> path.indices == old(path.indices)
    ensures r.Some? && r.value.node.Some? ==>
      Descend(rows[r.value.row].browser.value, None, 0, path.indices[1..]) == r.value.node
  {
    ghost var was := path.indices;
    if |path.indices| == 0 {
      return None;
    }
    var i := 0;
    while i < |rows| && i < path.indices[0]
      invariant i <= |rows| && i <= path.indices[0]
    {
      i := i + 1;
    }
    if i == |rows| {
      return None;
    }
    if |path.indices| == 1 {
      return Some(Iter(i, None));
    }
    var row := rows[i];
    if row.browser.None? {
      return None;
    }
    var n := Below(row.browser.value, row.missing, path);
    return if n.Some? then Some(Iter(i, n)) else None;
  }

  method Below(t: Tree, missing: Option<nat>, path: TreePath) returns (r: Option<nat>)
    requires t.Valid() && |path.indices| > 1
    modifies path
    ensures r == Descend(t, missing, 0, old(path.indices)[1..])
    ensures path.indices == old(path.indices)[..1] + Rewritten(t, missing, 0, old(path.indices)[1..])
    ensures r.Some? ==> r == Descend(t, None, 0, path.indices[1..])
  {
    hide Tree.Valid, Descend;
    ghost var was := path.indices;
    StartOfPath(t, was);
    r := Some(0);
    var n := 1;
    while n < |path.indices|
      invariant 1 <= n <= |path.indices| == |was| && r.Some?
      invariant path.indices[n..] == was[n..] && path.indices[..1] == was[..1]
      invariant Rewritten(t, missing, 0, was[1..]) == path.indices[1..n] + Rewritten(t, missing, r.value, was[n..])
      invariant r == Descend(t, missing, 0, was[1..n])
      invariant r == Descend(t, None, 0, path.indices[1..n])
    {
      ghost var before := path.indices;
      ghost var at := r.value;
      assert path.indices[n] == path.indices[n..][0] == was[n..][0] == was[n];
      OnePastPrefix(t, missing, was, n);
      r := StepDown(t, missing, r.value, path, n);
      OtherIndices(before, path.indices, was, n);
      OneRewritten(t, missing, at, before, path.indices, was, n);
      if r.None? {
        return;
      }
      OnePastPrefix(t, None, path.indices, n);
      n := n + 1;
    }
    assert was[1..n] == was[1..] && path.indices[1..n] == path.indices[1..];
  }

  lemma StartOfPath(t: Tree, s: seq<nat>)
    requires |s| > 1
    ensures forall missing :: Descend(t, missing, 0, s[1..1]) == Some(0)
  {
  }

  /** Only one index is rewritten. */
  lemma OtherIndices(before: seq<nat>, now: seq<nat>, was: seq<nat>, n: nat)
    requires 1 <= n < |before| == |now| == |was| && now == before[n := now[n]]
    requires before[n..] == was[n..]
    ensures now[1..n] == before[1..n]
    ensures now[n + 1..] == was[n + 1..]
  {
    assert now[n + 1..] == before[n..][1..];
    assert was[n + 1..] == was[n..][1..];
  }

  lemma RewrittenOne(t: Tree, missing: Option<nat>, p: nat, was: seq<nat>, n: nat)
    requires n < |was|
    ensures var k := AmongAll(t.Kids(p), missing, was[n]);
      Rewritten(t, missing, p, was[n..]) ==
      [k] + if k < |t.Kids(p)| then Rewritten(t, missing, t.Kids(p)[k], was[n + 1..]) else was[n + 1..]
  {
    assert was[n..][1..] == was[n + 1..];
  }

  /** Rewriting one more index. */
  lemma OneRewritten(t: Tree, missing: Option<nat>, p: nat, before: seq<nat>, now: seq<nat>, was: seq<nat>, n: nat)
    requires 1 <= n < |before| == |now| == |was| && now == before[n := AmongAll(t.Kids(p), missing, was[n])]
    requires now[1..n] == before[1..n] && now[n + 1..] == was[n + 1..]
    ensures before[1..n] + Rewritten(t, missing, p, was[n..]) ==
      if now[n] < |t.Kids(p)| then now[1..n + 1] + Rewritten(t, missing, t.Kids(p)[now[n]], was[n + 1..])
      else now[1..]
  {
    hide Rewritten, AmongAll;
    RewrittenOne(t, missing, p, was, n);
    SpliceOne(now, n, now[n + 1..]);
    if now[n] < |t.Kids(p)| {
      SpliceOne(now, n, Rewritten(t, missing, t.Kids(p)[now[n]], was[n + 1..]));
    }
  }

  lemma SpliceOne(s: seq<nat>, n: nat, rest: seq<nat>)
    requires 1 <= n < |s|
    ensures s[1..n] + ([s[n]] + rest) == s[1..n + 1] + rest
    ensures s[1..n + 1] + s[n + 1..] == s[1..]
  {
  }

  /** Going on from the node reached on the first part of a path; a path that leads nowhere leads
      nowhere however it goes on. */
  lemma OnePastPrefix(t: Tree, missing: Option<nat>, s: seq<nat>, n: nat)
    requires 1 <= n < |s| && Descend(t, missing, 0, s[1..n]).Some?
    ensures Descend(t, missing, 0, s[1..n + 1]) ==
      Descend(t, missing, Descend(t, missing, 0, s[1..n]).value, [s[n]])
    ensures Descend(t, missing, Descend(t, missing, 0, s[1..n]).value, [s[n]]).None? ==>
      Descend(t, missing, 0, s[1..]).None?
  {
    assert s[1..n + 1] == s[1..n] + [s[n]];
    DescendJoin(t, missing, 0, s[1..n], [s[n]]);
    assert s[1..] == s[1..n + 1] + s[n + 1..];
    DescendJoin(t, missing, 0, s[1..n + 1], s[n + 1..]);
  }

  /** The child at `i` is seen, `k` seen ones are before it. */
  ghost predicate Counted(kids: seq<nat>, missing: Option<nat>, i: nat, k: nat) {
    i < |kids| && missing != Some(kids[i]) && |Pruned(kids[..i], missing)| == k
  }

  lemma CountStart(kids: seq<nat>, missing: Option<nat>, j: nat)
    requires Distinct(kids) && j < |kids| && missing != Some(kids[j])
    ensures if missing == Some(kids[0]) then 0 < j && Counted(kids, missing, 1, 0) else Counted(kids, missing, 0, 0)
  {
    if missing == Some(kids[0]) {
      PrunedOne(kids, missing, 0);
      assert kids[0] != kids[1];
    }
  }

  lemma CountStep(kids: seq<nat>, missing: Option<nat>, i: nat, k: nat, j: nat)
    requires Distinct(kids) && i < j < |kids| && missing != Some(kids[j]) && Counted(kids, missing, i, k)
    ensures if missing == Some(kids[i + 1]) then i + 1 < j && Counted(kids, missing, i + 2, k + 1)
      else Counted(kids, missing, i + 1, k + 1)
  {
    PrunedOne(kids, missing, i);
    if missing == Some(kids[i + 1]) {
      PrunedOne(kids, missing, i + 1);
      assert kids[i + 1] != kids[i + 2];
    }
  }

  lemma CountEnd(kids: seq<nat>, missing: Option<nat>, i: nat, k: nat)
    requires Distinct(kids) && Counted(kids, missing, i, k)
    ensures IndexOf(Pruned(kids, missing), kids[i]) == k
  {
    PrunedAround(kids, missing, i);
    PrunedDistinct(kids, missing);
    IndexAt(Pruned(kids, missing), k);
  }

  /** The place of a node among its siblings, by steps from one that may be seen to the next. */
  method CountSiblings(t: Tree, missing: Option<nat>, p: nat, n: nat) returns (k: nat)
    requires t.Valid() && n in t.Kids(p) && missing != Some(n)
    ensures k == IndexOf(Pruned(t.Kids(p), missing), n)
  {
    hide Tree.Valid, Tree.GetNext, Distinct, Pruned, Counted;
    KidsDistinct(t, p);
    ghost var kids := t.Kids(p);
    ghost var j := IndexOf(kids, n);
    ghost var i := 0;
    var cur := t.GetChild(p);
    CountStart(kids, missing, j);
    if cur == missing {
      NextOf(t, p, 0);
      cur := t.GetNext(cur.value);
      i := 1;
    }
    k := 0;
    while cur.value != n
      invariant i <= j && cur == Some(kids[i]) && Counted(kids, missing, i, k)
      decreases j - i
    {
      CountStep(kids, missing, i, k, j);
      NextOf(t, p, i);
      cur := t.GetNext(cur.value);
      i := i + 1;
      if cur == missing {
        NextOf(t, p, i);
        cur := t.GetNext(cur.value);
        i := i + 1;
      }
      k := k + 1;
    }
    CountEnd(kids, missing, i, k);
  }

  /** Appends the path of a node: first that of its parent, then its own place. */
  method GetPathImpl(t: Tree, missing: Option<nat>, row: nat, n: nat, path: TreePath)
    requires t.Valid() && n in t.depth && Seen(t, missing, n)
    modifies path
    ensures path.indices == old(path.indices) + [row] + PathTo(t, missing, n)
    decreases t.depth[n]
  {
    var parent := t.GetParent(n);
    if parent.None? {
      assert n == 0 || t.Hangs(n);
      path.AppendIndex(row);
    } else {
      PathAbove(t, missing, n, row);
      assert t.Hangs(n);
      GetPathImpl(t, missing, row, parent.value, path);
      var k := CountSiblings(t, missing, parent.value, n);
      path.AppendIndex(k);
    }
  }

  method GetPath(rows: seq<Row>, iter: Iter) returns (path: TreePath)
    requires AllValid(rows) && Visible(rows, iter)
    ensures fresh(path) && path.indices == PathOf(rows, iter)
  {
    path := new TreePath();
    if iter.node.Some? {
      GetPathImpl(rows[iter.row].browser.value, rows[iter.row].missing, iter.row, iter.node.value, path);
    } else {
      path.AppendIndex(iter.row);
    }
  }
}
