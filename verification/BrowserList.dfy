/** `InfGtkBrowserStore`: the linked list of toplevel items, the status of each item, and the row
    signals with which the store keeps a view informed. */
module BrowserStore {
  import opened Options

  datatype BrowserStatus = Closed | Opening | Open

  datatype ItemStatus = Invalid | Discovered | Resolving | Disconnected | Connecting | Connected | Error

  /** A directory browser.  Only the browser of a remote directory has a connection. */
  class Browser {
    const connection: Option<nat>
    var status: BrowserStatus

    constructor (connection: Option<nat>, status: BrowserStatus)
      ensures this.connection == connection && this.status == status
    {
      this.connection := connection;
      this.status := status;
    }
  }

  function StatusOf(status: BrowserStatus): (s: ItemStatus)
    ensures s == Disconnected <==> status == Closed
    ensures s == Connecting <==> status == Opening
    ensures s == Connected <==> status == Open
  {
    match status
    case Closed => Disconnected
    case Opening => Connecting
    case Open => Connected
  }

  class Item {
    var info: Option<nat>  // what was discovered, if the item comes from a discovery
    var browser: Browser?
    var status: ItemStatus
    var error: Option<string>
    var next: Item?

    constructor (info: Option<nat>)
      ensures this.info == info && browser == null && error == None && next == null
      ensures status == if info.Some? then Discovered else Disconnected
    {
      this.info := info;
      browser := null;
      status := if info.Some? then Discovered else Disconnected;
      error := None;
      next := null;
    }

    /** What holds of every listed item: an error status comes with an error; without a browser the
        item stands for a discovery or is dead; with one, the status is that of the browser unless
        there is an error. */
    ghost predicate Consistent()
      reads this, browser
    {
      && (status == Error ==> error.Some?)
      && (browser == null ==> status in {Invalid, Discovered, Resolving, Error})
      && (browser == null && info == None ==> status in {Invalid, Error})
      && (browser != null && status != Error ==> status == StatusOf(browser.status))
    }
  }

  // ---------- Signals ----------

  datatype RowEvent =
    | RowInserted(index: nat, item: Item)
    | RowDeleted(index: nat)
    | RowsReordered(order: seq<int>)

  /** What a view that had `v` shows after a signal. */
  ghost function Shown(v: seq<Item>, event: RowEvent): seq<Item> {
    match event
    case RowInserted(index, item) => if index <= |v| then v[..index] + [item] + v[index..] else v
    case RowDeleted(index) => if index < |v| then RemoveAt(v, index) else v
    case RowsReordered(order) => if Permutation(order, |v|) then Permuted(v, order) else v
  }

  /** What a view shows that has received the signals from the beginning. */
  ghost function Mirror(events: seq<RowEvent>): seq<Item> {
    if events == [] then [] else Shown(Mirror(events[..|events| - 1]), events[|events| - 1])
  }

  lemma MirrorNext(events: seq<RowEvent>, event: RowEvent)
    ensures Mirror(events + [event]) == Shown(Mirror(events), event)
  {
    assert (events + [event])[..|events|] == events;
  }

  // ---------- Sequences ----------

  ghost function RemoveAt<T>(s: seq<T>, i: nat): (r: seq<T>)
    requires i < |s|
    ensures |r| == |s| - 1
  {
    s[..i] + s[i + 1..]
  }

  /** Element `o` moved to position `n` of the result. */
  ghost function Move<T>(s: seq<T>, o: nat, n: nat): (r: seq<T>)
    requires o < |s| && n < |s|
    ensures |r| == |s|
  {
    var t := RemoveAt(s, o);
    t[..n] + [s[o]] + t[n..]
  }

  /** `order` is a permutation of the numbers below `n`. */
  ghost predicate Permutation(order: seq<int>, n: nat) {
    && |order| == n
    && (forall i :: 0 <= i < n ==> 0 <= order[i] < n)
    && (forall i, j :: 0 <= i < j < n ==> order[i] != order[j])
  }

  ghost function Permuted<T>(s: seq<T>, order: seq<int>): (r: seq<T>)
    requires Permutation(order, |s|)
    ensures |r| == |s| && forall i :: 0 <= i < |s| ==> r[i] == s[order[i]]
  {
    seq(|s|, i requires 0 <= i < |s| => s[order[i]])
  }

  /** Where the element at `i` comes from when `o` is moved to `n`. */
  function Source(o: int, n: int, i: int): int {
    if i == n then o
    else if n < i <= o then i - 1
    else if o <= i < n then i + 1
    else i
  }

  /** Where the element at `i` comes from when `o` is removed. */
  function Skipping(o: nat, i: nat): nat {
    if i < o then i else i + 1
  }

  lemma RemovedAt<T>(s: seq<T>, o: nat)
    requires o < |s|
    ensures forall i :: 0 <= i < |s| - 1 ==> RemoveAt(s, o)[i] == s[Skipping(o, i)]
  {
  }

  lemma RemovedMembers<T>(s: seq<T>, o: nat)
    requires o < |s|
    ensures forall x :: x in RemoveAt(s, o) ==> x in s
  {
  }

  lemma MovedAt<T>(s: seq<T>, o: nat, n: nat)
    requires o < |s| && n < |s|
    ensures forall i :: 0 <= i < |s| ==> 0 <= Source(o, n, i) < |s| && Move(s, o, n)[i] == s[Source(o, n, i)]
  {
    RemovedAt(s, o);
  }

  lemma SourcesArePermutation<T>(s: seq<T>, o: nat, n: nat, order: seq<int>)
    requires o < |s| && n < |s| && |order| == |s|
    requires forall i :: 0 <= i < |s| ==> order[i] == Source(o, n, i)
    ensures Permutation(order, |s|) && Permuted(s, order) == Move(s, o, n)
  {
    MovedAt(s, o, n);
  }

  lemma MoveMembers<T>(s: seq<T>, o: nat, n: nat)
    requires o < |s| && n < |s|
    ensures forall x :: x in Move(s, o, n) ==> x in s
  {
  }

  /** A view that is told of a new row shows it at that place, in front of the row that was there. */
  lemma MirrorInserts(events: seq<RowEvent>, n: nat, item: Item)
    requires n <= |Mirror(events)|
    ensures Mirror(events + [RowInserted(n, item)]) == Mirror(events)[..n] + [item] + Mirror(events)[n..]
  {
    MirrorNext(events, RowInserted(n, item));
  }

  /** A view that is told of a deleted row no longer shows this row, and all others as before. */
  lemma MirrorDeletes(events: seq<RowEvent>, n: nat)
    requires n < |Mirror(events)|
    ensures Mirror(events + [RowDeleted(n)]) == RemoveAt(Mirror(events), n)
      == Mirror(events)[..n] + Mirror(events)[n + 1..]
  {
    MirrorNext(events, RowDeleted(n));
  }

  /** A view that permutes its rows by the published order moves the row. */
  lemma MirrorMoves(events: seq<RowEvent>, s: seq<Item>, o: nat, n: nat, order: seq<int>)
    requires Mirror(events) == s && o < |s| && n < |s| && |order| == |s|
    requires forall i :: 0 <= i < |s| ==> order[i] == Source(o, n, i)
    ensures Mirror(events + [RowsReordered(order)]) == Move(s, o, n)
    ensures Permutation(order, |s|) && Permuted(s, order) == Move(s, o, n)
  {
    hide Mirror, Move;
    SourcesArePermutation(s, o, n, order);
    MirrorNext(events, RowsReordered(order));
  }

  /** `s` without element `np`, and element `op` in its place. */
  ghost function PutInPlaceOf<T>(s: seq<T>, op: nat, np: nat): seq<T>
    requires op < |s| && np < |s| && op != np
  {
    RemoveAt(s, op)[(if op < np then np - 1 else np) := s[op]]
  }

  /** Removing the element at `np` and moving the one that was at `op`. */
  lemma RemoveAndMove<T>(s: seq<T>, op: nat, np: nat)
    requires op < |s| && np < |s| && op != np
    ensures var o := if op > np then op - 1 else op; var n := if op > np then np else np - 1;
      && o < |s| - 1 && n < |s| - 1
      && RemoveAt(s, np)[o] == s[op]
      && Move(RemoveAt(s, np), o, n) == PutInPlaceOf(s, op, np)
      && (o == n ==> RemoveAt(s, np) == PutInPlaceOf(s, op, np))
  {
    hide RemoveAt, Move;
    var o := if op > np then op - 1 else op;
    var n := if op > np then np else np - 1;
    var t, m, p := RemoveAt(s, np), Move(RemoveAt(s, np), o, n), PutInPlaceOf(s, op, np);
    RemovedAt(s, np);
    RemovedAt(s, op);
    MovedAt(t, o, n);
    forall i | 0 <= i < |t| ensures m[i] == p[i] {
      assert Skipping(np, Source(o, n, i)) == if i == n then op else Skipping(op, i);
    }
    assert m == p;
    if o == n {
      forall i | 0 <= i < |t| ensures t[i] == m[i] {
        assert Source(o, n, i) == i;
      }
      assert t == m;
    }
  }

  /** The elements in front of the two places, which are not neighbours, are those found before the removal. */
  lemma StillInFront<T>(s: seq<T>, op: nat, np: nat)
    requires op < |s| && np < |s| && op != np && op != np + 1 && np != op + 1
    ensures var o := if op > np then op - 1 else op; var n := if op > np then np else np - 1;
      && o < |s| - 1 && n < |s| - 1 && o != n
      && (o > 0 <==> op > 0) && (n > 0 <==> np > 0)
      && (o > 0 ==> RemoveAt(s, np)[o - 1] == s[op - 1])
      && (n > 0 ==> RemoveAt(RemoveAt(s, np), o)[n - 1] == s[np - 1])
  {
  }

  // ---------- The list ----------

  ghost predicate Linked(items: seq<Item>, first: Item?, last: Item?)
    reads items`next
  {
    && first == (if items == [] then null else items[0])
    && last == (if items == [] then null else items[|items| - 1])
    && (forall i {:trigger items[i].next} :: 0 <= i < |items| ==>
          items[i].next == if i + 1 < |items| then items[i + 1] else null)
    && (forall i, j :: 0 <= i < j < |items| ==> items[i] != items[j])
  }

  ghost function BrowsersOf(items: seq<Item>): set<object>
    reads items`browser
  {
    set x | x in items && x.browser != null :: x.browser
  }

  /** No two items have the same browser. */
  ghost predicate Unshared(items: seq<Item>)
    reads items`browser
  {
    forall x, y :: x in items && y in items && x != y && x.browser != null ==> x.browser != y.browser
  }

  lemma UnsharedWithin(items: seq<Item>, rest: seq<Item>)
    requires Unshared(items) && forall x :: x in rest ==> x in items
    ensures Unshared(rest)
  {
  }

  class Store {
    var firstItem: Item?
    var lastItem: Item?
    ghost var items: seq<Item>
    ghost var signals: seq<RowEvent>

    ghost predicate ValidList()
      reads this, items
    {
      && Linked(items, firstItem, lastItem)
      && Unshared(items)
      && Mirror(signals) == items
    }

    ghost predicate Valid()
      reads this, items, BrowsersOf(items)
    {
      && ValidList()
      && forall x :: x in items ==> x.Consistent()
    }

    constructor ()
      ensures Valid() && items == [] && signals == []
    {
      firstItem := null;
      lastItem := null;
      items := [];
      signals := [];
    }

    // ---------- Lookup ----------

    method FindItemByConnection(connection: nat) returns (item: Item?)
      requires ValidList()
      ensures item == null ==> forall x :: x in items ==>
        x.browser == null || x.browser.connection != Some(connection)
      ensures item != null ==> item in items && item.browser != null && item.browser.connection == Some(connection)
      ensures item != null ==> exists k :: 0 <= k < |items| && items[k] == item && forall i :: 0 <= i < k ==>
        items[i].browser == null || items[i].browser.connection != Some(connection)
    {
      item := firstItem;
      ghost var k := 0;
      while item != null
        invariant 0 <= k <= |items| && item == if k < |items| then items[k] else null
        invariant forall i :: 0 <= i < k ==>
          items[i].browser == null || items[i].browser.connection != Some(connection)
        decreases |items| - k
      {
        if item.browser != null && item.browser.connection == Some(connection) {
          return;
        }
        item := item.next;
        k := k + 1;
      }
    }

    method FindItemByBrowser(browser: Browser) returns (item: Item?)
      requires ValidList()
      ensures item == null ==> forall x :: x in items ==> x.browser != browser
      ensures item != null ==> item in items && item.browser == browser
    {
      item := firstItem;
      ghost var k := 0;
      while item != null
        invariant 0 <= k <= |items| && item == if k < |items| then items[k] else null
        invariant forall i :: 0 <= i < k ==> items[i].browser != browser
        decreases |items| - k
      {
        if item.browser == browser {
          return;
        }
        item := item.next;
        k := k + 1;
      }
    }

    method FindItemByInfo(info: nat) returns (item: Item?)
      requires ValidList()
      ensures item == null ==> forall x :: x in items ==> x.info != Some(info)
      ensures item != null ==> item in items && item.info == Some(info)
      ensures item != null ==> exists k :: 0 <= k < |items| && items[k] == item && forall i :: 0 <= i < k ==>
        items[i].info != Some(info)
    {
      item := firstItem;
      ghost var k := 0;
      while item != null
        invariant 0 <= k <= |items| && item == if k < |items| then items[k] else null
        invariant forall i :: 0 <= i < k ==> items[i].info != Some(info)
        decreases |items| - k
      {
        if item.info == Some(info) {
          return;
        }
        item := item.next;
        k := k + 1;
      }
    }

    // ---------- The item status ----------

    /** Gives the item another browser, or none, and adapts its status.  The assertions are those of
        the program. */
    method SetBrowser(item: Item, browser: Browser?)
      requires item.status == Error ==> item.error.Some?
      modifies item`browser, item`status, item`error
      ensures item.browser == browser && item.Consistent()
      ensures item.status ==
        if old(item.status) == Error then Error
        else if browser != null then StatusOf(browser.status)
        else if item.info == None then Invalid
        else Discovered
      ensures old(item.status) != Error && browser != null ==>
        && (browser.status == Closed ==> item.status == Disconnected)
        && (browser.status == Opening ==> item.status == Connecting)
        && (browser.status == Open ==> item.status == Connected)
      ensures item.error == if item.status == Invalid then None else old(item.error)
    {
      item.browser := browser;
      if item.browser == null && item.info == None && (item.error == None || item.status != Error) {
        assert item.status != Error;
        item.error := None;
        item.status := Invalid;
      } else if item.status != Error {
        if item.browser != null {
          item.status := StatusOf(item.browser.status);
        } else {
          assert item.info != None;
          item.status := Discovered;
        }
      } else {
        assert item.error != None;
      }
    }

    // ---------- Adding and removing ----------

    /** Links an item that is not listed yet behind the last one. */
    method Append(item: Item)
      requires Linked(items, firstItem, lastItem) && item !in items && item.next == null
      modifies this`firstItem, this`lastItem, this`items, items`next
      ensures items == old(items) + [item] && Linked(items, firstItem, lastItem)
    {
      if firstItem == null {
        firstItem := item;
        lastItem := item;
      } else {
        lastItem.next := item;
        lastItem := item;
      }
      items := items + [item];
    }

    /** Takes the item at `index`, behind `prev`, out of the list. */
    method Unlink(item: Item, prev: Item?, ghost index: nat)
      requires Linked(items, firstItem, lastItem) && index < |items| && items[index] == item
      requires prev == if index > 0 then items[index - 1] else null
      modifies this`firstItem, this`lastItem, this`items, items`next
      ensures items == RemoveAt(old(items), index) && item !in items && Linked(items, firstItem, lastItem)
      ensures item.next == old(item.next) && item !in items
    {
      ghost var was := items;
      if prev == null {
        firstItem := item.next;
      } else {
        prev.next := item.next;
      }
      if item.next == null {
        lastItem := prev;
      }
      hide RemoveAt;
      items := RemoveAt(was, index);
      RemovedAt(was, index);
      forall i | 0 <= i < |items|
        ensures items[i].next == if i + 1 < |items| then items[i + 1] else null
      {
        assert items[i] == was[Skipping(index, i)];
      }
    }

    /** The number of toplevel items. */
    method CountItems() returns (n: nat)
      requires Linked(items, firstItem, lastItem)
      ensures n == |items|
    {
      n := 0;
      var cur := firstItem;
      while cur != null
        invariant 0 <= n <= |items| && cur == if n < |items| then items[n] else null
        decreases |items| - n
      {
        n := n + 1;
        cur := cur.next;
      }
    }

    /** The position of an item, and the item before it. */
    method Locate(item: Item) returns (index: nat, prev: Item?)
      requires Linked(items, firstItem, lastItem) && item in items
      ensures index < |items| && items[index] == item && item !in items[..index] && item !in items[index + 1..]
      ensures prev == if index > 0 then items[index - 1] else null
    {
      prev := null;
      index := 0;
      var cur := firstItem;
      while cur != null && cur != item
        invariant 0 <= index <= |items| && cur == if index < |items| then items[index] else null
        invariant prev == if index > 0 then items[index - 1] else null
        invariant item !in items[..index]
        decreases |items| - index
      {
        prev := cur;
        index := index + 1;
        cur := cur.next;
      }
      assert cur != null;
    }

    /** Appends an item and tells the view. */
    method AppendRow(item: Item)
      requires Linked(items, firstItem, lastItem) && item !in items && item.next == null
      requires Mirror(signals) == items
      modifies this, items`next
      ensures items == old(items) + [item] && Linked(items, firstItem, lastItem)
      ensures Mirror(signals) == items && signals == old(signals) + [RowInserted(|old(items)|, item)]
    {
      hide Linked, Mirror;
      var index := CountItems();
      Append(item);
      MirrorInserts(signals, index, item);
      signals := signals + [RowInserted(index, item)];
    }

    /** Appends an item and, if there is one, gives it its browser. */
    method AddItem(info: Option<nat>, browser: Browser?) returns (item: Item)
      requires Valid() && (info.Some? || browser != null)
      requires browser != null ==> forall x :: x in items ==> x.browser != browser
      modifies this, items`next
      ensures Valid() && fresh(item) && items == old(items) + [item]
      ensures signals == old(signals) + [RowInserted(|old(items)|, item)]
      ensures item.info == info && item.browser == browser && item.error == None
      ensures item.status == if browser != null then StatusOf(browser.status) else Discovered
    {
      hide Linked, Mirror;
      item := new Item(info);
      AppendRow(item);
      if browser != null {
        SetBrowser(item, browser);
      }
    }

    /** Unlinks an item after its browser has been unset. */
    method RemoveItem(item: Item) returns (ghost index: nat)
      requires Valid() && item in items
      modifies this, items`next, item`browser, item`status, item`error
      ensures Valid()
      ensures index < |old(items)| && items == RemoveAt(old(items), index)
      ensures forall i :: 0 <= i < |old(items)| && old(items)[i] == item <==> i == index
      ensures signals == old(signals) + [RowDeleted(index)]
      ensures item.browser == null && (old(item.browser) == null ==> unchanged(item`status, item`error))
      ensures item.next == old(item.next) && item !in items
    {
      hide Linked, Mirror, RemoveAt;
      ghost var was := items;
      var n, prev := Locate(item);
      index := n;
      if item.browser != null {
        SetBrowser(item, null);
        assert item.browser == null;
      }
      assert Unshared(items);
      hide Unshared;
      Unlink(item, prev, n);
      MirrorDeletes(signals, n);
      signals := signals + [RowDeleted(n)];
      RemovedMembers(was, n);
      assert forall x :: x in items ==> x in was && x != item;
      UnsharedWithin(was, items);
    }

    // ---------- Reordering ----------

    /** Links an item behind `prev`, at position `n`. */
    method LinkBehind(item: Item, prev: Item, ghost n: nat)
      requires Linked(items, firstItem, lastItem) && item !in items
      requires 0 < n <= |items| && items[n - 1] == prev
      modifies this`lastItem, this`items, items`next, item`next
      ensures items == old(items)[..n] + [item] + old(items)[n..]
      ensures Linked(items, firstItem, lastItem)
    {
      ghost var was := items;
      item.next := prev.next;
      prev.next := item;
      if item.next == null {
        lastItem := item;
      }
      items := was[..n] + [item] + was[n..];
      forall i | 0 <= i < |items|
        ensures items[i].next == if i + 1 < |items| then items[i + 1] else null
      {
        assert items[i] == if i < n then was[i] else if i == n then item else was[i - 1];
      }
    }

    /** Moves an item to position `n`, behind `prevNew`.  The program reads a field of `prevNew`
        before it looks whether there is such an item, so that it crashes if there is none. */
    method MoveItem(oldItem: Item, prevOld: Item?, prevNew: Item?, ghost o: nat, ghost n: nat)
      returns (crash: bool)
      requires Linked(items, firstItem, lastItem)
      requires o < |items| && n < |items| && o != n && items[o] == oldItem
      requires prevOld == if o > 0 then items[o - 1] else null
      requires prevNew == if n > 0 then RemoveAt(items, o)[n - 1] else null
      modifies this`firstItem, this`lastItem, this`items, items`next
      ensures crash <==> n == 0
      ensures !crash ==> items == Move(old(items), o, n) && Linked(items, firstItem, lastItem)
    {
      hide Linked;
      Unlink(oldItem, prevOld, o);
      if prevNew == null {
        return true;
      }
      LinkBehind(oldItem, prevNew, n);
      return false;
    }

    /** The permutation that is published when an item moves. */
    method ComputeOrder(count: nat, oldPos: nat, newPos: nat) returns (order: array<int>)
      requires oldPos < count && newPos < count && oldPos != newPos
      ensures fresh(order) && order.Length == count
      ensures forall i :: 0 <= i < count ==> order[i] == Source(oldPos, newPos, i)
    {
      order := new int[count];
      if newPos < oldPos {
        for i := 0 to newPos
          invariant forall k :: 0 <= k < i ==> order[k] == k
        {
          order[i] := i;
        }
        order[newPos] := oldPos;
        for i := newPos + 1 to oldPos + 1
          invariant forall k :: 0 <= k < i ==> order[k] == Source(oldPos, newPos, k)
        {
          order[i] := i - 1;
        }
        for i := oldPos + 1 to count
          invariant forall k :: 0 <= k < i ==> order[k] == Source(oldPos, newPos, k)
        {
          order[i] := i;
        }
      } else {
        for i := 0 to oldPos
          invariant forall k :: 0 <= k < i ==> order[k] == k
        {
          order[i] := i;
        }
        for i := oldPos to newPos
          invariant forall k :: 0 <= k < i ==> order[k] == Source(oldPos, newPos, k)
        {
          order[i] := i + 1;
        }
        order[newPos] := oldPos;
        for i := newPos + 1 to count
          invariant forall k :: 0 <= k < i ==> order[k] == Source(oldPos, newPos, k)
        {
          order[i] := i;
        }
      }
    }

    /** Moves an item and publishes the permutation. */
    method Reposition(oldItem: Item, prevOld: Item?, prevNew: Item?, oldPos: nat, newPos: nat, count: nat)
      returns (crash: bool, ghost order: seq<int>)
      requires Valid() && count == |items|
      requires oldPos < count && newPos < count && oldPos != newPos && items[oldPos] == oldItem
      requires prevOld == if oldPos > 0 then items[oldPos - 1] else null
      requires prevNew == if newPos > 0 then RemoveAt(items, oldPos)[newPos - 1] else null
      modifies this, items`next
      ensures crash <==> newPos == 0
      ensures !crash ==> Valid() && items == Move(old(items), oldPos, newPos)
      ensures signals == old(signals) + if crash then [] else [RowsReordered(order)]
      ensures !crash ==> Permutation(order, count) && Permuted(old(items), order) == items
    {
      hide Linked, Mirror, Move, RemoveAt, Permutation, Permuted;
      ghost var rest := items;
      order := [];
      crash := MoveItem(oldItem, prevOld, prevNew, oldPos, newPos);
      if !crash {
        var published := ComputeOrder(count, oldPos, newPos);
        order := published[..];
        MirrorMoves(signals, rest, oldPos, newPos, order);
        signals := signals + [RowsReordered(order)];
        MoveMembers(rest, oldPos, newPos);
      }
    }

    /** The view is told of the removal and, unless the items were neighbours or the program crashes, of the
        order that puts `oldItem` in place. */
    ghost predicate Merged(was: seq<Item>, told: seq<RowEvent>, np: nat, op: nat, crash: bool, order: seq<int>)
      reads this
      requires np < |was| && op < |was| && op != np
    {
      var still := crash || op == np + 1 || np == op + 1;
      && signals == told + [RowDeleted(np)] + (if still then [] else [RowsReordered(order)])
      && (!still ==> Permutation(order, |was| - 1) && Permuted(RemoveAt(was, np), order) == items)
    }

    /** Removes `newItem` and puts `oldItem` in its place.  This fails exactly if `newItem` is the
        first item and `oldItem` is not the one behind it. */
    method MergeItems(newItem: Item, oldItem: Item)
      returns (crash: bool, ghost np: nat, ghost op: nat, ghost order: seq<int>)
      requires Valid() && newItem in items && oldItem in items && newItem != oldItem
      requires newItem.browser == null
      modifies this, items`next, newItem`browser, newItem`status, newItem`error
      ensures np < |old(items)| && old(items)[np] == newItem
      ensures op < |old(items)| && old(items)[op] == oldItem
      ensures crash <==> np == 0 && op != 1
      ensures !crash ==> Valid() && items == PutInPlaceOf(old(items), op, np)
      ensures Merged(old(items), old(signals), np, op, crash, order)
    {
      hide Linked, Mirror, Unshared, Move, PutInPlaceOf, RemoveAt, Permutation, Permuted;
      order := [];
      ghost var was := items;
      var count := CountItems();
      var oldPos, prevOld := Locate(oldItem);
      var newPos, prevNew := Locate(newItem);
      op, np := oldPos, newPos;
      ghost var index := RemoveItem(newItem);
      RemovedMembers(was, np);
      assert index == np;
      assert forall i :: 0 <= i < |items| ==> items[i] in was;
      if oldPos > newPos {
        oldPos := oldPos - 1;
      } else {
        newPos := newPos - 1;
      }
      count := count - 1;
      RemoveAndMove(was, op, np);
      crash := false;
      if newPos != oldPos {
        StillInFront(was, op, np);
        crash, order := Reposition(oldItem, prevOld, prevNew, oldPos, newPos, count);
      }
    }

    // ---------- Events ----------

    method OnDiscovered(info: nat) returns (item: Item)
      requires Valid()
      modifies this, items`next
      ensures Valid() && fresh(item) && items == old(items) + [item]
      ensures signals == old(signals) + [RowInserted(|old(items)|, item)]
      ensures item.info == Some(info) && item.browser == null && item.status == Discovered
    {
      item := AddItem(Some(info), null);
    }

    /** A discovery that vanishes takes its item along unless there is a browser. */
    method OnUndiscovered(info: nat) returns (item: Item?, ghost index: nat)
      requires Valid()
      modifies this, items`next, items`info, items`browser, items`status, items`error
      ensures Valid()
      ensures forall x :: x in old(items) && x != item ==> unchanged(x`info, x`browser, x`status, x`error)
      ensures item == null ==> items == old(items) && forall x :: x in items ==> x.info != Some(info)
      ensures item != null ==> item in old(items) && old(item.info) == Some(info)
      ensures item != null && old(item.browser) == null ==>
        && index < |old(items)| && old(items)[index] == item && items == RemoveAt(old(items), index)
        && signals == old(signals) + [RowDeleted(index)]
      ensures item == null || old(item.browser) != null ==> signals == old(signals)
      ensures item != null && old(item.browser) != null ==>
        items == old(items) && item.info == None && unchanged(item`browser, item`status, item`error)
    {
      hide Linked, Mirror;
      index := 0;
      item := FindItemByInfo(info);
      if item != null {
        if item.browser == null {
          index := RemoveItem(item);
        } else {
          assert item.status != Discovered && item.status != Resolving;
          item.info := None;
        }
      }
    }

    /** An error of a browser replaces the stored one, without a change of status. */
    method OnBrowserError(browser: Browser, error: string) returns (item: Item)
      requires Valid() && exists x :: x in items && x.browser == browser
      modifies items`error
      ensures Valid() && item in items && item.browser == browser && item.error == Some(error)
      ensures forall x :: x in items && x != item ==> x.error == old(x.error)
    {
      hide Linked, Mirror;
      var found := FindItemByBrowser(browser);
      assert found != null;
      item := found;
      item.error := Some(error);
    }

    /** A browser changes its status. */
    method OnBrowserStatus(browser: Browser, status: BrowserStatus) returns (item: Item)
      requires Valid() && exists x :: x in items && x.browser == browser
      modifies browser`status, items`status, items`error
      ensures Valid() && item in items && item.browser == browser && browser.status == status
      ensures item.status == if status == Closed then Error else StatusOf(status)
      ensures item.error == if status != Closed then None
        else if old(item.error).Some? then old(item.error) else Some("Disconnected")
      ensures forall x :: x in items && x != item ==> x.status == old(x.status) && x.error == old(x.error)
    {
      hide Linked, Mirror;
      var found := FindItemByBrowser(browser);
      assert found != null;
      item := found;
      browser.status := status;
      match status {
        case Closed =>
          item.status := Error;
          if item.error == None {
            item.error := Some("Disconnected");
          }
        case Opening =>
          item.error := None;
          item.status := Connecting;
        case Open =>
          item.error := None;
          item.status := Connected;
      }
    }

    /** Begins to resolve a discovery. */
    method Resolve(info: nat) returns (item: Item)
      requires Valid() && exists x :: x in items && x.info == Some(info)
      requires forall x :: x in items && x.info == Some(info) ==>
        x.browser == null && (x.status == Discovered || x.status == Error)
      modifies items`status, items`error
      ensures Valid() && item in items && item.info == Some(info)
      ensures item.status == Resolving
      ensures item.error == if old(item.status) == Error then None else old(item.error)
      ensures forall x :: x in items && x != item ==> x.status == old(x.status) && x.error == old(x.error)
    {
      hide Linked, Mirror;
      var found := FindItemByInfo(info);
      assert found != null;
      item := found;
      if item.status == Error {
        assert item.error != None;
        item.error := None;
        item.status := Resolving;
      } else {
        item.status := Resolving;
      }
    }

    /** A resolution ends: with an error, with a connection that is listed already, or with a new one.
        `accepted` says whether a browser can be made for the connection, and `status` is the status
        that it has then. */
    method OnResolved(info: nat, connection: nat, error: Option<string>, accepted: bool, status: BrowserStatus)
      returns (crash: bool, newItem: Item, oldItem: Item?, ghost np: nat, ghost op: nat, ghost order: seq<int>)
      requires Valid() && exists x :: x in items && x.info == Some(info)
      requires forall x :: x in items && x.info == Some(info) ==> x.status == Resolving
      modifies this, items`next, items`info, items`browser, items`status, items`error
      ensures np < |old(items)| && old(items)[np] == newItem && old(newItem.info) == Some(info)
      ensures forall x :: x in old(items) && x != newItem ==> unchanged(x`info, x`browser, x`status, x`error)
      ensures oldItem != null ==> error == None && op < |old(items)| && old(items)[op] == oldItem && op != np
      ensures oldItem != null ==>
        old(oldItem.browser) != null && old(oldItem.browser).connection == Some(connection)
      ensures error == None && oldItem == null ==> forall x :: x in old(items) ==>
        old(x.browser) == null || old(x.browser).connection != Some(connection)
      ensures crash <==> oldItem != null && np == 0 && op != 1
      ensures !crash ==> Valid()
      ensures !crash ==> items == if oldItem == null then old(items) else PutInPlaceOf(old(items), op, np)
      ensures if oldItem == null then signals == old(signals)
        else Merged(old(items), old(signals), np, op, crash, order)
      ensures oldItem == null ==> unchanged(newItem`info)
      ensures error.Some? ==> newItem.status == Error && newItem.error == error && unchanged(newItem`browser)
      ensures error == None && oldItem == null && accepted ==>
        && newItem.browser != null && newItem.browser.connection == Some(connection)
        && newItem.status == StatusOf(status) && unchanged(newItem`error)
      ensures error == None && oldItem == null && !accepted ==>
        unchanged(newItem`info, newItem`browser, newItem`status, newItem`error)
    {
      hide Linked, Mirror, PutInPlaceOf;
      crash, oldItem, op, order := false, null, 0, [];
      var found := FindItemByInfo(info);
      assert found != null;
      newItem := found;
      assert newItem.status == Resolving && newItem.browser == null;
      np :| np < |items| && items[np] == newItem;
      if error.Some? {
        newItem.status := Error;
        newItem.error := error;
      } else {
        oldItem := FindItemByConnection(connection);
        if oldItem != null {
          assert oldItem != newItem;
          crash, np, op, order := MergeItems(newItem, oldItem);
        } else {
          var browser := new Browser(Some(connection), status);
          if accepted {
            SetBrowser(newItem, browser);
          }
        }
      }
    }

    /** Lists a connection unless it is listed already.  `accepted` says whether a browser can be made for
        it, and `status` is the status that it has then.  If none can be made, the program goes on with
        an item that does not exist. */
    method AddConnection(connection: nat, status: BrowserStatus, accepted: bool)
      returns (crash: bool, browser: Browser?)
      requires Valid()
      modifies this, items`next
      ensures Valid()
      ensures crash <==> !accepted && forall x :: x in old(items) ==>
        old(x.browser) == null || old(x.browser).connection != Some(connection)
      ensures !crash ==>
        && browser != null && browser.connection == Some(connection)
        && exists x :: x in items && x.browser == browser
      ensures items == old(items) || (|items| == |old(items)| + 1 && old(items) <= items)
      ensures items == old(items) <==> crash || exists x ::
        x in old(items) && old(x.browser) != null && old(x.browser).connection == Some(connection)
      ensures items != old(items) ==>
        && fresh(browser) && NewLast(browser) && browser.status == status
        && fresh(items[|items| - 1])
      ensures signals == old(signals) + if items == old(items) then [] else
        [RowInserted(|old(items)|, items[|old(items)|])]
    {
      hide Linked, Mirror;
      crash, browser := false, null;
      var item := FindItemByConnection(connection);
      if item == null {
        var made := new Browser(Some(connection), status);
        if !accepted {
          return true, null;
        }
        browser := made;
        item := AddItem(None, browser);
        assert item in items;
      } else {
        browser := item.browser;
      }
    }

    /** The last item has been listed for the browser alone. */
    ghost predicate NewLast(browser: Browser?)
      reads this, items, browser
    {
      browser != null && items != [] &&
      var item := items[|items| - 1];
      item.info == None && item.browser == browser && item.status == StatusOf(browser.status) && item.error == None
    }

    /** Lists a browser unless it is listed already. */
    method AddBrowser(browser: Browser)
      requires Valid()
      modifies this, items`next
      ensures Valid()
      ensures exists x :: x in items && x.browser == browser
      ensures items == old(items) || (|items| == |old(items)| + 1 && old(items) <= items)
      ensures (exists x :: x in old(items) && old(x.browser) == browser) <==> items == old(items)
      ensures items != old(items) ==> NewLast(browser) && fresh(items[|items| - 1])
      ensures signals == old(signals) + if items == old(items) then [] else
        [RowInserted(|old(items)|, items[|old(items)|])]
    {
      hide Linked, Mirror;
      var item := FindItemByBrowser(browser);
      if item == null {
        item := AddItem(None, browser);
        assert item in items;
      }
    }

    /** Unlists the item of a browser. */
    method RemoveBrowser(browser: Browser) returns (ghost index: nat)
      requires Valid() && exists x :: x in items && x.browser == browser
      modifies this, items`next, items`browser, items`status, items`error
      ensures Valid() && index < |old(items)| && old(items[index].browser) == browser
      ensures forall x :: x in old(items) && x in items ==> unchanged(x`info, x`browser, x`status, x`error)
      ensures items == RemoveAt(old(items), index) && signals == old(signals) + [RowDeleted(index)]
      ensures forall x :: x in items ==> x.browser != browser
    {
      hide Linked, Mirror;
      var item := FindItemByBrowser(browser);
      index := RemoveItem(item);
    }

    /** Unlists the item of a connection. */
    method RemoveConnection(connection: nat) returns (ghost index: nat)
      requires Valid()
      requires exists x :: x in items && x.browser != null && x.browser.connection == Some(connection)
      modifies this, items`next, items`browser, items`status, items`error
      ensures Valid() && index < |old(items)| && items == RemoveAt(old(items), index)
      ensures signals == old(signals) + [RowDeleted(index)]
      ensures old(items[index].browser) != null && old(items[index].browser).connection == Some(connection)
      ensures forall x :: x in old(items) && x in items ==> unchanged(x`info, x`browser, x`status, x`error)
    {
      hide Linked, Mirror;
      var item := FindItemByConnection(connection);
      index := RemoveItem(item);
    }

    /** Forgets the error of a connection; the status is that of the browser again. */
    method ClearConnectionError(connection: nat) returns (item: Item)
      requires Valid()
      requires exists x :: x in items && x.browser != null && x.browser.connection == Some(connection)
      modifies items`status, items`error
      ensures Valid() && item in items && item.browser != null && item.browser.connection == Some(connection)
      ensures item.browser.status == Closed ==> item.status == Disconnected
      ensures item.browser.status == Opening ==> item.status == Connecting
      ensures item.browser.status == Open ==> item.status == Connected
      ensures item.error == if old(item.status) == Error then None else old(item.error)
      ensures forall x :: x in items && x != item ==> x.status == old(x.status) && x.error == old(x.error)
    {
      hide Linked, Mirror;
      var found := FindItemByConnection(connection);
      assert found != null;
      item := found;
      if item.status == Error {
        assert item.error != None;
        item.error := None;
        assert item.browser != null;  // so that the branches for items without a browser are dead
        item.status := StatusOf(item.browser.status);
      }
    }
  }

  /** A discovery and, behind it, a connection. */
  method TwoItems() returns (store: Store, ghost listed: seq<Item>)
    ensures fresh(store) && store.Valid() && fresh(listed) && store.items == listed && |listed| == 2
    ensures listed[0] != listed[1]
    ensures listed[0].info == Some(1) && listed[0].browser == null && listed[0].status == Discovered
    ensures listed[1].info == None && listed[1].browser != null && listed[1].browser.connection == Some(5)
  {
    store := new Store();
    var item := store.OnDiscovered(1);
    assert store.items == [item];
    var _, browser := store.AddConnection(5, Open, true);
    listed := store.items;
    assert listed == [item, listed[1]];
  }

  /** The same with one more connection. */
  method ThreeItems() returns (store: Store, ghost listed: seq<Item>)
    ensures fresh(store) && store.Valid() && fresh(listed) && store.items == listed && |listed| == 3
    ensures listed[0] != listed[1] && listed[1] != listed[2] && listed[0] != listed[2]
    ensures listed[0].info == Some(1) && listed[0].browser == null && listed[0].status == Discovered
    ensures listed[1].info == None && listed[1].browser != null && listed[1].browser.connection == Some(5)
    ensures listed[2].info == None && listed[2].browser != null && listed[2].browser.connection == Some(7)
  {
    ghost var two;
    store, two := TwoItems();
    var _, browser := store.AddConnection(7, Open, true);
    listed := store.items;
    assert listed == two + [listed[2]];
  }

  /** The store can come into the state in which merging reads through a null pointer: a discovery is
      listed first, and resolves to a connection that is listed behind another one. */
  method CrashReachable() returns (crash: bool)
    ensures crash
  {
    ghost var listed;
    var store;
    store, listed := ThreeItems();
    var item := store.Resolve(1);
    assert forall x :: x in store.items && x.info == Some(1) ==> x == listed[0];
    assert listed[2] in store.items && listed[2].browser.connection == Some(7);
    var newItem, oldItem;
    ghost var np, op, order;
    crash, newItem, oldItem, np, op, order := store.OnResolved(1, 7, None, true, Open);
    assert newItem == listed[0];
    assert oldItem != null && oldItem == listed[2];
  }
}
