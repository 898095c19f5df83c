/**
 The intrusive list of server objects: Server_object::List of server.cc and server.h. Objects carry their
 own links and the list they are on; several lists share one population of objects.

 What the links say is described on a snapshot of them, a map from objects to their three fields, so that
 the pointer work of a method is one equation between two snapshots.
 */
module ObjectList {

  class ServerObject {
    var p: ServerObject?
    var n: ServerObject?
    var l: List?

    constructor ()
      ensures p == null && n == null && l == null
    {
      p, n, l := null, null, null;
    }
  }

  datatype Cell = Cell(p: ServerObject?, n: ServerObject?, l: List?)

  const DETACHED := Cell(null, null, null)

  type Cells = map<ServerObject, Cell>

  ghost function Snapshot(all: set<ServerObject>): (cells: Cells)
    reads all
    ensures cells.Keys == all
  {
    map x | x in all :: Cell(x.p, x.n, x.l)
  }

  // Well-formed lists

  ghost function Before(objs: seq<ServerObject>, i: nat): ServerObject?
    requires i < |objs|
  {
    if i == 0 then null else objs[i - 1]
  }

  ghost function After(objs: seq<ServerObject>, i: nat): ServerObject?
    requires i < |objs|
  {
    if i + 1 == |objs| then null else objs[i + 1]
  }

  ghost predicate Distinct(objs: seq<ServerObject>) {
    forall i, j :: 0 <= i < j < |objs| ==> objs[i] != objs[j]
  }

  /** Object i of a list points at its neighbours and names the list. */
  ghost predicate Placed(cells: Cells, me: List, objs: seq<ServerObject>, i: nat) {
    i < |objs| && objs[i] in cells && cells[objs[i]] == Cell(Before(objs, i), After(objs, i), me)
  }

  /** List `me` holds exactly `objs`, in order: `f` is the first, neighbours point at each other, the ends at
      nothing, no object occurs twice, and an object names the list exactly when it is on it. */
  ghost predicate Holds(cells: Cells, me: List, f: ServerObject?, objs: seq<ServerObject>) {
    && Distinct(objs)
    && (forall i :: 0 <= i < |objs| ==> Placed(cells, me, objs, i))
    && f == (if objs == [] then null else objs[0])
    && (forall o :: o in objs ==> o in cells)
    && (forall o :: o in cells ==> (cells[o].l == me <==> o in objs))
  }

  /** The place of an object in a list. */
  ghost function IndexOf(objs: seq<ServerObject>, o: ServerObject): (k: nat)
    requires o in objs
    ensures k < |objs| && objs[k] == o
  {
    if objs[0] == o then 0 else 1 + IndexOf(objs[1..], o)
  }

  ghost function Without(objs: seq<ServerObject>, o: ServerObject): seq<ServerObject>
    requires o in objs
  {
    objs[..IndexOf(objs, o)] + objs[IndexOf(objs, o) + 1..]
  }

  // What the operations do to the links

  ghost function Linked(cells: Cells, me: List, f: ServerObject?, o: ServerObject): Cells {
    map x | x in cells :: if x == o then Cell(null, f, me) else if x == f then cells[x].(p := o) else cells[x]
  }

  ghost function Unlinked(cells: Cells, o: ServerObject): Cells
    requires o in cells
  {
    map x | x in cells ::
      if x == o then DETACHED
      else Cell(if x == cells[o].n then cells[o].p else cells[x].p,
                if x == cells[o].p then cells[o].n else cells[x].n, cells[x].l)
  }

  ghost function Cleared(cells: Cells, objs: seq<ServerObject>): Cells {
    map x | x in cells :: if x in objs then DETACHED else cells[x]
  }

  /** No object names the list any more, and no other object has changed. */
  ghost function Disowned(cells: Cells, me: List): Cells {
    map x | x in cells :: if cells[x].l == me then DETACHED else cells[x]
  }

  /** Linking an unlisted object in front of a list puts it in front, and nothing else. */
  lemma LinkedHolds(cells: Cells, me: List, f: ServerObject?, objs: seq<ServerObject>, o: ServerObject)
    requires Holds(cells, me, f, objs) && o in cells && cells[o].l == null
    ensures Holds(Linked(cells, me, f, o), me, o, [o] + objs)
  {
    var r := [o] + objs;
    assert o !in objs;
    forall i | 0 <= i < |r| ensures Placed(Linked(cells, me, f, o), me, r, i) {
      assert i > 0 ==> r[i] == objs[i - 1] && Placed(cells, me, objs, i - 1);
    }
  }

  /** Where object i of the shortened sequence was. */
  ghost function Old(k: nat, i: nat): nat {
    if i < k then i else i + 1
  }

  /** Taking one object out moves the later ones up and removes exactly that one. */
  lemma DistinctWithout(objs: seq<ServerObject>, o: ServerObject)
    requires Distinct(objs) && o in objs
    ensures |Without(objs, o)| == |objs| - 1
    ensures forall i | 0 <= i < |objs| - 1 :: Without(objs, o)[i] == objs[Old(IndexOf(objs, o), i)]
    ensures Distinct(Without(objs, o))
    ensures forall x :: x in Without(objs, o) <==> x in objs && x != o
  {
    var k, r := IndexOf(objs, o), Without(objs, o);
    assert forall i | 0 <= i < |r| :: r[i] == objs[Old(k, i)];
    forall x | x in objs && x != o ensures x in r {
      var i := IndexOf(objs, x);
      assert r[if i < k then i else i - 1] == x;
    }
    forall x | x in r ensures x in objs && x != o {
      var i := IndexOf(r, x);
      assert x == objs[Old(k, i)];
    }
  }

  /** Object j of a list once object k is unlinked: only the neighbours of k notice. */
  lemma UnlinkedAt(cells: Cells, me: List, f: ServerObject?, objs: seq<ServerObject>, k: nat, j: nat)
    requires Holds(cells, me, f, objs) && k < |objs| && j < |objs| && j != k
    ensures cells[objs[k]].p == Before(objs, k) && (k > 0 ==> objs[k - 1] in cells)
    ensures cells[objs[k]].n == After(objs, k) && (k + 1 < |objs| ==> objs[k + 1] in cells)
    ensures Unlinked(cells, objs[k])[objs[j]] ==
            Cell(Before(objs, if j == k + 1 then k else j), After(objs, if j + 1 == k then k else j), me)
  {
    assert Placed(cells, me, objs, k) && Placed(cells, me, objs, j);
  }

  /** The neighbours in the shortened sequence. */
  lemma NeighboursWithout(objs: seq<ServerObject>, o: ServerObject, i: nat)
    requires Distinct(objs) && o in objs && i < |objs| - 1
    ensures |Without(objs, o)| == |objs| - 1
    ensures var k, j := IndexOf(objs, o), Old(IndexOf(objs, o), i);
            && Without(objs, o)[i] == objs[j]
            && Before(Without(objs, o), i) == Before(objs, if j == k + 1 then k else j)
            && After(Without(objs, o), i) == After(objs, if j + 1 == k then k else j)
  {
    DistinctWithout(objs, o);
    hide Without, Distinct;
    var k, r := IndexOf(objs, o), Without(objs, o);
    assert i > 0 ==> r[i - 1] == objs[Old(k, i - 1)];
    assert i + 1 < |r| ==> r[i + 1] == objs[Old(k, i + 1)];
  }

  lemma UnlinkedPlaced(cells: Cells, me: List, f: ServerObject?, objs: seq<ServerObject>, o: ServerObject, i: nat)
    requires Holds(cells, me, f, objs) && o in objs && i < |objs| - 1
    ensures Placed(Unlinked(cells, o), me, Without(objs, o), i)
  {
    hide Without, Distinct, Before, After;
    UnlinkedAt(cells, me, f, objs, IndexOf(objs, o), Old(IndexOf(objs, o), i));
    NeighboursWithout(objs, o, i);
    assert objs[Old(IndexOf(objs, o), i)] in objs;
  }

  lemma UnlinkedFirst(cells: Cells, me: List, f: ServerObject?, objs: seq<ServerObject>, o: ServerObject)
    requires Holds(cells, me, f, objs) && o in objs
    ensures var r := Without(objs, o);
            (if cells[o].p == null then cells[o].n else f) == if r == [] then null else r[0]
  {
    assert Placed(cells, me, objs, IndexOf(objs, o));
  }

  /** Unlinking an object of a list takes exactly that object off it. */
  lemma UnlinkedHolds(cells: Cells, me: List, f: ServerObject?, objs: seq<ServerObject>, o: ServerObject)
    requires Holds(cells, me, f, objs) && o in objs
    ensures Holds(Unlinked(cells, o), me, if cells[o].p == null then cells[o].n else f, Without(objs, o))
  {
    DistinctWithout(objs, o);
    UnlinkedFirst(cells, me, f, objs, o);
    forall i | 0 <= i < |objs| - 1 ensures Placed(Unlinked(cells, o), me, Without(objs, o), i) {
      UnlinkedPlaced(cells, me, f, objs, o, i);
    }
    hide Without, Distinct, Placed;
  }

  lemma NothingCleared(cells: Cells)
    ensures Cleared(cells, []) == cells
  {
  }

  lemma ClearedNext(cells: Cells, objs: seq<ServerObject>, k: nat)
    requires k < |objs| && objs[k] in cells
    ensures Cleared(cells, objs[..k + 1]) == Cleared(cells, objs[..k])[objs[k] := DETACHED]
  {
    assert objs[..k + 1] == objs[..k] + [objs[k]];
  }

  /** Clearing the objects along the chain reaches every object that names the list. */
  lemma ClearedIsDisowned(cells: Cells, me: List, f: ServerObject?, objs: seq<ServerObject>)
    requires Holds(cells, me, f, objs)
    ensures Cleared(cells, objs) == Disowned(cells, me)
  {
  }

  lemma First(cells: Cells, me: List, f: ServerObject?, objs: seq<ServerObject>)
    requires Holds(cells, me, f, objs)
    ensures objs == [] ==> f == null
    ensures objs != [] ==> f == objs[0] && f in cells && cells[objs[0]].l == me
  {
    assert objs != [] ==> objs[0] in objs;
  }

  /** What a member of a list can rely on before it is unlinked. */
  lemma Members(cells: Cells, me: List, f: ServerObject?, objs: seq<ServerObject>, o: ServerObject)
    requires Holds(cells, me, f, objs) && o in cells
    ensures cells[o].l == me <==> o in objs
    ensures o in objs ==> cells[o].p != o && cells[o].n != o
    ensures o in objs && cells[o].p != null ==> cells[o].p in cells
    ensures o in objs && cells[o].n != null ==> cells[o].n in cells
  {
    if o in objs {
      assert Placed(cells, me, objs, IndexOf(objs, o));
    }
  }

  /** A list is left alone when its own objects are and no other object begins to name it. */
  lemma HoldsStill(cells: Cells, after: Cells, m: List, f: ServerObject?, objs: seq<ServerObject>)
    requires Holds(cells, m, f, objs) && after.Keys == cells.Keys
    requires forall x :: x in cells && (cells[x].l == m || after[x].l == m) ==> after[x] == cells[x]
    ensures Holds(after, m, f, objs)
  {
    forall i | 0 <= i < |objs| ensures Placed(after, m, objs, i) {
      assert Placed(cells, m, objs, i);
    }
  }

  class List {
    var f: ServerObject?
    ghost var objs: seq<ServerObject>

    constructor ()
      ensures f == null && objs == []
    {
      f, objs := null, [];
    }

    ghost predicate Valid(all: set<ServerObject>)
      reads this, all
    {
      Holds(Snapshot(all), this, f, objs)
    }

    /** Puts an object in front, unless it is on some list already. */
    method Add(o: ServerObject, ghost all: set<ServerObject>)
      requires Valid(all) && o in all
      modifies this, all
      ensures Valid(all)
      ensures objs == if old(o.l) == null then [o] + old(objs) else old(objs)
      ensures old(o.l) != null ==> Snapshot(all) == old(Snapshot(all))
      ensures old(o.l) == null ==> Snapshot(all) == Linked(old(Snapshot(all)), this, old(f), o)
    {
      if o.l != null {
        return;
      }
      ghost var cells := Snapshot(all);
      assert f != null ==> f in objs && f in all;
      LinkedHolds(cells, this, f, objs, o);
      hide Holds, Distinct;
      o.l := this;
      o.n := f;
      o.p := null;
      if f != null {
        f.p := o;
      }
      f := o;
      objs := [o] + objs;
      assert Snapshot(all) == Linked(cells, this, old(f), o);
    }

    /** Takes an object off this list, the newest if none is named, and reports which; an object that is on
        another list, or on none, is left alone. */
    method Remove(o: ServerObject?, ghost all: set<ServerObject>) returns (res: ServerObject?)
      requires Valid(all) && (o != null ==> o in all)
      modifies this, all
      ensures Valid(all)
      ensures res == if o == null then (if old(objs) == [] then null else old(objs)[0])
                     else if o in old(objs) then o else null
      ensures res != null ==> res in old(objs) && objs == Without(old(objs), res)
      ensures res == null ==> objs == old(objs) && Snapshot(all) == old(Snapshot(all))
      ensures res != null ==> Snapshot(all) == Unlinked(old(Snapshot(all)), res)
    {
      hide Holds, Without, Unlinked;
      ghost var cells := Snapshot(all);
      res := null;
      First(cells, this, f, objs);
      var c := if o == null then f else o;
      if c != null {
        Members(cells, this, f, objs, c);
      }
      if c != null && c.l == this {
        UnlinkedHolds(cells, this, f, objs, c);
        Unlink(c, all);
        res := c;
        objs := Without(objs, c);
      }
    }

    /** The pointer work of removal. */
    method Unlink(c: ServerObject, ghost all: set<ServerObject>)
      requires c in all && c.p != c && c.n != c
      requires (c.p != null ==> c.p in all) && (c.n != null ==> c.n in all)
      modifies this`f, all
      ensures f == if old(c.p) == null then old(c.n) else old(f)
      ensures Snapshot(all) == Unlinked(old(Snapshot(all)), c)
    {
      if c.p != null {
        c.p.n := c.n;
      } else {
        f := c.n;
      }
      if c.n != null {
        c.n.p := c.p;
      }
      c.l := null;
      c.n := null;
      c.p := null;
    }

    /** The destructor: every object comes off the list, which is then gone. Its complaint about an object
        that does not name the list is never reached. */
    method Destroy(ghost all: set<ServerObject>)
      requires Valid(all)
      modifies all
      ensures Snapshot(all) == Disowned(old(Snapshot(all)), this)
    {
      ghost var k, cells := 0, Snapshot(all);
      First(cells, this, f, objs);
      ClearedIsDisowned(cells, this, f, objs);
      NothingCleared(cells);
      hide Before, Holds, Cleared, Disowned;
      var o := f;
      while o != null
        invariant 0 <= k <= |objs| && o == if k == |objs| then null else objs[k]
        invariant Snapshot(all) == Cleared(cells, objs[..k])
        decreases |objs| - k
      {
        UnclearedYet(cells, this, f, objs, k);
        var n := o.n;
        if o.l != this {
          assert false;
        }
        ghost var before := Snapshot(all);
        o.l, o.p, o.n := null, null, null;
        assert Snapshot(all) == before[o := DETACHED];
        ClearedNext(cells, objs, k);
        o := n;
        k := k + 1;
      }
      assert objs[..k] == objs;
    }
  }

  /** The object the destructor has come to is as it was. */
  lemma UnclearedYet(cells: Cells, me: List, f: ServerObject?, objs: seq<ServerObject>, k: nat)
    requires Holds(cells, me, f, objs) && k < |objs|
    ensures objs[k] in cells && Cleared(cells, objs[..k])[objs[k]] == Cell(Before(objs, k), After(objs, k), me)
  {
    assert Placed(cells, me, objs, k) && objs[k] !in objs[..k];
  }
}
