/**
 Several object lists over one population of objects, from construction to destruction: whatever the
 sequence of calls, the pointers describe exactly the lists one would write down as sequences.
 */
module ObjectListRuns {
  import opened ObjectList

  /** The calls of a run. Removing null asks for the newest object. */
  datatype Call =
    | Construct(m: List)
    | AddTo(m: List, o: ServerObject)
    | RemoveFrom(m: List, which: ServerObject?)
    | Destruct(m: List)

  /** What is in memory: the links of the objects and the head pointer of each list that exists. */
  datatype Memory = Memory(cells: Cells, heads: map<List, ServerObject?>)

  /** What the lists mean. */
  type Lists = map<List, seq<ServerObject>>

  /** A program calls lists that exist with objects that exist, and constructs a list only where there is none. */
  ghost predicate Callable(w: Memory, c: Call) {
    match c
    case Construct(m) => m !in w.heads
    case AddTo(m, o) => m in w.heads && o in w.cells
    case RemoveFrom(m, which) => m in w.heads && (which != null ==> which in w.cells)
    case Destruct(m) => m in w.heads
  }

  /** The pointers after a call, as the methods of List leave them. */
  ghost function Execute(w: Memory, c: Call): Memory
    requires Callable(w, c)
  {
    match c
    case Construct(m) => w.(heads := w.heads[m := null])
    case AddTo(m, o) =>
      if w.cells[o].l != null then w
      else Memory(Linked(w.cells, m, w.heads[m], o), w.heads[m := o])
    case RemoveFrom(m, which) =>
      var o := if which == null then w.heads[m] else which;
      if o == null || o !in w.cells || w.cells[o].l != m then w
      else Memory(Unlinked(w.cells, o), w.heads[m := if w.cells[o].p == null then w.cells[o].n else w.heads[m]])
    case Destruct(m) => Memory(Disowned(w.cells, m), w.heads - {m})
  }

  ghost predicate Listed(lists: Lists, o: ServerObject) {
    exists m :: m in lists && o in lists[m]
  }

  /** What a call means for the lists, with no pointers in sight. */
  ghost function Meaning(lists: Lists, c: Call): Lists {
    if c.Construct? then lists[c.m := []]
    else if c.m !in lists then lists
    else match c
      case AddTo(m, o) => if Listed(lists, o) then lists else lists[m := [o] + lists[m]]
      case RemoveFrom(m, which) =>
        if which == null then (if lists[m] == [] then lists else lists[m := lists[m][1..]])
        else if which in lists[m] then lists[m := Without(lists[m], which)]
        else lists
      case Destruct(m) => lists - {m}
      case Construct(_) => lists
  }

  /** Memory represents the lists: each is held by its links, nobody names a list that does not exist,
      and an object on no list has no links. */
  ghost predicate Represents(w: Memory, lists: Lists) {
    && w.heads.Keys == lists.Keys
    && (forall m :: m in lists ==> Holds(w.cells, m, w.heads[m], lists[m]))
    && (forall o :: o in w.cells && w.cells[o].l != null ==> w.cells[o].l in lists)
    && (forall o :: o in w.cells && w.cells[o].l == null ==> w.cells[o] == DETACHED)
  }

  lemma ListedIsNamed(w: Memory, lists: Lists, o: ServerObject)
    requires Represents(w, lists) && o in w.cells
    ensures w.cells[o].l != null <==> Listed(lists, o)
    ensures w.cells[o].l != null ==> o in lists[w.cells[o].l]
  {
    if w.cells[o].l != null {
      assert o in lists[w.cells[o].l];
    }
  }

  lemma WithoutFirst(objs: seq<ServerObject>)
    requires objs != []
    ensures objs[0] in objs && Without(objs, objs[0]) == objs[1..]
  {
  }

  /** The other lists, after a call on list m. */
  lemma OthersHold(w: Memory, after: Cells, lists: Lists, m: List, k: List)
    requires Represents(w, lists) && k in lists && k != m && after.Keys == w.cells.Keys
    requires forall x :: x in after ==>
               || after[x] == w.cells[x]
               || ((w.cells[x].l == null || w.cells[x].l == m) && (after[x].l == null || after[x].l == m))
    ensures Holds(after, k, w.heads[k], lists[k])
  {
    HoldsStill(w.cells, after, k, w.heads[k], lists[k]);
  }

  /** One list of many is replaced. */
  lemma OneReplaced(w: Memory, lists: Lists, m: List, after: Cells, f: ServerObject?, objs: seq<ServerObject>)
    requires Represents(w, lists) && m in lists && Holds(after, m, f, objs) && after.Keys == w.cells.Keys
    requires forall x :: x in after ==>
               || after[x] == w.cells[x]
               || ((w.cells[x].l == null || w.cells[x].l == m) && (after[x].l == null || after[x].l == m))
    requires forall x :: x in after && after[x].l == null ==> after[x] == DETACHED
    ensures Represents(Memory(after, w.heads[m := f]), lists[m := objs])
  {
    hide Holds;
    forall k | k in lists && k != m ensures Holds(after, k, w.heads[k], lists[k]) {
      OthersHold(w, after, lists, m, k);
    }
  }

  lemma AddKeeps(w: Memory, lists: Lists, m: List, o: ServerObject)
    requires Represents(w, lists) && m in lists && o in w.cells
    ensures Represents(Execute(w, AddTo(m, o)), Meaning(lists, AddTo(m, o)))
  {
    ListedIsNamed(w, lists, o);
    if w.cells[o].l == null {
      LinkedHolds(w.cells, m, w.heads[m], lists[m], o);
      First(w.cells, m, w.heads[m], lists[m]);
      hide Holds, Listed;
      OneReplaced(w, lists, m, Linked(w.cells, m, w.heads[m], o), o, [o] + lists[m]);
      hide Represents;
    }
  }

  lemma NewestOrNamed(w: Memory, lists: Lists, m: List, which: ServerObject?)
    requires Represents(w, lists) && m in lists && (which != null ==> which in w.cells)
    ensures var o := if which == null then w.heads[m] else which;
            && Execute(w, RemoveFrom(m, which)) == (if o == null then w else Execute(w, RemoveFrom(m, o)))
            && Meaning(lists, RemoveFrom(m, which)) == (if o == null then lists else Meaning(lists, RemoveFrom(m, o)))
            && (o != null ==> o in w.cells)
  {
    First(w.cells, m, w.heads[m], lists[m]);
    if lists[m] != [] {
      WithoutFirst(lists[m]);
    }
    hide Holds, Without;
  }

  lemma RemoveKeeps(w: Memory, lists: Lists, m: List, o: ServerObject)
    requires Represents(w, lists) && m in lists && o in w.cells
    ensures Represents(Execute(w, RemoveFrom(m, o)), Meaning(lists, RemoveFrom(m, o)))
  {
    Members(w.cells, m, w.heads[m], lists[m], o);
    if o in lists[m] {
      UnlinkedHolds(w.cells, m, w.heads[m], lists[m], o);
      UnlinkedNames(w.cells, m, w.heads[m], lists[m], o);
      hide Holds, Without, Unlinked;
      var head := if w.cells[o].p == null then w.cells[o].n else w.heads[m];
      OneReplaced(w, lists, m, Unlinked(w.cells, o), head, Without(lists[m], o));
      hide Represents;
    }
  }

  lemma UnlinkedNames(cells: Cells, m: List, f: ServerObject?, objs: seq<ServerObject>, o: ServerObject)
    requires Holds(cells, m, f, objs) && o in objs
    ensures var after := Unlinked(cells, o);
            after.Keys == cells.Keys && after[o] == DETACHED
            && forall x :: x in cells && x != o ==>
                 after[x].l == cells[x].l && (cells[x].l == m || after[x] == cells[x])
  {
    NeighboursName(cells, m, f, objs, o);
    hide Holds;
  }

  lemma NeighboursName(cells: Cells, m: List, f: ServerObject?, objs: seq<ServerObject>, o: ServerObject)
    requires Holds(cells, m, f, objs) && o in objs
    ensures cells[o].p != null ==> cells[o].p in cells && cells[cells[o].p].l == m
    ensures cells[o].n != null ==> cells[o].n in cells && cells[cells[o].n].l == m
  {
    var k := IndexOf(objs, o);
    assert Placed(cells, m, objs, k);
    assert k > 0 ==> objs[k - 1] in objs;
    assert k + 1 < |objs| ==> objs[k + 1] in objs;
  }

  lemma DestructKeeps(w: Memory, lists: Lists, m: List)
    requires Represents(w, lists) && m in lists
    ensures Represents(Execute(w, Destruct(m)), Meaning(lists, Destruct(m)))
  {
    var after := Disowned(w.cells, m);
    hide Holds;
    forall k | k in lists && k != m ensures Holds(after, k, w.heads[k], lists[k]) {
      OthersHold(w, after, lists, m, k);
    }
  }

  lemma ConstructKeeps(w: Memory, lists: Lists, m: List)
    requires Represents(w, lists) && m !in lists
    ensures Represents(Execute(w, Construct(m)), Meaning(lists, Construct(m)))
  {
    assert Holds(w.cells, m, null, []);
    hide Holds;
  }

  lemma CallKeeps(w: Memory, lists: Lists, c: Call)
    requires Represents(w, lists) && Callable(w, c)
    ensures Represents(Execute(w, c), Meaning(lists, c))
  {
    hide Represents, Execute, Meaning;
    assert w.heads.Keys == lists.Keys by { KeysAgree(w, lists); }
    match c
    case Construct(m) => ConstructKeeps(w, lists, m);
    case AddTo(m, o) => AddKeeps(w, lists, m, o);
    case RemoveFrom(m, which) =>
      NewestOrNamed(w, lists, m, which);
      var o := if which == null then w.heads[m] else which;
      if o != null {
        RemoveKeeps(w, lists, m, o);
      }
    case Destruct(m) => DestructKeeps(w, lists, m);
  }

  lemma KeysAgree(w: Memory, lists: Lists)
    requires Represents(w, lists)
    ensures w.heads.Keys == lists.Keys
  {
  }

  // Whole runs

  ghost predicate Runs(w: Memory, calls: seq<Call>)
    decreases |calls|
  {
    calls == [] || (Callable(w, calls[0]) && Runs(Execute(w, calls[0]), calls[1..]))
  }

  ghost function Run(w: Memory, calls: seq<Call>): Memory
    requires Runs(w, calls)
    decreases |calls|
  {
    if calls == [] then w else Run(Execute(w, calls[0]), calls[1..])
  }

  ghost function RunMeaning(lists: Lists, calls: seq<Call>): Lists
    decreases |calls|
  {
    if calls == [] then lists else RunMeaning(Meaning(lists, calls[0]), calls[1..])
  }

  lemma {:induction false} RunKeeps(w: Memory, lists: Lists, calls: seq<Call>)
    requires Represents(w, lists) && Runs(w, calls)
    ensures Represents(Run(w, calls), RunMeaning(lists, calls))
    decreases |calls|
  {
    if calls != [] {
      hide Represents, Execute, Meaning, Callable;
      CallKeeps(w, lists, calls[0]);
      RunKeeps(Execute(w, calls[0]), Meaning(lists, calls[0]), calls[1..]);
    }
  }

  /** After any run from objects on no list, the pointers represent what the calls mean. An object therefore
      names the one list that holds it, once; and objects on no list name none. */
  lemma EveryRunRepresents(all: set<ServerObject>, calls: seq<Call>)
    requires Runs(Memory(map x | x in all :: DETACHED, map[]), calls)
    ensures var w, lists := Run(Memory(map x | x in all :: DETACHED, map[]), calls), RunMeaning(map[], calls);
            && Represents(w, lists)
            && forall o :: o in w.cells ==>
                 && (if w.cells[o].l == null then w.cells[o] == DETACHED else w.cells[o].l in lists)
                 && (forall m :: m in lists ==> (o in lists[m] <==> w.cells[o].l == m) && Distinct(lists[m]))
  {
    var start := Memory(map x | x in all :: DETACHED, map[]);
    assert Represents(start, map[]);
    RunKeeps(start, map[], calls);
  }

  /** Removing an object that is not on the list, or that is on another, changes nothing. */
  lemma RemovingAStrangerChangesNothing(w: Memory, lists: Lists, m: List, o: ServerObject)
    requires Represents(w, lists) && m in lists && o in w.cells
    ensures Execute(w, RemoveFrom(m, o)) == w <==> o !in lists[m]
    ensures o !in lists[m] ==> Meaning(lists, RemoveFrom(m, o)) == lists
  {
    Members(w.cells, m, w.heads[m], lists[m], o);
  }

  lemma UnlinkUndoesLink(cells: Cells, m: List, f: ServerObject?, o: ServerObject)
    requires o in cells && cells[o] == DETACHED && o != f
    requires f != null ==> f in cells && cells[f].p == null
    ensures Linked(cells, m, f, o)[o] == Cell(null, f, m)
    ensures Unlinked(Linked(cells, m, f, o), o) == cells
  {
    assert forall x | x in cells :: Unlinked(Linked(cells, m, f, o), o)[x] == cells[x];
  }

  /** Adding an unlisted object and asking for the newest gives that object back and restores every pointer. */
  lemma AddThenRemoveNewest(w: Memory, lists: Lists, m: List, o: ServerObject)
    requires Represents(w, lists) && m in lists && o in w.cells && w.cells[o].l == null
    ensures Execute(w, AddTo(m, o)).heads[m] == o
    ensures Execute(Execute(w, AddTo(m, o)), RemoveFrom(m, null)) == w
  {
    First(w.cells, m, w.heads[m], lists[m]);
    if lists[m] != [] {
      assert Placed(w.cells, m, lists[m], 0);
    }
    assert Holds(w.cells, m, w.heads[m], lists[m]);
    hide Holds, Represents, Linked, Unlinked;
    UnlinkUndoesLink(w.cells, m, w.heads[m], o);
    assert Execute(Execute(w, AddTo(m, o)), RemoveFrom(m, null)).heads == w.heads;
  }

  /** The destructor detaches every object of its list and touches no other. */
  lemma DestructDetaches(w: Memory, lists: Lists, m: List, o: ServerObject)
    requires Represents(w, lists) && m in lists && o in w.cells
    ensures Execute(w, Destruct(m)).cells[o] == if o in lists[m] then DETACHED else w.cells[o]
  {
    Members(w.cells, m, w.heads[m], lists[m], o);
  }
}
