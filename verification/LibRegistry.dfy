/**
 The start-up list of Lua libraries, in lua.cc: each library puts itself on a linked list by priority when it
 is constructed, and run_init walks the list once.
 */
module LibRegistry {

  class Lib {
    const prio: int
    var next: Lib?

    constructor (prio: int)
      ensures this.prio == prio && next == null
    {
      this.prio, next := prio, null;
    }
  }

  // What the list ought to be

  ghost predicate Sorted(libs: seq<Lib>) {
    forall i, j :: 0 <= i < j < |libs| ==> libs[i].prio <= libs[j].prio
  }

  /** The libraries of one priority, in list order. */
  ghost function Of(libs: seq<Lib>, p: int): seq<Lib> {
    if libs == [] then [] else if libs[0].prio == p then [libs[0]] + Of(libs[1..], p) else Of(libs[1..], p)
  }

  ghost function Reversed(libs: seq<Lib>): seq<Lib> {
    if libs == [] then [] else Reversed(libs[1..]) + [libs[0]]
  }

  /** The list after libraries constructed in this order: sorted, a permutation of them, and the newest first
      among equals. */
  ghost predicate Arranged(libs: seq<Lib>, constructed: seq<Lib>) {
    && Sorted(libs)
    && multiset(libs) == multiset(constructed)
    && forall p :: Of(libs, p) == Reversed(Of(constructed, p))
  }

  // What the insertion does

  /** How many libraries at the front come before a new one of priority p. */
  ghost function Place(libs: seq<Lib>, p: int): (k: nat)
    ensures k <= |libs|
    ensures forall i :: 0 <= i < k ==> libs[i].prio < p
    ensures k < |libs| ==> libs[k].prio >= p
  {
    if libs == [] || libs[0].prio >= p then 0 else 1 + Place(libs[1..], p)
  }

  ghost function Inserted(libs: seq<Lib>, l: Lib): seq<Lib> {
    libs[..Place(libs, l.prio)] + [l] + libs[Place(libs, l.prio)..]
  }

  lemma OfRest(a: seq<Lib>, q: int)
    requires a != []
    ensures if a[0].prio == q then Of(a, q) == [a[0]] + Of(a[1..], q) && Of(a[1..], q) == Of(a, q)[1..]
            else Of(a[1..], q) == Of(a, q)
  {
  }

  lemma {:induction false} OfAppended(a: seq<Lib>, b: seq<Lib>, p: int)
    ensures Of(a + b, p) == Of(a, p) + Of(b, p)
  {
    if a == [] {
      assert a + b == b;
    } else {
      assert (a + b)[0] == a[0];
      assert (a + b)[1..] == a[1..] + b;
      OfAppended(a[1..], b, p);
      OfRest(a, p);
      OfRest(a + b, p);
      hide Of;
      if a[0].prio == p {
        assert [a[0]] + (Of(a[1..], p) + Of(b, p)) == ([a[0]] + Of(a[1..], p)) + Of(b, p);
      }
    }
  }

  lemma {:induction false} NoneOf(a: seq<Lib>, p: int)
    requires forall i :: 0 <= i < |a| ==> a[i].prio != p
    ensures Of(a, p) == []
  {
    if a != [] {
      NoneOf(a[1..], p);
    }
  }

  lemma ReversedAppended(a: seq<Lib>, l: Lib)
    ensures Reversed(a + [l]) == [l] + Reversed(a)
  {
    if a != [] {
      assert (a + [l])[1..] == a[1..] + [l];
      ReversedAppended(a[1..], l);
    }
  }

  /** A new library goes first among its equals and disturbs no other priority. */
  lemma InsertedOf(libs: seq<Lib>, l: Lib, p: int)
    ensures Of(Inserted(libs, l), p) == (if p == l.prio then [l] else []) + Of(libs, p)
  {
    var k := Place(libs, l.prio);
    var a, b := libs[..k], libs[k..];
    assert libs == a + b && Inserted(libs, l) == a + ([l] + b);
    OfAppended(a, b, p);
    OfAppended(a, [l] + b, p);
    if p == l.prio {
      NoneOf(a, p);
    }
  }

  ghost predicate Distinct(libs: seq<Lib>) {
    forall i, j :: 0 <= i < j < |libs| ==> libs[i] != libs[j]
  }

  lemma InsertedAt(libs: seq<Lib>, l: Lib)
    ensures |Inserted(libs, l)| == |libs| + 1
    ensures var k := Place(libs, l.prio); forall i {:trigger Inserted(libs, l)[i]} :: 0 <= i < |libs| + 1 ==>
              Inserted(libs, l)[i] == if i < k then libs[i] else if i == k then l else libs[i - 1]
    ensures Distinct(libs) && l !in libs ==> Distinct(Inserted(libs, l))
  {
  }

  lemma InsertedSorted(libs: seq<Lib>, l: Lib)
    requires Sorted(libs)
    ensures Sorted(Inserted(libs, l))
  {
    InsertedAt(libs, l);
    hide Inserted;
  }

  lemma InsertedAddsOne(libs: seq<Lib>, l: Lib)
    ensures multiset(Inserted(libs, l)) == multiset(libs) + multiset{l}
  {
    assert libs == libs[..Place(libs, l.prio)] + libs[Place(libs, l.prio)..];
  }

  /** One construction keeps the list arranged. */
  lemma InsertedArranged(libs: seq<Lib>, constructed: seq<Lib>, l: Lib)
    requires Arranged(libs, constructed)
    ensures Arranged(Inserted(libs, l), constructed + [l])
  {
    InsertedSorted(libs, l);
    InsertedAddsOne(libs, l);
    hide Inserted, Sorted;
    forall p ensures Of(Inserted(libs, l), p) == Reversed(Of(constructed + [l], p)) {
      InsertedOf(libs, l, p);
      OfAppended(constructed, [l], p);
      ReversedAppended(Of(constructed, p), l);
      assert Of(libs, p) == Reversed(Of(constructed, p));
      assert Of([l], p) == if p == l.prio then [l] else [];
      assert p != l.prio ==> Of(constructed, p) + [] == Of(constructed, p);
    }
  }

  ghost function Registered(constructed: seq<Lib>): seq<Lib> {
    if constructed == [] then []
    else Inserted(Registered(constructed[..|constructed| - 1]), constructed[|constructed| - 1])
  }

  /** Whatever libraries were constructed, in whatever order. */
  lemma {:induction false} RegisteredArranged(constructed: seq<Lib>)
    ensures Arranged(Registered(constructed), constructed)
  {
    if constructed != [] {
      var n := |constructed| - 1;
      RegisteredArranged(constructed[..n]);
      InsertedArranged(Registered(constructed[..n]), constructed[..n], constructed[n]);
      assert constructed[..n] + [constructed[n]] == constructed;
    } else {
      assert forall p :: Of([], p) == Reversed(Of(constructed, p));
    }
  }

  /** The arrangement leaves no choice: two sorted lists with the same libraries of each priority, in the same
      order, are the same list. */
  lemma {:induction false} ArrangedOnce(a: seq<Lib>, b: seq<Lib>, constructed: seq<Lib>)
    requires Arranged(a, constructed) && Arranged(b, constructed)
    ensures a == b
  {
    SameParts(a, b);
  }

  lemma {:induction false} SameParts(a: seq<Lib>, b: seq<Lib>)
    requires Sorted(a) && Sorted(b) && forall p :: Of(a, p) == Of(b, p)
    ensures a == b
  {
    EmptyTogether(a, b);
    EmptyTogether(b, a);
    if a != [] {
      FirstOf(a, b);
      FirstOf(b, a);
      var p := a[0].prio;
      assert Of(a, p) == Of(b, p);
      assert Of(a, p)[0] == a[0] && Of(b, p)[0] == b[0];
      forall q ensures Of(a[1..], q) == Of(b[1..], q) {
        assert Of(a, q) == Of(b, q);
        OfRest(a, q);
        OfRest(b, q);
      }
      SameParts(a[1..], b[1..]);
    }
  }

  lemma EmptyTogether(a: seq<Lib>, b: seq<Lib>)
    requires forall p :: Of(a, p) == Of(b, p)
    ensures a == [] ==> b == []
  {
    if b != [] {
      OfRest(b, b[0].prio);
      assert Of(a, b[0].prio) == Of(b, b[0].prio);
    }
  }

  /** No list starts with a lower priority than the other. */
  lemma FirstOf(a: seq<Lib>, b: seq<Lib>)
    requires Sorted(b) && a != [] && b != [] && forall p :: Of(a, p) == Of(b, p)
    ensures a[0].prio >= b[0].prio
  {
    if a[0].prio < b[0].prio {
      assert Of(a, a[0].prio) == Of(b, a[0].prio);
      NoneOf(b, a[0].prio);
    }
  }

  /** A library whose turn has not come is not on the list, and all that are had their turn. */
  lemma NotYet(constructed: seq<Lib>, i: nat)
    requires Distinct(constructed) && i < |constructed|
    ensures constructed[i] !in Registered(constructed[..i])
    ensures forall l :: l in Registered(constructed[..i]) ==> l in constructed
  {
    var libs := Registered(constructed[..i]);
    RegisteredArranged(constructed[..i]);
    forall l | l in libs ensures l in constructed[..i] {
      assert l in multiset(libs);
    }
  }

  // The linked list

  ghost predicate Points(libs: seq<Lib>, i: nat)
    requires i < |libs|
    reads libs[i]
  {
    libs[i].next == if i + 1 == |libs| then null else libs[i + 1]
  }

  class Registry {
    var first: Lib?
    ghost var libs: seq<Lib>

    ghost predicate Valid()
      reads this, libs
    {
      && first == (if libs == [] then null else libs[0])
      && (forall i :: 0 <= i < |libs| ==> Points(libs, i))
      && Distinct(libs)
    }

    constructor ()
      ensures Valid() && libs == []
    {
      first, libs := null, [];
    }

    /** The walk to the link to be redirected: `before.next`, or `first` if `before` is null. */
    method Find(p: int) returns (before: Lib?, at: Lib?)
      requires Valid()
      ensures at == if Place(libs, p) == |libs| then null else libs[Place(libs, p)]
      ensures before == if Place(libs, p) == 0 then null else libs[Place(libs, p) - 1]
    {
      before, at := null, first;
      ghost var k := 0;
      while at != null && at.prio < p
        invariant 0 <= k <= |libs| && k <= Place(libs, p)
        invariant at == if k == |libs| then null else libs[k]
        invariant before == if k == 0 then null else libs[k - 1]
        decreases |libs| - k
      {
        assert Points(libs, k);
        before, at := at, at.next;
        k := k + 1;
      }
    }

    /** Construction of library l. */
    method Construct(l: Lib)
      requires Valid() && l !in libs
      modifies this, (set o | o in libs), l`next
      ensures Valid() && libs == Inserted(old(libs), l)
    {
      hide Inserted, Place;
      InsertedAt(libs, l);
      ghost var k := Place(libs, l.prio);
      var before, at := Find(l.prio);
      assert k > 0 ==> libs[k - 1] in libs;
      l.next := at;
      if before == null {
        first := l;
      } else {
        before.next := l;
      }
      ghost var was := libs;
      libs := Inserted(libs, l);
      assert forall i | 0 <= i < |was| && i + 1 != k :: was[i].next == old(was[i].next);
      hide Distinct;
      forall i | 0 <= i < |libs| ensures Points(libs, i) {
        if i < k {
          assert old(Points(was, i)) && libs[i] == was[i];
        } else if i > k {
          assert old(Points(was, i - 1)) && libs[i] == was[i - 1];
        }
      }
    }

    /** Any number of constructions, one after the other, on an empty list. */
    method ConstructAll(constructed: seq<Lib>)
      requires Valid() && libs == [] && Distinct(constructed)
      modifies this, (set o | o in constructed)
      ensures Valid() && libs == Registered(constructed) && Arranged(libs, constructed)
    {
      for i := 0 to |constructed|
        invariant Valid() && libs == Registered(constructed[..i])
      {
        RegisteredArranged(constructed[..i]);
        NotYet(constructed, i);
        assert forall l :: l in libs ==> l in constructed;
        assert constructed[i] in constructed;
        Construct(constructed[i]);
        assert constructed[..i + 1][..i] == constructed[..i];
      }
      assert constructed[..|constructed|] == constructed;
      RegisteredArranged(constructed);
    }

    /** run_init: which libraries are initialised, in order. */
    method RunInit() returns (initialised: seq<Lib>)
      requires Valid()
      ensures initialised == libs
    {
      initialised := [];
      var c := first;
      while c != null
        invariant |initialised| <= |libs| && initialised == libs[..|initialised|]
        invariant c == if |initialised| == |libs| then null else libs[|initialised|]
        decreases |libs| - |initialised|
      {
        assert Points(libs, |initialised|);
        initialised := initialised + [c];
        c := c.next;
      }
    }
  }
}
