/**
 The stack of a task under construction, in remote_mem.h: memory is allocated page by page as pushes reach
 it, and the last page that was looked at is remembered to save the request.
 */
module RemoteStack {

  const PAGE: nat := 4096

  /** The beginning of the page of an address. */
  function Trunc(a: nat): (r: nat)
    ensures r % 4096 == 0 && r <= a < r + 4096
  {
    a / PAGE * PAGE
  }

  /** The first beginning of a page from an address on. */
  function Round(a: nat): (r: nat)
    ensures r % 4096 == 0 && a <= r < a + 4096
  {
    (a + PAGE - 1) / PAGE * PAGE
  }

  /** The pages that the bytes [from, to) of a dataspace lie on. */
  ghost function Touched(from: nat, to: nat): set<nat> {
    set a: nat | from <= a < to :: a / PAGE
  }

  /** Dataspace::allocate, in whole pages. */
  ghost function Allocate(pages: set<nat>, offs: nat, size: nat): set<nat> {
    pages + set p: nat | p < (offs + size) / PAGE && AtLeast(p, offs / PAGE)
  }

  ghost predicate AtLeast(p: nat, q: nat) {
    q <= p
  }

  /** The remembered page and the allocated pages after a check: an access reaches every page it touches,
      unless the remembered page says it need not. */
  ghost function Checked(vma: nat, last: nat, pages: set<nat>, addr: nat, sz: nat): (nat, set<nat>)
    requires vma <= addr
  {
    if last == Trunc(addr) then (last, pages) else (Trunc(addr), Reached(vma, pages, addr, sz))
  }

  ghost function Reached(vma: nat, pages: set<nat>, addr: nat, sz: nat): set<nat>
    requires vma <= addr
  {
    Allocate(pages, Trunc(addr - vma), Round(addr + sz - vma) - Trunc(addr - vma))
  }

  /** An access reaches the pages its own bytes lie on. */
  lemma ReachedIsTouching(vma: nat, pages: set<nat>, addr: nat, sz: nat)
    requires vma <= addr
    ensures sz > 0 ==> Reached(vma, pages, addr, sz) == pages + Touched(addr - vma, addr + sz - vma)
    ensures Trunc(addr) == addr - addr % 4096
  {
    if sz > 0 {
      var reached, touched := Reached(vma, {}, addr, sz), Touched(addr - vma, addr + sz - vma);
      forall p: nat ensures p in reached <==> p in touched {
        TouchedIs(addr - vma, addr + sz - vma, p);
      }
      assert Reached(vma, pages, addr, sz) == pages + reached;
    }
  }

  class StackBase {
    const vma: nat
    var lastChecked: nat
    ghost var pages: set<nat>

    constructor (vma: nat)
      ensures this.vma == vma && lastChecked == 0 && pages == {}
    {
      this.vma, lastChecked, pages := vma, 0, {};
    }

    method CheckAccess(addr: nat, sz: nat)
      requires vma <= addr
      modifies this
      ensures (lastChecked, pages) == Checked(vma, old(lastChecked), old(pages), addr, sz)
      ensures lastChecked == addr - addr % 4096
      ensures sz > 0 && old(lastChecked) != addr - addr % 4096 ==>
                pages == old(pages) + Touched(addr - vma, addr + sz - vma)
      ensures old(lastChecked) == addr - addr % 4096 ==> pages == old(pages)
    {
      ReachedIsTouching(vma, pages, addr, sz);
      if lastChecked != Trunc(addr) {
        var offs := Trunc(addr - vma);
        var end := Round(addr + sz - vma);
        pages := Allocate(pages, offs, end - offs);
        lastChecked := Trunc(addr);
      }
    }
  }

  // Runs of pushes

  /** The stack pointer, the remembered page, and the pages allocated so far. */
  datatype State = State(sp: nat, last: nat, pages: set<nat>)

  /** Pushes that do not run below the bottom of the mapping. */
  ghost predicate Fit(vma: nat, sp: nat, sizes: seq<nat>)
    decreases |sizes|
  {
    sizes == [] || (vma + sizes[0] <= sp && Fit(vma, sp - sizes[0], sizes[1..]))
  }

  /** That is, together they fit. */
  lemma {:induction false} FitTogether(vma: nat, sp: nat, sizes: seq<nat>)
    requires vma <= sp
    ensures Fit(vma, sp, sizes) <==> vma + Total(sizes) <= sp
    decreases |sizes|
  {
    if sizes != [] && vma + sizes[0] <= sp {
      FitTogether(vma, sp - sizes[0], sizes[1..]);
    }
  }

  ghost function Total(sizes: seq<nat>): nat {
    if sizes == [] then 0 else sizes[0] + Total(sizes[1..])
  }

  /** Pushes, each checked at its new stack pointer. */
  ghost function Pushed(vma: nat, s: State, sizes: seq<nat>): State
    requires Fit(vma, s.sp, sizes)
    decreases |sizes|
  {
    if sizes == [] then s
    else
      var sp := s.sp - sizes[0];
      var c := Checked(vma, s.last, s.pages, sp, sizes[0]);
      Pushed(vma, State(sp, c.0, c.1), sizes[1..])
  }

  /** The same pushes without the shortcut. */
  ghost function PushedPlainly(vma: nat, sp: nat, pages: set<nat>, sizes: seq<nat>): set<nat>
    requires Fit(vma, sp, sizes)
    decreases |sizes|
  {
    if sizes == [] then pages
    else PushedPlainly(vma, sp - sizes[0], Reached(vma, pages, sp - sizes[0], sizes[0]), sizes[1..])
  }

  /** Where the stack pointer is after the pushes. */
  ghost function Down(vma: nat, sp: nat, sizes: seq<nat>): (r: nat)
    requires Fit(vma, sp, sizes)
    ensures r <= sp && (vma <= sp ==> vma <= r)
    decreases |sizes|
  {
    if sizes == [] then sp else Down(vma, sp - sizes[0], sizes[1..])
  }

  lemma TouchedIs(from: nat, to: nat, p: nat)
    ensures p in Touched(from, to) <==> from < to && from / PAGE <= p <= (to - 1) / PAGE
  {
    if from < to && from / PAGE <= p <= (to - 1) / PAGE {
      var a := if p == from / PAGE then from else p * PAGE;
      assert from <= a < to && a / PAGE == p;
    }
  }

  /** Reaching [sp, sp + n) below a used part [sp + n, top) leaves exactly the pages of the larger used part. */
  lemma ReachedIsTouched(vma: nat, top: nat, sp: nat, n: nat)
    requires vma % PAGE == 0 && top % PAGE == 0 && vma <= sp && sp + n <= top
    ensures Reached(vma, Touched(sp + n - vma, top - vma), sp, n) == Touched(sp - vma, top - vma)
  {
    var before, after := Touched(sp + n - vma, top - vma), Touched(sp - vma, top - vma);
    var r := Reached(vma, before, sp, n);
    forall p: nat ensures p in r <==> p in after {
      TouchedIs(sp + n - vma, top - vma, p);
      TouchedIs(sp - vma, top - vma, p);
    }
  }

  lemma TruncOfTop(top: nat, n: nat)
    requires top % PAGE == 0 && n <= top
    ensures Trunc(top - n) == Trunc(top) ==> n == 0
    ensures Trunc(top - n) == 0 <==> top - n < PAGE
  {
  }

  /** A push within the page that was remembered touches no new page. */
  lemma SamePage(vma: nat, top: nat, sp: nat, n: nat)
    requires vma % PAGE == 0 && top % PAGE == 0 && vma <= sp && sp + n <= top
    requires Trunc(sp) == Trunc(sp + n)
    ensures Touched(sp - vma, top - vma) == Touched(sp + n - vma, top - vma)
  {
    if sp + n == top {
      TruncOfTop(top, n);
    }
    var before, after := Touched(sp + n - vma, top - vma), Touched(sp - vma, top - vma);
    forall p: nat ensures p in before <==> p in after {
      TouchedIs(sp + n - vma, top - vma, p);
      TouchedIs(sp - vma, top - vma, p);
    }
  }

  lemma {:induction false} PlainlyTouched(vma: nat, top: nat, sp: nat, sizes: seq<nat>)
    requires vma % PAGE == 0 && top % PAGE == 0 && vma <= sp <= top && Fit(vma, sp, sizes)
    ensures PushedPlainly(vma, sp, Touched(sp - vma, top - vma), sizes)
         == Touched(Down(vma, sp, sizes) - vma, top - vma)
    decreases |sizes|
  {
    hide Touched, Reached;
    if sizes != [] {
      ReachedIsTouched(vma, top, sp - sizes[0], sizes[0]);
      PlainlyTouched(vma, top, sp - sizes[0], sizes[1..]);
    }
  }

  ghost function Pushed1(vma: nat, s: State, n: nat): State
    requires vma + n <= s.sp
  {
    var c := Checked(vma, s.last, s.pages, s.sp - n, n);
    State(s.sp - n, c.0, c.1)
  }

  /** Once a page is remembered it is the page of the stack pointer, and the used part is allocated. */
  ghost predicate Sound(vma: nat, top: nat, s: State) {
    vma <= s.sp <= top && s.last == Trunc(s.sp) && s.pages == Touched(s.sp - vma, top - vma)
  }

  lemma SoundPush(vma: nat, top: nat, s: State, n: nat)
    requires vma % PAGE == 0 && top % PAGE == 0 && vma + n <= s.sp <= top
    requires Sound(vma, top, s) || (s.sp == top && s.pages == {} && Trunc(s.sp - n) != s.last)
    ensures Sound(vma, top, Pushed1(vma, s, n))
  {
    assert s.sp == top ==> Touched(s.sp - vma, top - vma) == {};
    hide Touched, Reached, Trunc;
    ReachedIsTouched(vma, top, s.sp - n, n);
    if s.last == Trunc(s.sp - n) {
      SamePage(vma, top, s.sp - n, n);
    }
  }

  lemma {:induction false} SoundPushes(vma: nat, top: nat, s: State, sizes: seq<nat>)
    requires vma % PAGE == 0 && top % PAGE == 0 && Sound(vma, top, s) && Fit(vma, s.sp, sizes)
    ensures Sound(vma, top, Pushed(vma, s, sizes)) && Pushed(vma, s, sizes).sp == Down(vma, s.sp, sizes)
    decreases |sizes|
  {
    if sizes != [] {
      SoundPush(vma, top, s, sizes[0]);
      SoundPushes(vma, top, Pushed1(vma, s, sizes[0]), sizes[1..]);
    }
  }

  /** As long as nothing but page 0 has been reached, the check believes page 0 was looked at. */
  lemma {:induction false} PageZeroIsNeverAllocated(vma: nat, s: State, sizes: seq<nat>)
    requires Fit(vma, s.sp, sizes) && s.sp < PAGE && s.last == 0
    ensures Pushed(vma, s, sizes).pages == s.pages
    decreases |sizes|
  {
    if sizes != [] {
      PageZeroIsNeverAllocated(vma, Pushed1(vma, s, sizes[0]), sizes[1..]);
    }
  }

  lemma FirstPushAbove(vma: nat, top: nat, sizes: seq<nat>)
    requires vma % PAGE == 0 && top % PAGE == 0 && Fit(vma, top, sizes) && vma <= top
    requires sizes != [] && Trunc(top - sizes[0]) != 0
    ensures Pushed(vma, State(top, 0, {}), sizes).pages == Touched(Down(vma, top, sizes) - vma, top - vma)
  {
    hide Touched, Checked, Trunc;
    SoundPush(vma, top, State(top, 0, {}), sizes[0]);
    SoundPushes(vma, top, Pushed1(vma, State(top, 0, {}), sizes[0]), sizes[1..]);
  }

  lemma FirstPushInPageZero(vma: nat, top: nat, sizes: seq<nat>)
    requires vma % PAGE == 0 && top % PAGE == 0 && 0 < top && Fit(vma, top, sizes) && vma <= top
    requires sizes != [] && Trunc(top - sizes[0]) == 0
    ensures Pushed(vma, State(top, 0, {}), sizes).pages == {}
    ensures Touched(Down(vma, top, sizes) - vma, top - vma) != {}
  {
    TruncOfTop(top, sizes[0]);
    assert Checked(vma, 0, {}, top - sizes[0], sizes[0]) == (0, {});
    hide Touched, Checked, Trunc;
    PageZeroIsNeverAllocated(vma, State(top - sizes[0], 0, {}), sizes[1..]);
    assert Down(vma, top, sizes) < top;
    TouchedIs(Down(vma, top, sizes) - vma, top - vma, (Down(vma, top, sizes) - vma) / PAGE);
  }

  /** For every run of pushes from the top of a fresh page-aligned stack: the shortcut allocates exactly the
      pages that allocating at every push would, if and only if the first push does not land in page 0. */
  lemma ShortcutIsSound(vma: nat, top: nat, sizes: seq<nat>)
    requires vma % PAGE == 0 && top % PAGE == 0 && 0 < top && Fit(vma, top, sizes) && vma <= top
    ensures Pushed(vma, State(top, 0, {}), sizes).pages == PushedPlainly(vma, top, {}, sizes)
       <==> (sizes == [] || Trunc(top - sizes[0]) != 0)
  {
    assert Touched(top - vma, top - vma) == {};
    PlainlyTouched(vma, top, top, sizes);
    if sizes != [] {
      hide Touched, Trunc, Pushed, PushedPlainly, Down;
      if Trunc(top - sizes[0]) != 0 {
        FirstPushAbove(vma, top, sizes);
      } else {
        FirstPushInPageZero(vma, top, sizes);
      }
    }
  }

  /** Above page 0, every page that touches the used part of the stack has been allocated, and no other. */
  lemma UsedPartIsAllocated(vma: nat, top: nat, sizes: seq<nat>)
    requires vma % PAGE == 0 && top % PAGE == 0 && PAGE <= vma <= top && Fit(vma, top, sizes)
    ensures var s := Pushed(vma, State(top, 0, {}), sizes);
            && vma <= s.sp <= top
            && forall p :: p in s.pages <==> exists a: nat :: s.sp - vma <= a < top - vma && a / PAGE == p
  {
    assert Touched(top - vma, top - vma) == {};
    if sizes != [] {
      SoundPush(vma, top, State(top, 0, {}), sizes[0]);
      SoundPushes(vma, top, Pushed1(vma, State(top, 0, {}), sizes[0]), sizes[1..]);
    }
  }
}
