/**
 Handles of client files, in libc_backend/l4fs.cc: opened by get_entry, closed by close or by the destructor,
 on the one hand; the handles the server has open, on the other.
 */
module FileHandles {
  import opened Bytes
  import opened FileNames
  import FileServer

  const EBADF := 9

  /** The server's handles, each with the number of the opening that made it. Handle numbers are used again. */
  class HandleServer {
    var handles: map<int, nat>
    var opens: nat
    var closes: multiset<nat>

    constructor ()
      ensures handles == map[] && opens == 0 && closes == multiset{}
    {
      handles, opens, closes := map[], 0, multiset{};
    }

    /** open(2): fails, or answers with any number not in use. */
    method Open() returns (fh: int)
      modifies this
      ensures fh < 0 ==> unchanged(this)
      ensures fh >= 0 ==> fh !in old(handles) && handles == old(handles)[fh := old(opens)]
      ensures fh >= 0 ==> opens == old(opens) + 1 && closes == old(closes)
    {
      var refused: bool := *;
      if refused {
        return -1;
      }
      fh := FreeHandle();
      handles, opens := handles[fh := opens], opens + 1;
    }

    method FreeHandle() returns (fh: int)
      ensures fh >= 0 && fh !in handles
    {
      ghost var b := FileServer.UpperBound(handles.Keys);
      assert b !in handles;
      fh :| fh >= 0 && fh !in handles;
    }

    method Close(fh: int) returns (ret: int)
      modifies this
      ensures (handles, closes) == ServerClosed(old(handles), old(closes), fh) && opens == old(opens)
      ensures ret == if fh in old(handles) then 0 else -1
    {
      if fh !in handles {
        return -1;
      }
      closes := closes + multiset{handles[fh]};
      handles := handles - {fh};
      ret := 0;
    }
  }

  function ServerClosed(handles: map<int, nat>, closes: multiset<nat>, fh: int): (map<int, nat>, multiset<nat>) {
    if fh in handles then (handles - {fh}, closes + multiset{handles[fh]}) else (handles, closes)
  }

  class L4fsFileBase {
    const svr: HandleServer
    var fh: int

    constructor (svr: HandleServer, fh: int)
      ensures this.svr == svr && this.fh == fh
    {
      this.svr, this.fh := svr, fh;
    }

    /** Closes the handle, if the file still has one: a second close is answered here. */
    method Close() returns (err: int)
      modifies this, svr
      ensures fh == -1 && svr.opens == old(svr.opens)
      ensures old(fh) < 0 ==> err == -9 && unchanged(svr)
      ensures old(fh) >= 0 ==> err == if old(fh) in old(svr.handles) then 0 else -1
      ensures old(fh) >= 0 ==> (svr.handles, svr.closes) == ServerClosed(old(svr.handles), old(svr.closes), old(fh))
      ensures forall s: State, k: nat ::
                k in s.files && s.files[k] == old(fh)
                && s.handles == old(svr.handles) && s.closes == old(svr.closes) ==>
                  Closed(s, k) == State(svr.handles, s.files[k := fh], s.opens, svr.closes)
    {
      if fh >= 0 {
        err := svr.Close(fh);
      } else {
        err := -EBADF;
      }
      fh := -1;
    }

    method Destroy()
      modifies this, svr
      ensures fh == -1 && svr.opens == old(svr.opens)
      ensures old(fh) < 0 ==> unchanged(svr)
      ensures old(fh) >= 0 ==> (svr.handles, svr.closes) == ServerClosed(old(svr.handles), old(svr.closes), old(fh))
    {
      var _ := Close();
    }
  }

  /** get_entry: a client file for a name, if the server opens it. */
  method GetEntry(svr: HandleServer, word: nat, name: seq<byte>) returns (err: int, file: L4fsFileBase?)
    modifies svr
    ensures err == 0 <==> file != null
    ensures err <= 0
    ensures |name| + 1 > 58 * word ==> err == -36
    ensures file == null ==> unchanged(svr)
    ensures file != null ==> file.svr == svr && file.fh >= 0 && file.fh !in old(svr.handles)
    ensures file != null ==> svr.handles == old(svr.handles)[file.fh := old(svr.opens)]
    ensures file != null ==>
              forall s: State ::
                s.handles == old(svr.handles) && s.opens == old(svr.opens) && s.closes == old(svr.closes) ==>
                  Apply(s, Entry(file.fh)) == State(svr.handles, s.files[s.opens := file.fh], svr.opens, svr.closes)
    ensures file != null ==> svr.opens == old(svr.opens) + 1 && svr.closes == old(svr.closes)
  {
    if TooLong(word, name) {
      return -ENAMETOOLONG, null;
    }
    var fh := svr.Open();
    if fh < 0 {
      return fh, null;
    }
    file := new L4fsFileBase(svr, fh);
    err := 0;
  }

  // Runs

  /** A server and the files a client has not destroyed, by the number of their opening, each with its handle. */
  datatype State = State(handles: map<int, nat>, files: map<nat, int>, opens: nat, closes: multiset<nat>)

  /** `fh` is the server's answer to an opening. */
  datatype Step = Entry(fh: int) | Close(k: nat) | Destroy(k: nat)

  ghost predicate Enabled(s: State, e: Step) {
    match e
    case Entry(fh) => fh !in s.handles
    case Close(k) => k in s.files
    case Destroy(k) => k in s.files
  }

  ghost function Closed(s: State, k: nat): State
    requires k in s.files
  {
    var (handles, closes) :=
      if s.files[k] < 0 then (s.handles, s.closes) else ServerClosed(s.handles, s.closes, s.files[k]);
    State(handles, s.files[k := -1], s.opens, closes)
  }

  ghost function Apply(s: State, e: Step): State
    requires Enabled(s, e)
  {
    match e
    case Entry(fh) =>
      if fh < 0 then s else State(s.handles[fh := s.opens], s.files[s.opens := fh], s.opens + 1, s.closes)
    case Close(k) => Closed(s, k)
    case Destroy(k) => var c := Closed(s, k); c.(files := c.files - {k})
  }

  /** The server has open exactly what files hold, each under the file's own opening, and every opening has been
      closed once, unless its file still holds it. */
  ghost predicate Inv(s: State) {
    && (forall k :: k in s.files ==> k < s.opens && s.files[k] >= -1)
    && (forall k :: k in s.files && s.files[k] >= 0 ==> s.files[k] in s.handles && s.handles[s.files[k]] == k)
    && (forall fh :: fh in s.handles ==> fh >= 0 && s.handles[fh] in s.files && s.files[s.handles[fh]] == fh)
    && (forall k: nat :: s.closes[k] == if k < s.opens && !(k in s.files && s.files[k] >= 0) then 1 else 0)
  }

  lemma EntryKeepsInv(s: State, fh: int)
    requires Inv(s) && fh !in s.handles
    ensures Inv(Apply(s, Entry(fh)))
  {
  }

  lemma CloseKeepsInv(s: State, k: nat)
    requires Inv(s) && k in s.files
    ensures Inv(Closed(s, k)) && k in Closed(s, k).files && Closed(s, k).files[k] == -1
  {
    var c := Closed(s, k);
    forall j: nat ensures c.closes[j] == if j < c.opens && !(j in c.files && c.files[j] >= 0) then 1 else 0 {
    }
  }

  lemma DropKeepsInv(s: State, k: nat)
    requires Inv(s) && k in s.files && s.files[k] == -1
    ensures Inv(s.(files := s.files - {k}))
  {
  }

  lemma StepKeepsInv(s: State, e: Step)
    requires Inv(s) && Enabled(s, e)
    ensures Inv(Apply(s, e))
  {
    hide Inv, Closed;
    match e
    case Entry(fh) => EntryKeepsInv(s, fh);
    case Close(k) => CloseKeepsInv(s, k);
    case Destroy(k) =>
      CloseKeepsInv(s, k);
      DropKeepsInv(Closed(s, k), k);
  }

  ghost predicate Runs(s: State, es: seq<Step>)
    decreases |es|
  {
    es == [] || (Enabled(s, es[0]) && Runs(Apply(s, es[0]), es[1..]))
  }

  ghost function Run(s: State, es: seq<Step>): State
    requires Runs(s, es)
    decreases |es|
  {
    if es == [] then s else Run(Apply(s, es[0]), es[1..])
  }

  lemma {:induction false} RunKeepsInv(s: State, es: seq<Step>)
    requires Inv(s) && Runs(s, es)
    ensures Inv(Run(s, es))
    decreases |es|
  {
    if es != [] {
      StepKeepsInv(s, es[0]);
      RunKeepsInv(Apply(s, es[0]), es[1..]);
    }
  }

  /** After any run of openings, closes and destructions: the open handles are exactly those that files hold;
      no opening has been closed twice; and once its file is destroyed, or closed, it has been closed exactly
      once, also when its handle number is in use again. */
  lemma EveryRunBalances(es: seq<Step>)
    requires Runs(State(map[], map[], 0, multiset{}), es)
    ensures var s := Run(State(map[], map[], 0, multiset{}), es);
            && (forall fh :: fh in s.handles <==> fh >= 0 && exists k :: k in s.files && s.files[k] == fh)
            && (forall j, k :: j in s.files && k in s.files && s.files[j] == s.files[k] >= 0 ==> j == k)
            && (forall k: nat :: s.closes[k] <= 1)
            && (forall k: nat :: k < s.opens && k !in s.files ==> s.closes[k] == 1)
            && (forall k :: k in s.files ==> s.closes[k] == if s.files[k] >= 0 then 0 else 1)
  {
    RunKeepsInv(State(map[], map[], 0, multiset{}), es);
  }
}
