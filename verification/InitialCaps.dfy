/**
 Initial capabilities of a new task, in lua_exec.cc: one traversal of the Lua `caps` table records names and
 slots for the task, a second one maps the capabilities. Both count slots on their own.
 */
module InitialCaps {

  /** A capability as a script holds it. */
  datatype Cap = Cap(index: int, rights: int, extRights: int)

  /** A value in the table. A function is called, possibly again on its own result, until something else comes
      out; as it may do anything, what it answers the first traversal and the second are kept apart. */
  datatype Value =
    | Nil
    | Plain
    | CapData(cap: Cap)
    | OtherData
    | Function(first: Value, second: Value)

  datatype Key = Name(name: string) | NotAString

  datatype Item = Item(key: Key, value: Value)

  /** The `caps` field of the configuration. */
  datatype Field = Missing | Table(items: seq<Item>)

  datatype Error = NoString | NameTooLong | NotACap | MapRefused

  datatype Result<T> = Ok(value: T) | Err(error: Error)

  datatype Pass = Recording | Mapping

  /** What a task is told: a name and the slot to find the capability in. */
  datatype Record = Record(name: string, slot: int)

  /** What the kernel is told: which slot receives which capability, and for which name it was done. */
  datatype Grant = Grant(name: string, slot: int, cap: Cap)

  // What one item comes to

  /** What a function answers in a traversal. */
  function Answer(v: Value, pass: Pass): Value
    requires v.Function?
  {
    match pass
    case Recording => v.first
    case Mapping => v.second
  }

  /** Calling as long as there is something to call ends in w. */
  ghost predicate EndsIn(v: Value, pass: Pass, w: Value) {
    !w.Function? && exists calls: seq<Value> :: Calls(calls, pass) && calls[0] == v && calls[|calls| - 1] == w
  }

  ghost predicate Calls(calls: seq<Value>, pass: Pass) {
    && calls != []
    && forall i :: 0 <= i < |calls| - 1 ==> calls[i].Function? && calls[i + 1] == Answer(calls[i], pass)
  }

  /** A value that ends in a capability. */
  ghost predicate IsCapIn(v: Value, pass: Pass) {
    exists cap :: EndsIn(v, pass, CapData(cap))
  }

  /** The traversals' own loop finds exactly that end. */
  lemma {:induction false} EndIsCalled(v: Value, pass: Pass)
    ensures forall w :: EndsIn(v, pass, w) <==> w == Called(v, pass)
    ensures IsCapIn(v, pass) <==> Called(v, pass).CapData?
  {
    if v.Function? {
      var next := Answer(v, pass);
      EndIsCalled(next, pass);
      forall w ensures EndsIn(v, pass, w) <==> EndsIn(next, pass, w) {
        OneCallMore(v, pass, w);
      }
    } else {
      assert Calls([v], pass) && [v][0] == v == [v][|[v]| - 1];
      forall w | EndsIn(v, pass, w) ensures w == v {
        var calls: seq<Value> :| Calls(calls, pass) && calls[0] == v && calls[|calls| - 1] == w;
      }
    }
    assert Called(v, pass).CapData? ==> EndsIn(v, pass, CapData(Called(v, pass).cap));
  }

  lemma OneCallMore(v: Value, pass: Pass, w: Value)
    requires v.Function?
    ensures EndsIn(v, pass, w) <==> EndsIn(Answer(v, pass), pass, w)
  {
    if EndsIn(v, pass, w) {
      var calls: seq<Value> :| Calls(calls, pass) && calls[0] == v && calls[|calls| - 1] == w;
      var rest: seq<Value> := calls[1..];
      forall i | 0 <= i < |rest| - 1 ensures rest[i].Function? && rest[i + 1] == Answer(rest[i], pass) {
        assert rest[i] == calls[i + 1] && rest[i + 1] == calls[i + 1 + 1];
      }
      assert Calls(rest, pass) && rest[0] == Answer(v, pass) && rest[|rest| - 1] == w;
    }
    if EndsIn(Answer(v, pass), pass, w) {
      var rest: seq<Value> :| Calls(rest, pass) && rest[0] == Answer(v, pass) && rest[|rest| - 1] == w;
      var calls: seq<Value> := [v] + rest;
      forall i | 0 <= i < |calls| - 1 ensures calls[i].Function? && calls[i + 1] == Answer(calls[i], pass) {
        assert i > 0 ==> calls[i] == rest[i - 1] && calls[i + 1] == rest[i - 1 + 1];
      }
      assert Calls(calls, pass) && calls[0] == v && calls[|calls| - 1] == w;
    }
  }

  function Called(v: Value, pass: Pass): (r: Value)
    ensures !r.Function?
  {
    if v.Function? then Called(if pass == Recording then v.first else v.second, pass) else v
  }

  /** The capabilities a traversal finds, with their names, in table order, or the error it stops at. Only
      the recording traversal objects to long names. */
  ghost function Found(table: seq<Item>, pass: Pass, limit: nat): Result<seq<(string, Cap)>> {
    if table == [] then Ok([])
    else if table[0].key.NotAString? then Err(NoString)
    else if pass == Recording && |table[0].key.name| > limit then Err(NameTooLong)
    else match Called(table[0].value, pass)
      case OtherData => Err(NotACap)
      case CapData(cap) =>
        var rest := Found(table[1..], pass, limit);
        if rest.Err? then rest else Ok([(table[0].key.name, cap)] + rest.value)
      case _ => Found(table[1..], pass, limit)
  }

  /** The capabilities a traversal comes across before the end of the table or the item it objects to. */
  ghost function Taken(table: seq<Item>, pass: Pass, limit: nat): seq<(string, Cap)> {
    if table == [] || table[0].key.NotAString? || (pass == Recording && |table[0].key.name| > limit) then []
    else match Called(table[0].value, pass)
      case OtherData => []
      case CapData(cap) => [(table[0].key.name, cap)] + Taken(table[1..], pass, limit)
      case _ => Taken(table[1..], pass, limit)
  }

  lemma {:induction false} FoundIsTaken(table: seq<Item>, pass: Pass, limit: nat)
    ensures Found(table, pass, limit).Ok? ==> Found(table, pass, limit).value == Taken(table, pass, limit)
  {
    if table != [] {
      FoundIsTaken(table[1..], pass, limit);
    }
  }

  ghost function Items(field: Field): seq<Item> {
    if field.Missing? then [] else field.items
  }

  ghost function Records(found: seq<(string, Cap)>, start: int, step: int): seq<Record> {
    seq(|found|, i requires 0 <= i < |found| => Record(found[i].0, start + i * step))
  }

  ghost function Grants(found: seq<(string, Cap)>, start: int, step: int): seq<Grant> {
    seq(|found|, i requires 0 <= i < |found| => Grant(found[i].0, start + i * step, found[i].1))
  }

  /** How many capabilities are mapped before the kernel refuses one, or all of them. */
  ghost function Admitted(found: seq<(string, Cap)>, start: int, step: int, refuses: int -> bool): (n: nat)
    ensures n <= |found|
  {
    if found == [] || refuses(start) then 0 else 1 + Admitted(found[1..], start + step, step, refuses)
  }

  // The two traversals

  method PushInitialCaps(field: Field, start: int, step: int, limit: nat)
    returns (records: seq<Record>, result: Result<int>)
    ensures records == Records(Taken(Items(field), Recording, limit), start, step)
    ensures match Found(Items(field), Recording, limit)
            case Err(e) => result == Err(e)
            case Ok(_) => result == Ok(start + |records| * step)
  {
    if field.Missing? {
      return [], Ok(start);
    }
    var caps := field.items;
    records := [];
    var slot := start;
    var k := 0;
    ghost var done: seq<(string, Cap)> := [];
    hide StillFinds, Taken, Found, Admitted, Records;
    StartsFinding(caps, Recording, limit);
    while k < |caps|
      invariant 0 <= k <= |caps| && slot == start + |done| * step
      invariant |records| == |done| && records == Records(done, start, step)
      invariant StillFinds(caps, Recording, limit, k, done)
    {
      FindsNext(caps, Recording, limit, k, done);
      var key := caps[k].key;
      if key.NotAString? {
        return records, Err(NoString);
      }
      if |key.name| > limit {
        return records, Err(NameTooLong);
      }
      var v := caps[k].value;
      while v.Function?
        invariant Called(v, Recording) == Called(caps[k].value, Recording)
        decreases v
      {
        v := v.first;
      }
      if v.CapData? || v.OtherData? {
        if v.OtherData? {
          return records, Err(NotACap);
        }
        OneMore(done, (key.name, v.cap), start, step);
        records := records + [Record(key.name, slot)];
        slot := slot + step;
        done := done + [(key.name, v.cap)];
      }
      k := k + 1;
    }
    EndsFinding(caps, Recording, limit, done);
    result := Ok(slot);
  }

  /** `refuses` says for which slots the kernel will not map. */
  method MapInitialCaps(field: Field, start: int, step: int, limit: nat, refuses: int -> bool)
    returns (grants: seq<Grant>, result: Result<()>)
    ensures var taken := Taken(Items(field), Mapping, limit);
            var n := Admitted(taken, start, step, refuses);
            && grants == Grants(taken[..n], start, step)
            && result == if n < |taken| then Err(MapRefused) else match Found(Items(field), Mapping, limit)
                                                                  case Err(e) => Err(e)
                                                                  case Ok(_) => Ok(())
  {
    if field.Missing? {
      return [], Ok(());
    }
    var caps := field.items;
    grants := [];
    var slot := start;
    var k := 0;
    ghost var done: seq<(string, Cap)> := [];
    hide StillFinds, Taken, Found, Admitted, Grants;
    StartsFinding(caps, Mapping, limit);
    while k < |caps|
      invariant 0 <= k <= |caps| && slot == start + |done| * step
      invariant |grants| == |done| && grants == Grants(done, start, step)
      invariant StillFinds(caps, Mapping, limit, k, done)
      invariant forall i: nat :: i < |done| ==> !refuses(start + i * step)
    {
      FindsNext(caps, Mapping, limit, k, done);
      var key := caps[k].key;
      if key.NotAString? {
        AdmittedAll(done, start, step, refuses);
        assert done[..|done|] == done;
        return grants, Err(NoString);
      }
      var v := caps[k].value;
      while v.Function?
        invariant Called(v, Mapping) == Called(caps[k].value, Mapping)
        decreases v
      {
        v := v.second;
      }
      if v.CapData? || v.OtherData? {
        if v.OtherData? {
          AdmittedAll(done, start, step, refuses);
          assert done[..|done|] == done;
          return grants, Err(NotACap);
        }
        if refuses(slot) {
          AdmittedUpTo(Taken(caps, Mapping, limit), start, step, refuses, |done|);
          return grants, Err(MapRefused);
        }
        OneMore(done, (key.name, v.cap), start, step);
        grants := grants + [Grant(key.name, slot, v.cap)];
        slot := slot + step;
        done := done + [(key.name, v.cap)];
      }
      k := k + 1;
    }
    EndsFinding(caps, Mapping, limit, done);
    AdmittedAll(done, start, step, refuses);
    assert done[..|done|] == done;
    result := Ok(());
  }

  /** After k items, `done` has been found and the rest of the table decides the rest. */
  ghost predicate StillFinds(table: seq<Item>, pass: Pass, limit: nat, k: nat, done: seq<(string, Cap)>) {
    && k <= |table|
    && Taken(table, pass, limit) == done + Taken(table[k..], pass, limit)
    && Failure(Found(table, pass, limit)) == Failure(Found(table[k..], pass, limit))
  }

  ghost function Failure<T>(r: Result<T>): Result<()> {
    match r
    case Ok(_) => Ok(())
    case Err(e) => Err(e)
  }

  lemma FindsNext(table: seq<Item>, pass: Pass, limit: nat, k: nat, done: seq<(string, Cap)>)
    requires k < |table| && StillFinds(table, pass, limit, k, done)
    ensures var all, taken := Failure(Found(table, pass, limit)), Taken(table, pass, limit);
            var key, v := table[k].key, Called(table[k].value, pass);
            if key.NotAString? then all == Err(NoString) && taken == done
            else if pass == Recording && |key.name| > limit then all == Err(NameTooLong) && taken == done
            else if v.OtherData? then all == Err(NotACap) && taken == done
            else if v.CapData? then
              && StillFinds(table, pass, limit, k + 1, done + [(key.name, v.cap)])
              && |done| < |taken| && taken[..|done|] == done
            else StillFinds(table, pass, limit, k + 1, done)
  {
    var rest := table[k..];
    assert rest[1..] == table[k + 1..] && rest[0] == table[k];
    FirstItem(rest, pass, limit);
    hide Taken, Found, Called;
    if table[k].key.Name? && Called(table[k].value, pass).CapData? {
      var x := (table[k].key.name, Called(table[k].value, pass).cap);
      assert done + ([x] + Taken(rest[1..], pass, limit)) == (done + [x]) + Taken(rest[1..], pass, limit);
    }
  }

  lemma FirstItem(table: seq<Item>, pass: Pass, limit: nat)
    requires table != []
    ensures var all, taken := Failure(Found(table, pass, limit)), Taken(table, pass, limit);
            var rest, later := Failure(Found(table[1..], pass, limit)), Taken(table[1..], pass, limit);
            var key, v := table[0].key, Called(table[0].value, pass);
            if key.NotAString? then all == Err(NoString) && taken == []
            else if pass == Recording && |key.name| > limit then all == Err(NameTooLong) && taken == []
            else if v.OtherData? then all == Err(NotACap) && taken == []
            else all == rest && taken == (if v.CapData? then [(key.name, v.cap)] else []) + later
  {
  }

  lemma StartsFinding(table: seq<Item>, pass: Pass, limit: nat)
    ensures StillFinds(table, pass, limit, 0, [])
  {
    assert table[0..] == table;
  }

  lemma EndsFinding(table: seq<Item>, pass: Pass, limit: nat, done: seq<(string, Cap)>)
    requires StillFinds(table, pass, limit, |table|, done)
    ensures Taken(table, pass, limit) == done && Found(table, pass, limit).Ok?
  {
  }

  lemma OneMore(done: seq<(string, Cap)>, x: (string, Cap), start: int, step: int)
    ensures Records(done + [x], start, step) == Records(done, start, step) + [Record(x.0, start + |done| * step)]
    ensures Grants(done + [x], start, step) == Grants(done, start, step) + [Grant(x.0, start + |done| * step, x.1)]
    ensures |Records(done, start, step)| == |done| == |Grants(done, start, step)|
    ensures start + |done + [x]| * step == start + |done| * step + step
  {
  }

  lemma {:induction false} AdmittedUpTo(found: seq<(string, Cap)>, start: int, step: int, refuses: int -> bool, n: nat)
    requires n < |found| && refuses(start + n * step)
    requires forall i: nat :: i < n ==> !refuses(start + i * step)
    ensures Admitted(found, start, step, refuses) == n
  {
    if n > 0 {
      assert !refuses(start + 0 * step);
      forall i: nat | i < n - 1 ensures !refuses(start + step + i * step) {
        assert start + (i + 1) * step == start + step + i * step;
      }
      assert start + step + (n - 1) * step == start + n * step;
      AdmittedUpTo(found[1..], start + step, step, refuses, n - 1);
    }
  }

  lemma {:induction false} AdmittedAll(found: seq<(string, Cap)>, start: int, step: int, refuses: int -> bool)
    requires forall i: nat :: i < |found| ==> !refuses(start + i * step)
    ensures Admitted(found, start, step, refuses) == |found|
  {
    if found != [] {
      assert !refuses(start + 0 * step);
      forall i: nat | i < |found| - 1 ensures !refuses(start + step + i * step) {
        assert start + (i + 1) * step == start + step + i * step;
      }
      AdmittedAll(found[1..], start + step, step, refuses);
    }
  }

  // What decides the result of a traversal

  ghost predicate Accepted(key: Key, pass: Pass, limit: nat) {
    key.Name? && (pass == Recording ==> |key.name| <= limit)
  }

  /** Calling a function on the spot changes nothing: what it answers in this traversal is taken in its place. */
  lemma {:induction false} AnswerTakesItsPlace(table: seq<Item>, pass: Pass, limit: nat, k: nat)
    requires k < |table| && table[k].value.Function?
    ensures var answered :=
              table[k := Item(table[k].key, if pass == Recording then table[k].value.first else table[k].value.second)];
            && Found(answered, pass, limit) == Found(table, pass, limit)
            && Taken(answered, pass, limit) == Taken(table, pass, limit)
  {
    var answer := if pass == Recording then table[k].value.first else table[k].value.second;
    var answered := table[k := Item(table[k].key, answer)];
    if k == 0 {
      assert answered[1..] == table[1..];
    } else {
      AnswerTakesItsPlace(table[1..], pass, limit, k - 1);
      assert answered[1..] == table[1..][k - 1 := Item(table[k].key, answer)];
    }
  }

  /** An item that is no capability and no other userdata might as well not be there. */
  lemma {:induction false} OthersArePassedOver(table: seq<Item>, pass: Pass, limit: nat, k: nat)
    requires k < |table| && Accepted(table[k].key, pass, limit) && (table[k].value.Nil? || table[k].value.Plain?)
    ensures Found(table[..k] + table[k + 1..], pass, limit) == Found(table, pass, limit)
    ensures Taken(table[..k] + table[k + 1..], pass, limit) == Taken(table, pass, limit)
  {
    var without := table[..k] + table[k + 1..];
    if k == 0 {
      assert without == table[1..];
    } else {
      OthersArePassedOver(table[1..], pass, limit, k - 1);
      assert without[0] == table[0] && without[1..] == table[1..][..k - 1] + table[1..][k..];
    }
  }

  /** A capability with a name is taken as it is; anything else in front that is userdata, or a key that will not
      do, stops the traversal. */
  lemma FirstDecides(item: Item, rest: seq<Item>, pass: Pass, limit: nat)
    ensures Accepted(item.key, pass, limit) && item.value.CapData? ==>
              && Taken([item] + rest, pass, limit) == [(item.key.name, item.value.cap)] + Taken(rest, pass, limit)
              && Failure(Found([item] + rest, pass, limit)) == Failure(Found(rest, pass, limit))
    ensures Accepted(item.key, pass, limit) && item.value.OtherData? ==>
              Found([item] + rest, pass, limit) == Err(NotACap)
    ensures item.key.NotAString? ==> Found([item] + rest, pass, limit) == Err(NoString)
    ensures item.key.Name? && !Accepted(item.key, pass, limit) ==>
              Found([item] + rest, pass, limit) == Err(NameTooLong)
    ensures !Accepted(item.key, pass, limit) || item.value.OtherData? ==> Taken([item] + rest, pass, limit) == []
    ensures Found([], pass, limit) == Ok([]) && Taken([], pass, limit) == []
  {
    assert ([item] + rest)[1..] == rest;
  }

  // Do the two traversals agree?

  /** A Lua table has one value for a key. */
  ghost predicate DistinctKeys(table: seq<Item>) {
    forall i, j :: 0 <= i < j < |table| ==> table[i].key != table[j].key
  }

  ghost function NamesOf(found: seq<(string, Cap)>): seq<string> {
    seq(|found|, i requires 0 <= i < |found| => found[i].0)
  }

  ghost predicate ComesToCap(v: Value, pass: Pass) {
    Called(v, pass).CapData?
  }

  lemma {:induction false} FoundIsFromTable(table: seq<Item>, pass: Pass, limit: nat, i: nat)
    requires Found(table, pass, limit).Ok? && i < |Found(table, pass, limit).value|
    ensures var found := Found(table, pass, limit).value;
            exists k :: 0 <= k < |table| && table[k].key == Name(found[i].0)
                        && Called(table[k].value, pass) == CapData(found[i].1)
  {
    var found := Found(table, pass, limit).value;
    if ComesToCap(table[0].value, pass) && i == 0 {
      assert table[0].key == Name(found[0].0);
    } else {
      FoundIsFromTable(table[1..], pass, limit, if ComesToCap(table[0].value, pass) then i - 1 else i);
      var rest := table[1..];
      var k :| 0 <= k < |rest| && rest[k].key == Name(found[i].0) && Called(rest[k].value, pass) == CapData(found[i].1);
      assert table[k + 1] == rest[k];
    }
  }

  lemma {:induction false} TableIsFound(table: seq<Item>, pass: Pass, limit: nat, k: nat)
    requires Found(table, pass, limit).Ok? && k < |table| && ComesToCap(table[k].value, pass)
    ensures table[k].key.Name?
    ensures var found := Found(table, pass, limit).value;
            exists i :: 0 <= i < |found| && found[i] == (table[k].key.name, Called(table[k].value, pass).cap)
  {
    var found := Found(table, pass, limit).value;
    if k == 0 {
      assert found[0].0 == table[0].key.name;
    } else {
      TableIsFound(table[1..], pass, limit, k - 1);
      var rest := Found(table[1..], pass, limit).value;
      var i :| 0 <= i < |rest| && rest[i] == (table[k].key.name, Called(table[k].value, pass).cap);
      assert found[if ComesToCap(table[0].value, pass) then i + 1 else i] == rest[i];
    }
  }

  /** The two traversals number the same names alike exactly when they take the same values for capabilities:
      a single function that changes its mind shifts every slot behind it. */
  lemma NumberedAlike(table: seq<Item>, limit: nat)
    requires Found(table, Recording, limit).Ok? && Found(table, Mapping, limit).Ok? && DistinctKeys(table)
    ensures NamesOf(Found(table, Recording, limit).value) == NamesOf(Found(table, Mapping, limit).value)
       <==> forall k :: 0 <= k < |table| ==> (IsCapIn(table[k].value, Recording) <==> IsCapIn(table[k].value, Mapping))
  {
    NumberedAlikeCalled(table, limit);
    forall k | 0 <= k < |table|
      ensures IsCapIn(table[k].value, Recording) <==> ComesToCap(table[k].value, Recording)
      ensures IsCapIn(table[k].value, Mapping) <==> ComesToCap(table[k].value, Mapping) {
      EndIsCalled(table[k].value, Recording);
      EndIsCalled(table[k].value, Mapping);
    }
  }

  lemma {:induction false} NumberedAlikeCalled(table: seq<Item>, limit: nat)
    requires Found(table, Recording, limit).Ok? && Found(table, Mapping, limit).Ok? && DistinctKeys(table)
    ensures NamesOf(Found(table, Recording, limit).value) == NamesOf(Found(table, Mapping, limit).value)
       <==> forall k :: 0 <= k < |table| ==>
              (ComesToCap(table[k].value, Recording) <==> ComesToCap(table[k].value, Mapping))
  {
    if table != [] {
      var rest := table[1..];
      NumberedAlikeCalled(rest, limit);
      HeadOfNames(table, Recording, limit);
      HeadOfNames(table, Mapping, limit);
      var r, m := NamesOf(Found(rest, Recording, limit).value), NamesOf(Found(rest, Mapping, limit).value);
      if ComesToCap(table[0].value, Recording) != ComesToCap(table[0].value, Mapping) {
        NamesNotFirst(table, Recording, limit);
        NamesNotFirst(table, Mapping, limit);
      } else {
        assert forall k :: 0 <= k < |rest| ==> rest[k] == table[k + 1];
        assert forall k :: 1 <= k < |table| ==> table[k] == rest[k - 1];
        var first := [table[0].key.name];
        assert first + r == first + m ==> (first + r)[1..] == (first + m)[1..];
      }
    }
  }

  lemma NamesOfMore(x: (string, Cap), rest: seq<(string, Cap)>)
    ensures NamesOf([x] + rest) == [x.0] + NamesOf(rest)
  {
  }

  lemma HeadOfNames(table: seq<Item>, pass: Pass, limit: nat)
    requires table != [] && Found(table, pass, limit).Ok?
    ensures Found(table[1..], pass, limit).Ok? && table[0].key.Name?
    ensures NamesOf(Found(table, pass, limit).value) ==
              (if ComesToCap(table[0].value, pass) then [table[0].key.name] else [])
              + NamesOf(Found(table[1..], pass, limit).value)
  {
    var found, rest := Found(table, pass, limit).value, Found(table[1..], pass, limit).value;
    if ComesToCap(table[0].value, pass) {
      assert found == [(table[0].key.name, Called(table[0].value, pass).cap)] + rest;
      NamesOfMore((table[0].key.name, Called(table[0].value, pass).cap), rest);
    }
    hide Found, NamesOf;
  }

  lemma NamesNotFirst(table: seq<Item>, pass: Pass, limit: nat)
    requires table != [] && DistinctKeys(table) && table[0].key.Name?
    requires Found(table, pass, limit).Ok? && Found(table[1..], pass, limit).Ok?
    ensures table[0].key.name !in NamesOf(Found(table[1..], pass, limit).value)
  {
    var found := Found(table[1..], pass, limit).value;
    forall i | 0 <= i < |found| ensures found[i].0 != table[0].key.name {
      FoundIsFromTable(table[1..], pass, limit, i);
    }
  }

  /** A table whose values end in the same both times. */
  ghost predicate ResolvesAlike(table: seq<Item>) {
    forall k, w :: 0 <= k < |table| ==> (EndsIn(table[k].value, Recording, w) <==> EndsIn(table[k].value, Mapping, w))
  }

  ghost predicate CalledAlike(table: seq<Item>) {
    forall k :: 0 <= k < |table| ==> Called(table[k].value, Recording) == Called(table[k].value, Mapping)
  }

  lemma AlikeIsCalledAlike(table: seq<Item>)
    requires ResolvesAlike(table)
    ensures CalledAlike(table)
  {
    forall k | 0 <= k < |table| ensures Called(table[k].value, Recording) == Called(table[k].value, Mapping) {
      EndIsCalled(table[k].value, Recording);
      EndIsCalled(table[k].value, Mapping);
      assert EndsIn(table[k].value, Recording, Called(table[k].value, Recording));
    }
  }

  lemma {:induction false} FoundAlike(table: seq<Item>, limit: nat)
    requires CalledAlike(table) && Found(table, Recording, limit).Ok?
    ensures Found(table, Mapping, limit) == Found(table, Recording, limit)
  {
    if table != [] {
      assert Called(table[0].value, Recording) == Called(table[0].value, Mapping);
      assert forall k :: 0 <= k < |table[1..]| ==> table[1..][k] == table[k + 1];
      assert Found(table[1..], Recording, limit).Ok?;
      FoundAlike(table[1..], limit);
    }
  }

  lemma {:induction false} NamesAreDistinct(table: seq<Item>, pass: Pass, limit: nat, i: nat, j: nat)
    requires DistinctKeys(table) && Found(table, pass, limit).Ok? && i < j < |Found(table, pass, limit).value|
    ensures Found(table, pass, limit).value[i].0 != Found(table, pass, limit).value[j].0
  {
    var found, rest := Found(table, pass, limit).value, table[1..];
    if !ComesToCap(table[0].value, pass) {
      NamesAreDistinct(rest, pass, limit, i, j);
    } else if i > 0 {
      NamesAreDistinct(rest, pass, limit, i - 1, j - 1);
    } else {
      NamesNotFirst(table, pass, limit);
      assert NamesOf(Found(rest, pass, limit).value)[j - 1] == found[j].0;
    }
  }

  lemma SlotsApart(start: int, step: int, i: nat, j: nat)
    requires step > 0 && i < j
    ensures start + i * step < start + j * step
  {
    assert (j - i) * step > 0;
  }

  /** The table gives a capability this name. */
  ghost predicate Gives(table: seq<Item>, name: string, cap: Cap) {
    exists k :: 0 <= k < |table| && table[k].key == Name(name) && EndsIn(table[k].value, Recording, CapData(cap))
  }

  /** If the table resolves alike, then whenever recording succeeds mapping can only be stopped by the kernel; and
      a slot that is recorded for a name receives the capability the table gives that name, and only that one,
      or nothing if the kernel stopped the mapping before it. */
  lemma SlotsHoldWhatTheyAreNamedFor(table: seq<Item>, start: int, step: int, limit: nat, refuses: int -> bool)
    requires ResolvesAlike(table) && step > 0
    requires Found(table, Recording, limit).Ok?
    ensures Found(table, Mapping, limit).Ok?
    ensures var records, mapped := Records(Taken(table, Recording, limit), start, step), Taken(table, Mapping, limit);
            var grants := Grants(mapped[..Admitted(mapped, start, step, refuses)], start, step);
            && |grants| <= |records| == |mapped|
            && (forall i, j :: 0 <= i < |records| && 0 <= j < |grants| ==>
                 (records[i].slot == grants[j].slot <==> i == j))
            && (forall i :: 0 <= i < |grants| ==> Gives(table, records[i].name, grants[i].cap))
  {
    AlikeIsCalledAlike(table);
    FoundAlike(table, limit);
    FoundIsTaken(table, Recording, limit);
    FoundIsTaken(table, Mapping, limit);
    var found := Taken(table, Recording, limit);
    hide Found, Taken, Admitted;
    forall i, j | 0 <= i < |found| && 0 <= j < |found| && i != j ensures start + i * step != start + j * step {
      SlotsApart(start, step, if i < j then i else j, if i < j then j else i);
    }
    forall i | 0 <= i < |found| ensures Gives(table, found[i].0, found[i].1) {
      FoundIsFromTable(table, Recording, limit, i);
      var k :| 0 <= k < |table| && table[k].key == Name(found[i].0)
               && Called(table[k].value, Recording) == CapData(found[i].1);
      EndIsCalled(table[k].value, Recording);
    }
  }

  /** Every capability of the table is recorded, once; the slots are consecutive from the first, and the index
      handed on is the first unused one. */
  lemma EveryCapHasASlot(table: seq<Item>, start: int, step: int, limit: nat)
    requires DistinctKeys(table) && step > 0 && Found(table, Recording, limit).Ok?
    ensures var records := Records(Taken(table, Recording, limit), start, step);
            && (forall name, cap :: Gives(table, name, cap) ==>
                 exists i :: 0 <= i < |records| && records[i].name == name)
            && (forall i, j :: 0 <= i < j < |records| ==> records[i].name != records[j].name)
            && (forall i :: 0 <= i < |records| ==> records[i].slot == start + i * step < start + |records| * step)
  {
    FoundIsTaken(table, Recording, limit);
    var found := Taken(table, Recording, limit);
    var records := Records(found, start, step);
    hide Found, Taken;
    forall name, cap | Gives(table, name, cap) ensures exists i :: 0 <= i < |records| && records[i].name == name {
      var k :| 0 <= k < |table| && table[k].key == Name(name) && EndsIn(table[k].value, Recording, CapData(cap));
      EndIsCalled(table[k].value, Recording);
      TableIsFound(table, Recording, limit, k);
      var i :| 0 <= i < |found| && found[i] == (name, cap);
      assert records[i].name == name;
    }
    forall i, j | 0 <= i < j < |found| ensures found[i].0 != found[j].0 {
      NamesAreDistinct(table, Recording, limit, i, j);
    }
    forall i | 0 <= i < |found| ensures start + i * step < start + |found| * step {
      SlotsApart(start, step, i, |found|);
    }
  }

  /** Without that, a name can end up on somebody else's capability: here `a` is recorded first, but by the
      time of mapping its function answers nil, and the slot of `a` receives what `b` stands for. */
  lemma AFunctionThatChangesItsMind(cap: Cap, other: Cap, start: int, step: int)
    ensures var table := [Item(Name("a"), Function(CapData(cap), Nil)), Item(Name("b"), CapData(other))];
            && Found(table, Recording, 1).Ok? && Found(table, Mapping, 1).Ok?
            && Records(Taken(table, Recording, 1), start, step) == [Record("a", start), Record("b", start + step)]
            && Grants(Taken(table, Mapping, 1), start, step) == [Grant("b", start, other)]
  {
    var table := [Item(Name("a"), Function(CapData(cap), Nil)), Item(Name("b"), CapData(other))];
    FoundFirst(table[1], [], Recording, 1);
    FoundFirst(table[1], [], Mapping, 1);
    assert [table[1]] + [] == table[1..];
    FoundFirst(table[0], table[1..], Recording, 1);
    assert [table[0]] + table[1..] == table;
    assert Called(table[0].value, Mapping) == Called(Nil, Mapping) == Nil;
    FoundIsTaken(table, Recording, 1);
    FoundIsTaken(table, Mapping, 1);
    hide Taken;
  }

  lemma FoundFirst(item: Item, rest: seq<Item>, pass: Pass, limit: nat)
    requires item.key.Name? && |item.key.name| <= limit && ComesToCap(item.value, pass) && Found(rest, pass, limit).Ok?
    ensures Found([item] + rest, pass, limit)
         == Ok([(item.key.name, Called(item.value, pass).cap)] + Found(rest, pass, limit).value)
  {
    assert ([item] + rest)[1..] == rest;
  }
}
