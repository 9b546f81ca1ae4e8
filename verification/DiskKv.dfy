/** The expiring key-value store over an abstract database map. Times are whole seconds. */
module DiskKv {
  import opened Bytes

  /** A stored value; `expire` 0 means it never expires. */
  datatype Value = Value(expire: nat, data: string)

  type Db = map<string, Value>

  // ----- The store -----

  /** `value.c_str()`: the text before the first NUL. */
  function CStr(s: string): (r: string)
    ensures r <= s && '\0' !in r && (r == s <==> '\0' !in s)
  {
    if s == "" || s[0] == '\0' then "" else [s[0]] + CStr(s[1..])
  }

  predicate Live(v: Value, now: nat) {
    v.expire == 0 || v.expire > now
  }

  /** What `put` stores: the expiry is kept in 32 bits. */
  function Stamped(value: string, ttl: nat, now: nat): Value {
    Value(if ttl != 0 then (now + ttl) % TWO_TO_THE_32 else 0, CStr(value))
  }

  /** The entries that are live at `now`. */
  function Visible(db: Db, now: nat): map<string, string> {
    map key | key in db && Live(db[key], now) :: db[key].data
  }

  function Lookup(db: Db, key: string, now: nat): string {
    if key in Visible(db, now) then Visible(db, now)[key] else ""
  }

  datatype Op = Put(key: string, value: string, ttl: nat) | Get(key: string) | Erase(key: string) | Clear | List

  datatype Output = Nothing | Data(data: string) | Items(items: map<string, string>)

  /** One call on the store: a `get` that meets an expired entry erases it. */
  function Apply(db: Db, op: Op, now: nat): (Db, Output) {
    match op
    case Put(key, value, ttl) => (db[key := Stamped(value, ttl, now)], Nothing)
    case Get(key) =>
      if key !in db then (db, Data(""))
      else if Live(db[key], now) then (db, Data(db[key].data))
      else (db - {key}, Data(""))
    case Erase(key) => (db - {key}, Nothing)
    case Clear => (map[], Nothing)
    case List => (db, Items(Visible(db, now)))
  }

  class Store {
    var db: Db

    constructor ()
      ensures db == map[]
    {
      db := map[];
    }

    method DoGet(key: string, now: nat) returns (result: string)
      modifies this
      ensures (db, Data(result)) == Apply(old(db), Get(key), now)
    {
      result := "";
      if key in db {
        if Live(db[key], now) {
          result := db[key].data;
        } else {
          DoErase(key);
        }
      }
    }

    method DoPut(key: string, value: string, ttl: nat, now: nat)
      modifies this
      ensures (db, Nothing) == Apply(old(db), Put(key, value, ttl), now)
    {
      var expire := 0;
      if ttl != 0 {
        expire := (now + ttl) % TWO_TO_THE_32;
      }
      db := db[key := Value(expire, CStr(value))];
    }

    method DoErase(key: string)
      modifies this
      ensures db == old(db) - {key}
    {
      db := db - {key};
    }

    /** Walks over the keys of a snapshot and erases them one by one. */
    method DoClear()
      modifies this
      ensures db == map[]
    {
      var keys := db.Keys;
      while keys != {}
        invariant db.Keys == keys
        decreases keys
      {
        var key :| key in keys;
        DoErase(key);
        keys := keys - {key};
      }
      assert db.Keys == {};
    }

    method DoList(now: nat) returns (items: map<string, string>)
      ensures (db, Items(items)) == Apply(db, List, now)
    {
      items := map[];
      var keys := db.Keys;
      while keys != {}
        invariant keys <= db.Keys
        invariant items == map key | key in db && key !in keys && Live(db[key], now) :: db[key].data
        decreases keys
      {
        var key :| key in keys;
        if Live(db[key], now) {
          items := items[key := db[key].data];
        }
        keys := keys - {key};
      }
      assert items == Visible(db, now);
    }
  }

  // ----- The plain map it stands for -----

  /** A plain map with exact expiry times, from which reading never removes anything. */
  function ApplyPlain(db: Db, op: Op, now: nat): (Db, Output) {
    match op
    case Put(key, value, ttl) => (db[key := Value(if ttl != 0 then now + ttl else 0, value)], Nothing)
    case Get(key) => (db, Data(Lookup(db, key, now)))
    case Erase(key) => (db - {key}, Nothing)
    case Clear => (map[], Nothing)
    case List => (db, Items(Visible(db, now)))
  }

  /** The calls of a run with the second at which each happens. */
  type Calls = seq<(Op, nat)>

  function Outputs(db: Db, calls: Calls): seq<Output>
    decreases |calls|
  {
    if calls == [] then []
    else var (next, output) := Apply(db, calls[0].0, calls[0].1); [output] + Outputs(next, calls[1..])
  }

  function PlainOutputs(db: Db, calls: Calls): seq<Output>
    decreases |calls|
  {
    if calls == [] then []
    else var (next, output) := ApplyPlain(db, calls[0].0, calls[0].1); [output] + PlainOutputs(next, calls[1..])
  }

  /** NUL-free values and no overflow of the 32-bit expiry. */
  predicate PutFits(op: Op, now: nat) {
    op.Put? ==> '\0' !in op.value && (op.ttl != 0 ==> now + op.ttl < TWO_TO_THE_32)
  }

  /** From `from` on the clock never goes back, and every put fits. */
  ghost predicate Ordered(calls: Calls, from: nat)
    decreases |calls|
  {
    calls != [] ==> from <= calls[0].1 && PutFits(calls[0].0, calls[0].1) && Ordered(calls[1..], calls[0].1)
  }

  /** From `now` on nobody can tell the two maps apart. */
  ghost predicate Agree(a: Db, b: Db, now: nat) {
    forall t: nat, key :: t >= now ==>
      (key in a && Live(a[key], t) <==> key in b && Live(b[key], t)) &&
      (key in a && key in b && Live(a[key], t) ==> a[key].data == b[key].data)
  }

  lemma AgreeVisible(a: Db, b: Db, now: nat)
    requires Agree(a, b, now)
    ensures Visible(a, now) == Visible(b, now)
  {
    assert forall key :: key in Visible(a, now) <==> key in Visible(b, now);
  }

  lemma StepAgrees(a: Db, b: Db, op: Op, now: nat)
    requires Agree(a, b, now) && PutFits(op, now)
    ensures Apply(a, op, now).1 == ApplyPlain(b, op, now).1
    ensures Agree(Apply(a, op, now).0, ApplyPlain(b, op, now).0, now)
  {
    AgreeVisible(a, b, now);
  }

  /**
   * For every run with a clock that never goes back, NUL-free values and no 32-bit overflow, the store answers like
   * the plain map: erasing on `get` is never observable.
   */
  lemma {:induction false} StoreIsPlainMap(a: Db, b: Db, calls: Calls, from: nat)
    requires Agree(a, b, from) && Ordered(calls, from)
    ensures Outputs(a, calls) == PlainOutputs(b, calls)
    decreases |calls|
  {
    if calls != [] {
      var (op, now) := calls[0];
      assert Agree(a, b, now);
      StepAgrees(a, b, op, now);
      StoreIsPlainMap(Apply(a, op, now).0, ApplyPlain(b, op, now).0, calls[1..], now);
    }
  }

  /** An entry is visible in the plain map exactly before its expiry second. */
  lemma PlainExpiry(db: Db, key: string, value: string, ttl: nat, now: nat, t: nat)
    requires t >= now
    ensures key in Visible(ApplyPlain(db, Put(key, value, ttl), now).0, t) <==> ttl == 0 || t < now + ttl
  {
  }

  /** A non-empty value just put is read back exactly when it has no NUL and its 32-bit expiry is not over at once. */
  lemma ReadBackIff(db: Db, key: string, value: string, ttl: nat, now: nat)
    requires ttl < TWO_TO_THE_32
    ensures Apply(Apply(db, Put(key, value, ttl), now).0, Get(key), now).1 == Data(value) <==>
            value == "" ||
            ('\0' !in value && (ttl == 0 || now + ttl < TWO_TO_THE_32 || (now + ttl) % TWO_TO_THE_32 == 0))
  {
    var v := Stamped(value, ttl, now);
    assert ttl != 0 && now + ttl >= TWO_TO_THE_32 ==> v.expire <= now + ttl - TWO_TO_THE_32;
  }

  // ----- Which clocks keep the erasure hidden -----

  const LAST_SECOND := TWO_TO_THE_32 - 1

  /** A clock reading as 32-bit expiries see it: at the last 32-bit second all of them are over. */
  function Capped(t: nat): nat {
    if t < LAST_SECOND then t else LAST_SECOND
  }

  /** Stored expiries have 32 bits. */
  ghost predicate Fits(db: Db) {
    forall key :: key in db ==> db[key].expire <= LAST_SECOND
  }

  ghost predicate AllPutsFit(calls: Calls) {
    forall i :: 0 <= i < |calls| ==> PutFits(calls[i].0, calls[i].1)
  }

  function Readings(calls: Calls): seq<nat> {
    seq(|calls|, i requires 0 <= i < |calls| => calls[i].1)
  }

  ghost predicate NeverBack(ts: seq<nat>) {
    forall i, k :: 0 <= i < k < |ts| ==> Capped(ts[i]) <= Capped(ts[k])
  }

  /** No reading exceeds both an earlier and a later one. */
  ghost predicate NoPeak(ts: seq<nat>) {
    forall j, i, k :: 0 <= j < i < k < |ts| && Capped(ts[j]) < Capped(ts[i]) ==> Capped(ts[i]) <= Capped(ts[k])
  }

  /** With these readings, stores that agree at the start answer every fitting sequence of calls alike. */
  ghost predicate AlwaysAlike(ts: seq<nat>) {
    forall a, b, calls ::
      Fits(a) && Fits(b) && (ts != [] ==> Agree(a, b, ts[0])) && Readings(calls) == ts && AllPutsFit(calls) ==>
      Outputs(a, calls) == PlainOutputs(b, calls)
  }

  /** The same for stores that start empty. */
  ghost predicate AlikeFromEmpty(ts: seq<nat>) {
    forall calls :: Readings(calls) == ts && AllPutsFit(calls) ==> Outputs(map[], calls) == PlainOutputs(map[], calls)
  }

  ghost predicate AllLive(db: Db, now: nat) {
    forall key :: key in db ==> Live(db[key], now)
  }

  function CapAll(calls: Calls): Calls {
    seq(|calls|, i requires 0 <= i < |calls| => (calls[i].0, Capped(calls[i].1)))
  }

  lemma CappedStep(db: Db, op: Op, now: nat)
    requires Fits(db) && PutFits(op, now)
    ensures Apply(db, op, now) == Apply(db, op, Capped(now)) && Fits(Apply(db, op, now).0)
    ensures ApplyPlain(db, op, now) == ApplyPlain(db, op, Capped(now)) && Fits(ApplyPlain(db, op, now).0)
    ensures PutFits(op, Capped(now))
  {
    assert Visible(db, now) == Visible(db, Capped(now));
  }

  lemma {:induction false} CappedOutputs(a: Db, b: Db, calls: Calls)
    requires Fits(a) && Fits(b) && AllPutsFit(calls)
    ensures Outputs(a, calls) == Outputs(a, CapAll(calls)) && PlainOutputs(b, calls) == PlainOutputs(b, CapAll(calls))
    decreases |calls|
  {
    if calls != [] {
      hide Apply, ApplyPlain, PutFits, Fits;
      var (op, now) := calls[0];
      CappedStep(a, op, now);
      CappedStep(b, op, now);
      assert CapAll(calls)[1..] == CapAll(calls[1..]);
      CappedOutputs(Apply(a, op, now).0, ApplyPlain(b, op, now).0, calls[1..]);
    }
  }

  lemma CappedAgree(a: Db, b: Db, now: nat)
    requires Fits(a) && Fits(b) && Agree(a, b, now)
    ensures Agree(a, b, Capped(now))
  {
    forall t: nat, key | t >= Capped(now)
      ensures (key in a && Live(a[key], t) <==> key in b && Live(b[key], t)) &&
              (key in a && key in b && Live(a[key], t) ==> a[key].data == b[key].data)
    {
      var later := t + now;
      assert t >= now || t >= LAST_SECOND;
      assert key in a && Live(a[key], later) <==> key in b && Live(b[key], later);
    }
  }

  lemma {:induction false} CappedOrdered(calls: Calls, from: nat)
    requires AllPutsFit(calls) && NeverBack([from] + Readings(calls))
    ensures Ordered(CapAll(calls), Capped(from))
    decreases |calls|
  {
    if calls != [] {
      var ts, rest := [from] + Readings(calls), calls[1..];
      var now := calls[0].1;
      assert ts[0] == from && ts[1] == now && Capped(from) <= Capped(now);
      assert PutFits(calls[0].0, now) && CapAll(calls)[0] == (calls[0].0, Capped(now));
      assert ts[1..] == [now] + Readings(rest);
      assert NeverBack(ts[1..]);
      CappedOrdered(rest, now);
      assert CapAll(calls)[1..] == CapAll(rest);
    }
  }

  lemma ForwardClockHides(a: Db, b: Db, calls: Calls)
    requires Fits(a) && Fits(b) && AllPutsFit(calls) && NeverBack(Readings(calls))
    requires calls != [] ==> Agree(a, b, calls[0].1)
    ensures Outputs(a, calls) == PlainOutputs(b, calls)
  {
    if calls != [] {
      var from := calls[0].1;
      assert Readings(calls)[0] == from;
      CappedAgree(a, b, from);
      assert NeverBack([from] + Readings(calls));
      CappedOrdered(calls, from);
      StoreIsPlainMap(a, b, CapAll(calls), Capped(from));
      CappedOutputs(a, b, calls);
    }
  }

  function Gets(key: string, ts: seq<nat>): (calls: Calls)
    ensures Readings(calls) == ts
  {
    seq(|ts|, i requires 0 <= i < |ts| => (Get(key), ts[i]))
  }

  lemma {:induction false} GetsFromEmpty(key: string, ts: seq<nat>, k: nat)
    requires k < |ts|
    ensures |Outputs(map[], Gets(key, ts))| == |ts| && Outputs(map[], Gets(key, ts))[k] == Data("")
    decreases |ts|
  {
    assert Gets(key, ts)[1..] == Gets(key, ts[1..]);
    if k > 0 {
      GetsFromEmpty(key, ts[1..], k - 1);
    } else if |ts| > 1 {
      GetsFromEmpty(key, ts[1..], 0);
    }
  }

  lemma {:induction false} PlainGets(db: Db, key: string, ts: seq<nat>, k: nat)
    requires k < |ts|
    ensures var outputs := PlainOutputs(db, Gets(key, ts));
            |outputs| == |ts| && outputs[k] == Data(Lookup(db, key, ts[k]))
    decreases |ts|
  {
    assert Gets(key, ts)[1..] == Gets(key, ts[1..]);
    if k > 0 {
      PlainGets(db, key, ts[1..], k - 1);
    } else if |ts| > 1 {
      PlainGets(db, key, ts[1..], 0);
    }
  }

  /** Once a `get` has met the expired entry, no later one finds it. */
  lemma {:induction false} GoneOnceMet(key: string, v: Value, ts: seq<nat>, i: nat, k: nat)
    requires i < k < |ts| && !Live(v, ts[i])
    ensures |Outputs(map[key := v], Gets(key, ts))| == |ts| && Outputs(map[key := v], Gets(key, ts))[k] == Data("")
    decreases |ts|
  {
    var db: Db := map[key := v];
    assert Gets(key, ts)[1..] == Gets(key, ts[1..]);
    if Live(v, ts[0]) {
      GoneOnceMet(key, v, ts[1..], i - 1, k - 1);
    } else {
      assert db - {key} == map[];
      GetsFromEmpty(key, ts[1..], k - 1);
    }
  }

  /** A clock that goes back anywhere, however far apart, is exposed by reading one entry at every reading. */
  lemma GoingBackShows(key: string, value: string, ts: seq<nat>, i: nat, k: nat)
    requires i < k < |ts| && Capped(ts[k]) < Capped(ts[i]) && value != ""
    ensures var db: Db := map[key := Value(Capped(ts[i]), value)];
            Fits(db) && AllPutsFit(Gets(key, ts)) && Outputs(db, Gets(key, ts)) != PlainOutputs(db, Gets(key, ts))
  {
    var v := Value(Capped(ts[i]), value);
    GoneOnceMet(key, v, ts, i, k);
    PlainGets(map[key := v], key, ts, k);
  }

  /**
   * Stores that agree answer every fitting sequence of calls at these readings alike if and only if the readings, as
   * 32-bit expiries see them, never decrease.
   */
  lemma AlwaysAlikeIff(ts: seq<nat>)
    ensures AlwaysAlike(ts) <==> NeverBack(ts)
  {
    hide Outputs, PlainOutputs, Gets, AllPutsFit;
    if NeverBack(ts) {
      forall a, b, calls | Fits(a) && Fits(b) && (ts != [] ==> Agree(a, b, ts[0])) && Readings(calls) == ts &&
                           AllPutsFit(calls)
        ensures Outputs(a, calls) == PlainOutputs(b, calls)
      {
        ForwardClockHides(a, b, calls);
      }
    } else {
      var i, k :| 0 <= i < k < |ts| && Capped(ts[k]) < Capped(ts[i]);
      GoingBackShows("k", "v", ts, i, k);
    }
  }

  /** Puts one entry at reading `j` and reads it at all others. */
  function PutThenGets(key: string, value: string, ttl: nat, ts: seq<nat>, j: nat): (calls: Calls)
    requires j < |ts|
    ensures Readings(calls) == ts
  {
    if j == 0 then [(Put(key, value, ttl), ts[0])] + Gets(key, ts[1..])
    else [(Get(key), ts[0])] + PutThenGets(key, value, ttl, ts[1..], j - 1)
  }

  lemma PutStep(key: string, value: string, t: nat, expire: nat, rest: Calls)
    requires t < expire <= LAST_SECOND && '\0' !in value
    ensures var calls: Calls, db: Db := [(Put(key, value, expire - t), t)] + rest, map[key := Value(expire, value)];
            PutFits(Put(key, value, expire - t), t) && Outputs(map[], calls) == [Nothing] + Outputs(db, rest) &&
            PlainOutputs(map[], calls) == [Nothing] + PlainOutputs(db, rest)
  {
    var calls: Calls := [(Put(key, value, expire - t), t)] + rest;
    assert calls[1..] == rest;
    assert Stamped(value, expire - t, t) == Value(expire, value);
  }

  lemma GetStep(key: string, t: nat, rest: Calls)
    ensures var calls: Calls := [(Get(key), t)] + rest;
            Outputs(map[], calls) == [Data("")] + Outputs(map[], rest) &&
            PlainOutputs(map[], calls) == [Data("")] + PlainOutputs(map[], rest)
  {
    var calls: Calls := [(Get(key), t)] + rest;
    assert calls[1..] == rest;
  }

  lemma {:induction false} PutThenGetsFits(key: string, value: string, ttl: nat, ts: seq<nat>, j: nat)
    requires j < |ts| && '\0' !in value && ts[j] + ttl < TWO_TO_THE_32
    ensures AllPutsFit(PutThenGets(key, value, ttl, ts, j))
    decreases j
  {
    if j > 0 {
      PutThenGetsFits(key, value, ttl, ts[1..], j - 1);
    }
  }

  /** A peak is exposed by an entry put before it that is over exactly then. */
  lemma {:induction false} PeakShows(key: string, value: string, ts: seq<nat>, j: nat, i: nat, k: nat)
    requires j < i < k < |ts| && Capped(ts[j]) < Capped(ts[i]) && Capped(ts[k]) < Capped(ts[i])
    requires value != "" && '\0' !in value
    ensures var calls := PutThenGets(key, value, Capped(ts[i]) - ts[j], ts, j);
            Outputs(map[], calls) != PlainOutputs(map[], calls)
    decreases j
  {
    hide Outputs, PlainOutputs, Gets, Apply, ApplyPlain, Capped, Fits, AllPutsFit, Readings;
    var rest := ts[1..];
    CapBounds(ts[j], ts[i]);
    if j == 0 {
      var db: Db := map[key := Value(Capped(ts[i]), value)];
      GoingBackShows(key, value, rest, i - 1, k - 1);
      PutStep(key, value, ts[0], Capped(ts[i]), Gets(key, rest));
      SameTail(Nothing, Outputs(db, Gets(key, rest)), PlainOutputs(db, Gets(key, rest)));
    } else {
      PeakShows(key, value, rest, j - 1, i - 1, k - 1);
      var calls := PutThenGets(key, value, Capped(ts[i]) - ts[j], rest, j - 1);
      GetStep(key, ts[0], calls);
      SameTail(Data(""), Outputs(map[], calls), PlainOutputs(map[], calls));
    }
  }

  lemma CapBounds(t: nat, u: nat)
    requires Capped(t) < Capped(u)
    ensures t < Capped(u) <= LAST_SECOND
  {
  }

  lemma SameTail(head: Output, a: seq<Output>, b: seq<Output>)
    ensures [head] + a == [head] + b ==> a == b
  {
    assert a == ([head] + a)[1..] && b == ([head] + b)[1..];
  }

  lemma AfterRise(ts: seq<nat>)
    requires NoPeak(ts) && |ts| > 1 && Capped(ts[0]) < Capped(ts[1])
    ensures NeverBack(ts[1..])
  {
    var rest := ts[1..];
    forall i, k | 0 <= i < k < |rest|
      ensures Capped(rest[i]) <= Capped(rest[k])
    {
      assert rest[i] == ts[i + 1] && rest[k] == ts[k + 1];
      assert Capped(ts[1]) <= Capped(ts[i + 1]);
    }
  }

  /** While the clock does not advance, every entry put so far stays live; once it does, it only goes forward. */
  lemma {:induction false} NoPeakHides(db: Db, calls: Calls)
    requires Fits(db) && AllPutsFit(calls) && NoPeak(Readings(calls))
    requires calls != [] ==> AllLive(db, calls[0].1)
    ensures Outputs(db, calls) == PlainOutputs(db, calls)
    decreases |calls|
  {
    if calls != [] {
      var (op, now) := calls[0];
      var rest, ts := calls[1..], Readings(calls);
      var next := Apply(db, op, now).0;
      LiveStep(db, op, now);
      CappedStep(db, op, now);
      assert ts[0] == now && Readings(rest) == ts[1..];
      if rest == [] || Capped(ts[1]) <= Capped(now) {
        assert rest != [] ==> AllLive(next, ts[1]);
        NoPeakHides(next, rest);
      } else {
        AfterRise(ts);
        ForwardClockHides(next, next, rest);
      }
    }
  }

  lemma LiveStep(db: Db, op: Op, now: nat)
    requires PutFits(op, now) && AllLive(db, now)
    ensures Apply(db, op, now) == ApplyPlain(db, op, now) && AllLive(Apply(db, op, now).0, now)
  {
  }

  /**
   * From its creation the store answers every fitting sequence of calls at these readings like the plain map if and
   * only if no reading exceeds both an earlier and a later one.
   */
  lemma AlikeFromEmptyIff(ts: seq<nat>)
    ensures AlikeFromEmpty(ts) <==> NoPeak(ts)
  {
    hide Outputs, PlainOutputs, Readings, PutThenGets, AllPutsFit;
    if NoPeak(ts) {
      forall calls | Readings(calls) == ts && AllPutsFit(calls)
        ensures Outputs(map[], calls) == PlainOutputs(map[], calls)
      {
        NoPeakHides(map[], calls);
      }
    } else {
      var j, i, k :| 0 <= j < i < k < |ts| && Capped(ts[j]) < Capped(ts[i]) && Capped(ts[k]) < Capped(ts[i]);
      PutThenGetsFits("k", "v", Capped(ts[i]) - ts[j], ts, j);
      PeakShows("k", "v", ts, j, i, k);
    }
  }

  /** Why the clock matters: if it goes back behind an erasing `get`, an entry the plain map still shows is gone. */
  lemma ErasureShowsWhenClockGoesBack(key: string, value: string)
    requires value != "" && '\0' !in value
    ensures var calls: Calls := [(Put(key, value, 1), 5), (Get(key), 6), (Get(key), 5)];
            Outputs(map[], calls) != PlainOutputs(map[], calls)
  {
    var calls: Calls := [(Put(key, value, 1), 5), (Get(key), 6), (Get(key), 5)];
    var db: Db := map[key := Value(6, value)];
    var tail: Calls := [(Get(key), 6), (Get(key), 5)];
    var last: Calls := [(Get(key), 5)];
    assert calls[1..] == tail && tail[1..] == last;
    assert Outputs(map[], calls) == [Nothing] + Outputs(db, tail);
    assert Outputs(db, tail) == [Data("")] + Outputs(db - {key}, last);
    assert Outputs(db - {key}, last)[0] == Data("");
    assert PlainOutputs(map[], calls) == [Nothing] + PlainOutputs(db, tail);
    assert PlainOutputs(db, tail) == [Data("")] + PlainOutputs(db, last);
    assert PlainOutputs(db, last)[0] == Data(value);
    assert Outputs(map[], calls)[2] == Data("") && PlainOutputs(map[], calls)[2] == Data(value);
  }
}
