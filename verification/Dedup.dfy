/**
 Message de-duplication on values: the id cache of hub/message_manager.go in front of the message
 table, and the path of one message through hub.go from the filter to the dispatch.
 */
module Dedup {
  import opened Common
  import opened Recency

  const CAPACITY := 1000

  /** A row of the message table. */
  datatype Row = Row(id: string, msgType: int, time: int, gid: string, groupName: string,
                     uid: string, nickname: string, content: string)

  /** The cached ids, newest first, and the message table by primary key. */
  datatype Store = Store(cache: seq<Entry<string, ()>>, table: map<string, Row>)

  datatype Call = Exist(id: string, read: bool) | Save(row: Row, write: bool)

  const EMPTY := Store([], map[])

  /** A lookup answers from the cache without touching it; only a database hit is put into it. */
  function ExistStep(s: Store, id: string, read: bool): (Store, Result<bool>) {
    if id in Keys(s.cache) then (s, Ok(true))
    else if !read then (s, Err(DatabaseError))
    else if id in s.table then (s.(cache := PutEntry(s.cache, CAPACITY, id, ())), Ok(true))
    else (s, Err(RecordNotFound))
  }

  function SaveStep(s: Store, row: Row, write: bool): (Store, Result<()>) {
    if !write then (s, Err(DatabaseError))
    else if row.id in s.table then (s, Err(KeyConflict))
    else (s.(table := s.table[row.id := row]), Ok(()))
  }

  function Step(s: Store, call: Call): Store {
    match call
    case Exist(id, read) => ExistStep(s, id, read).0
    case Save(row, write) => SaveStep(s, row, write).0
  }

  function Run(calls: seq<Call>): Store {
    if calls == [] then EMPTY else Step(Run(calls[..|calls| - 1]), calls[|calls| - 1])
  }

  /** The lookups the database confirmed, in order. */
  function Confirmed(calls: seq<Call>): seq<string> {
    if calls == [] then [] else
      Confirmed(calls[..|calls| - 1]) + Confirms(Run(calls[..|calls| - 1]), calls[|calls| - 1])
  }

  predicate Saves(call: Call, id: string) {
    call.Save? && call.write && call.row.id == id
  }

  ghost predicate Saved(calls: seq<Call>, id: string) {
    exists i :: 0 <= i < |calls| && Saves(calls[i], id)
  }

  /** The row of the first successful save of `id`. */
  function FirstSaved(calls: seq<Call>, id: string): Option<Row> {
    if calls == [] then None else
      var earlier, call := FirstSaved(calls[..|calls| - 1], id), calls[|calls| - 1];
      if earlier.None? && Saves(call, id) then Some(call.row) else earlier
  }

  /** `cache` is the last `CAPACITY` elements of `log`, newest first. */
  ghost predicate IsTail(cache: seq<string>, log: seq<string>) {
    && |cache| == (if |log| < CAPACITY then |log| else CAPACITY)
    && forall i :: 0 <= i < |cache| ==> cache[i] == log[|log| - 1 - i]
  }

  ghost predicate WindowsDistinct(log: seq<string>) {
    forall i, j :: 0 <= i < j < |log| && j - i < CAPACITY ==> log[i] != log[j]
  }

  lemma TailGrows(l: seq<Entry<string, ()>>, log: seq<string>, id: string)
    requires Fits(l, CAPACITY) && IsTail(Keys(l), log) && WindowsDistinct(log) && id !in Keys(l)
    ensures IsTail(Keys(PutEntry(l, CAPACITY, id, ())), log + [id]) && WindowsDistinct(log + [id])
  {
    var ks, log' := Keys(l), log + [id];
    var ks' := Keys(PutEntry(l, CAPACITY, id, ()));
    forall i | 0 <= i < |ks'| ensures ks'[i] == log'[|log'| - 1 - i] {
      if i > 0 {
        assert ks[i - 1] == log[|log| - i];
      }
    }
    forall i | 0 <= i < |log| && |log| - i < CAPACITY ensures log[i] != id {
      assert ks[|log| - 1 - i] == log[i];
    }
  }

  ghost predicate CacheOk(s: Store, log: seq<string>) {
    && Fits(s.cache, CAPACITY) && (forall id :: id in Keys(s.cache) ==> id in s.table)
    && IsTail(Keys(s.cache), log) && WindowsDistinct(log)
  }

  function Confirms(s: Store, call: Call): seq<string> {
    if call.Exist? && call.read && call.id in s.table && call.id !in Keys(s.cache) then [call.id] else []
  }

  lemma StepKeepsCache(s: Store, log: seq<string>, call: Call)
    requires CacheOk(s, log)
    ensures CacheOk(Step(s, call), log + Confirms(s, call))
  {
    if Confirms(s, call) == [] {
      assert log + [] == log;
    } else {
      TailGrows(s.cache, log, call.id);
      ApplyFits(s.cache, CAPACITY, Put(call.id, ()));
      PutAddsOneKey(s.cache, call.id);
    }
  }

  /** The table holds exactly the saved ids, each with the row of its first save. */
  lemma {:induction false} TableIsSaved(calls: seq<Call>, id: string)
    ensures FirstSaved(calls, id) == if id in Run(calls).table then Some(Run(calls).table[id]) else None
    ensures id in Run(calls).table <==> Saved(calls, id)
  {
    if calls != [] {
      var n := |calls| - 1;
      TableIsSaved(calls[..n], id);
      SavedMore(calls[..n], calls[n]);
      assert calls[..n] + [calls[n]] == calls;
    }
  }

  /**
   Over any run of lookups and saves, failed calls included, the cache holds exactly the last
   CAPACITY confirmed lookups, and any CAPACITY consecutive ones are distinct.
   */
  lemma {:induction false} CacheIsConfirmedTail(calls: seq<Call>)
    ensures CacheOk(Run(calls), Confirmed(calls))
  {
    if calls != [] {
      var n := |calls| - 1;
      CacheIsConfirmedTail(calls[..n]);
      StepKeepsCache(Run(calls[..n]), Confirmed(calls[..n]), calls[n]);
    }
  }

  lemma PutAddsOneKey(l: seq<Entry<string, ()>>, id: string)
    ensures forall k :: k in Keys(PutEntry(l, CAPACITY, id, ())) ==> k in Keys(l) || k == id
  {
    var l' := PutEntry(l, CAPACITY, id, ());
    forall k | k in Keys(l') ensures k in Keys(l) || k == id {
      var i :| 0 <= i < |l'| && l'[i].key == k;
      assert l'[i] == Entry(id, ()) || l'[i] in l;
      if l'[i] != Entry(id, ()) {
        var j :| 0 <= j < |l| && l[j] == l'[i];
        assert Keys(l)[j] == k;
      }
    }
  }

  lemma SavedMore(calls: seq<Call>, call: Call)
    ensures forall id :: Saved(calls + [call], id) <==> Saved(calls, id) || Saves(call, id)
  {
    forall id | Saved(calls, id) ensures Saved(calls + [call], id) {
      var i :| 0 <= i < |calls| && Saves(calls[i], id);
      assert (calls + [call])[i] == calls[i];
    }
    assert (calls + [call])[|calls|] == call;
  }

  /** A lookup says yes exactly for a saved id that is cached or can be read, whatever has been evicted. */
  lemma ExistIsExact(calls: seq<Call>, id: string, read: bool)
    ensures var s := Run(calls);
            ExistStep(s, id, read).1 == Ok(true) <==> Saved(calls, id) && (id in Keys(s.cache) || read)
    ensures read ==> ExistStep(Run(calls), id, read).1 == if Saved(calls, id) then Ok(true) else Err(RecordNotFound)
  {
    CacheIsConfirmedTail(calls);
    TableIsSaved(calls, id);
  }

  // ----- From the filter to the dispatch -----

  /** `handled` says that a handler assembles a message from it, `marshals` that it can be serialised. */
  datatype Msg = Msg(row: Row, notify: bool, self: bool, handled: bool, marshals: bool)

  datatype Env = Env(read: bool, write: bool)

  /** The message store and the ids handed to the redirectors, in order. */
  datatype Hub = Hub(store: Store, forwarded: seq<string>)

  /** The filter lets the message through to a handler that dispatches it. */
  predicate Passes(s: Store, m: Msg, read: bool) {
    !m.notify && !m.self && m.handled && ExistStep(s, m.row.id, read).1 != Ok(true)
  }

  function Handle(h: Hub, m: Msg, env: Env): Hub {
    var store := ExistStep(h.store, m.row.id, env.read).0;
    if !Passes(h.store, m, env.read) then h.(store := store)
    else Hub(if m.row.id != "" then SaveStep(store, m.row, env.write).0 else store,
             if m.marshals then h.forwarded + [m.row.id] else h.forwarded)
  }

  datatype Arrival = Arrival(msg: Msg, env: Env)

  function HandleAll(arrivals: seq<Arrival>): Hub {
    if arrivals == [] then Hub(EMPTY, []) else
      var n := |arrivals| - 1;
      Handle(HandleAll(arrivals[..n]), arrivals[n].msg, arrivals[n].env)
  }

  /** The store the message at `i` meets. */
  function StoreAt(arrivals: seq<Arrival>, i: nat): Store
    requires i <= |arrivals|
  {
    HandleAll(arrivals[..i]).store
  }

  /** The message at `i` is handed to the redirectors. */
  predicate ForwardedAt(arrivals: seq<Arrival>, i: nat)
    requires i < |arrivals|
  {
    HandleAll(arrivals[..i + 1]).forwarded != HandleAll(arrivals[..i]).forwarded
  }

  /** The message at `i` is dispatched with the id, and a save of it would succeed. */
  predicate SavedAt(arrivals: seq<Arrival>, i: nat, id: string)
    requires i < |arrivals|
  {
    && arrivals[i].msg.row.id == id && arrivals[i].env.write
    && Passes(StoreAt(arrivals, i), arrivals[i].msg, arrivals[i].env.read)
  }

  ghost predicate SavedBefore(arrivals: seq<Arrival>, j: nat, id: string)
    requires j <= |arrivals|
  {
    exists i :: 0 <= i < j && SavedAt(arrivals, i, id)
  }

  ghost predicate Sound(s: Store) {
    Fits(s.cache, CAPACITY) && (forall id :: id in Keys(s.cache) ==> id in s.table) && "" !in s.table
  }

  lemma HandleKeepsSound(h: Hub, m: Msg, env: Env)
    requires Sound(h.store)
    ensures Sound(Handle(h, m, env).store)
    ensures forall id :: id in Handle(h, m, env).store.table
                         <==> id in h.store.table || (id == m.row.id != "" && env.write && Passes(h.store, m, env.read))
  {
    ApplyFits(h.store.cache, CAPACITY, Put(m.row.id, ()));
    PutAddsOneKey(h.store.cache, m.row.id);
  }

  lemma TurnOf(arrivals: seq<Arrival>, i: nat)
    requires i < |arrivals|
    ensures HandleAll(arrivals[..i + 1]) == Handle(HandleAll(arrivals[..i]), arrivals[i].msg, arrivals[i].env)
  {
    assert arrivals[..i + 1][..i] == arrivals[..i];
  }

  /** The table holds exactly the non-empty ids of dispatched messages whose save could succeed. */
  lemma {:induction false} StoredExactly(arrivals: seq<Arrival>, j: nat)
    requires j <= |arrivals|
    ensures Sound(StoreAt(arrivals, j))
    ensures forall id :: id in StoreAt(arrivals, j).table <==> id != "" && SavedBefore(arrivals, j, id)
  {
    if j > 0 {
      StoredExactly(arrivals, j - 1);
      TurnOf(arrivals, j - 1);
      HandleKeepsSound(HandleAll(arrivals[..j - 1]), arrivals[j - 1].msg, arrivals[j - 1].env);
      forall id
        ensures SavedBefore(arrivals, j, id) <==> SavedBefore(arrivals, j - 1, id) || SavedAt(arrivals, j - 1, id)
      {
      }
    }
  }

  /** The calls one message makes to the store: a lookup, and a save if it is dispatched with an id. */
  function CallsFor(s: Store, m: Msg, env: Env): seq<Call> {
    [Exist(m.row.id, env.read)] + if Passes(s, m, env.read) && m.row.id != "" then [Save(m.row, env.write)] else []
  }

  function CallsOf(arrivals: seq<Arrival>): seq<Call> {
    if arrivals == [] then [] else
      var n := |arrivals| - 1;
      CallsOf(arrivals[..n]) + CallsFor(HandleAll(arrivals[..n]).store, arrivals[n].msg, arrivals[n].env)
  }

  lemma RunMore(calls: seq<Call>, call: Call)
    ensures Run(calls + [call]) == Step(Run(calls), call)
  {
    assert (calls + [call])[..|calls|] == calls;
  }

  lemma HandleIsCalls(calls: seq<Call>, h: Hub, m: Msg, env: Env)
    requires h.store == Run(calls)
    ensures Handle(h, m, env).store == Run(calls + CallsFor(h.store, m, env))
  {
    var lookup := Exist(m.row.id, env.read);
    RunMore(calls, lookup);
    if Passes(h.store, m, env.read) && m.row.id != "" {
      RunMore(calls + [lookup], Save(m.row, env.write));
      assert calls + CallsFor(h.store, m, env) == calls + [lookup] + [Save(m.row, env.write)];
    } else {
      assert calls + CallsFor(h.store, m, env) == calls + [lookup];
    }
  }

  /** The store behind the messages is that of a run of lookups and saves. */
  lemma {:induction false} StoreIsRun(arrivals: seq<Arrival>)
    ensures HandleAll(arrivals).store == Run(CallsOf(arrivals))
  {
    if arrivals != [] {
      var n := |arrivals| - 1;
      StoreIsRun(arrivals[..n]);
      HandleIsCalls(CallsOf(arrivals[..n]), HandleAll(arrivals[..n]), arrivals[n].msg, arrivals[n].env);
    }
  }

  /** The last thousand elements. */
  function Recent<T>(log: seq<T>): seq<T> {
    if |log| < 1000 then log else log[|log| - 1000..]
  }

  /** The lookups the database confirmed before the message at `j`. */
  function ConfirmedBefore(arrivals: seq<Arrival>, j: nat): seq<string>
    requires j <= |arrivals|
  {
    Confirmed(CallsOf(arrivals[..j]))
  }

  lemma TailIsRecent(cache: seq<string>, log: seq<string>, id: string)
    requires IsTail(cache, log)
    ensures id in cache <==> id in Recent(log)
  {
    var r := Recent(log);
    forall i | 0 <= i < |cache| ensures cache[i] == r[|r| - 1 - i] {
    }
    forall i | 0 <= i < |r| ensures r[i] == cache[|r| - 1 - i] {
    }
  }

  /** Cached are exactly the ids among the last 1000 confirmed lookups. */
  lemma CachedIsRecent(arrivals: seq<Arrival>, j: nat, id: string)
    requires j <= |arrivals|
    ensures id in Keys(StoreAt(arrivals, j).cache) <==> id in Recent(ConfirmedBefore(arrivals, j))
  {
    StoreIsRun(arrivals[..j]);
    CacheIsConfirmedTail(CallsOf(arrivals[..j]));
    TailIsRecent(Keys(StoreAt(arrivals, j).cache), ConfirmedBefore(arrivals, j), id);
  }

  /**
   A message is forwarded exactly when nothing drops it, its id is not among the last 1000 lookups the
   database confirmed, and it is empty, was not saved before, or cannot be read now.
   */
  lemma ForwardedExactly(arrivals: seq<Arrival>, j: nat)
    requires j < |arrivals|
    ensures var m, id := arrivals[j].msg, arrivals[j].msg.row.id;
            ForwardedAt(arrivals, j)
            <==> && !m.notify && !m.self && m.handled && m.marshals
                 && id !in Recent(ConfirmedBefore(arrivals, j))
                 && (!arrivals[j].env.read || id == "" || !SavedBefore(arrivals, j, id))
  {
    StoredExactly(arrivals, j);
    CachedIsRecent(arrivals, j, arrivals[j].msg.row.id);
    TurnOf(arrivals, j);
    var h := HandleAll(arrivals[..j]);
    assert |h.forwarded + [arrivals[j].msg.row.id]| == |h.forwarded| + 1;
  }

  /** Each forwarded message adds its id behind those before it. */
  lemma ForwardedInOrder(arrivals: seq<Arrival>, j: nat)
    requires j < |arrivals|
    ensures HandleAll([]).forwarded == []
    ensures HandleAll(arrivals[..j + 1]).forwarded
            == HandleAll(arrivals[..j]).forwarded + if ForwardedAt(arrivals, j) then [arrivals[j].msg.row.id] else []
  {
    TurnOf(arrivals, j);
    var sent := HandleAll(arrivals[..j]).forwarded;
    assert sent + [] == sent;
  }

  lemma ForwardedPasses(arrivals: seq<Arrival>, i: nat)
    requires i < |arrivals| && ForwardedAt(arrivals, i)
    ensures Passes(StoreAt(arrivals, i), arrivals[i].msg, arrivals[i].env.read)
  {
    TurnOf(arrivals, i);
  }

  /** A non-empty id goes out twice only after a failed save or during a failed read. */
  lemma DuplicateNeedsFault(arrivals: seq<Arrival>, i: nat, j: nat)
    requires i < j < |arrivals| && ForwardedAt(arrivals, i) && ForwardedAt(arrivals, j)
    requires arrivals[i].msg.row.id == arrivals[j].msg.row.id != ""
    ensures !arrivals[i].env.write || !arrivals[j].env.read
  {
    ForwardedPasses(arrivals, i);
    ForwardedExactly(arrivals, j);
    assert arrivals[i].env.write ==> SavedAt(arrivals, i, arrivals[j].msg.row.id);
  }

  /** At most once: without database faults no non-empty id is forwarded twice, in runs of any length. */
  lemma AtMostOnce(arrivals: seq<Arrival>, i: nat, j: nat)
    requires forall k :: 0 <= k < |arrivals| ==> arrivals[k].env == Env(true, true)
    requires i < j < |arrivals| && ForwardedAt(arrivals, i) && ForwardedAt(arrivals, j)
    ensures arrivals[i].msg.row.id == arrivals[j].msg.row.id ==> arrivals[i].msg.row.id == ""
  {
    if arrivals[i].msg.row.id == arrivals[j].msg.row.id != "" {
      DuplicateNeedsFault(arrivals, i, j);
    }
  }

  /** A message without an id is never taken for a duplicate. */
  lemma EmptyIdAlwaysForwarded(arrivals: seq<Arrival>, i: nat)
    requires i < |arrivals| && arrivals[i].msg.row.id == ""
    ensures var m := arrivals[i].msg;
            ForwardedAt(arrivals, i) <==> !m.notify && !m.self && m.handled && m.marshals
  {
    ForwardedExactly(arrivals, i);
    StoredExactly(arrivals, i);
    CachedIsRecent(arrivals, i, "");
  }

  /** One failed save is enough for a second delivery. */
  lemma FailedSaveForwardsTwice(row: Row)
    ensures var m := Msg(row, false, false, true, true);
            HandleAll([Arrival(m, Env(true, false)), Arrival(m, Env(true, true))]).forwarded == [row.id, row.id]
  {
    var m := Msg(row, false, false, true, true);
    var arrivals := [Arrival(m, Env(true, false)), Arrival(m, Env(true, true))];
    assert arrivals[..1] == [arrivals[0]] && arrivals[..1][..0] == [];
    assert HandleAll(arrivals[..1]) == Hub(EMPTY, [row.id]);
  }
}
