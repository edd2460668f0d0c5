/** Whole runs of the identity store: any calls in any order, with failures and process restarts. */
module MemberRuns {
  import opened Common
  import opened Members

  /** A completed call with its arguments, the database's behaviour and the answer. */
  datatype Call =
    | GetID(user: User, db: Db, id: Result<string>)
    | GetName(key: string, read: bool, name: Result<string>)
    | GetByID(key: string, read: bool, uid: Result<string>)
    | Restart

  ghost predicate Step(gen: string -> string, s: Store, call: Call, s': Store) {
    match call
    case GetID(user, db, id) => GetIDStep(gen, s, user, db, s', id)
    case GetName(key, read, name) => GetNameStep(s, key, read, s', name)
    case GetByID(key, read, uid) => GetByIDStep(s, key, read, s', uid)
    case Restart => s' == Store(s.table, map[], map[])
  }

  /** `states[i]` is the store before `calls[i]`. */
  ghost predicate Run(gen: string -> string, states: seq<Store>, calls: seq<Call>) {
    && |states| == |calls| + 1
    && (forall i :: 0 <= i < |calls| ==> Step(gen, states[i], calls[i], states[i + 1]))
  }

  predicate CleanCall(call: Call) {
    call.GetID? ==> Clean(call.user, call.db)
  }

  /** Rows outlive even a restart. */
  ghost predicate RowsStay(s: Store, s': Store) {
    forall id :: id in s.table ==> id in s'.table && s'.table[id].id == s.table[id].id
                                   && s'.table[id].kind == s.table[id].kind
  }

  lemma StepKeepsCore(gen: string -> string, s: Store, call: Call, s': Store)
    requires Core(s) && Step(gen, s, call, s')
    ensures Core(s') && RowsStay(s, s')
    ensures !call.Restart? ==> Grows(s, s')
    ensures |s'.table| <= |s.table| + if call.GetID? then 1 else 0
  {
    match call
    case GetID(user, db, id) =>
      GetIDKeepsCore(gen, s, user, db, s', id);
      assert |s.table.Keys| == |s.table| && |s'.table.Keys| == |s'.table|;
    case GetName(key, read, name) =>
      var f :| FetchStep(s, key, read, s', f) && name == NameOf(f);
      FetchKeepsCore(s, key, read, s', f);
    case GetByID(key, read, uid) =>
      var f :| FetchStep(s, key, read, s', f) && uid == UidOf(f);
      FetchKeepsCore(s, key, read, s', f);
    case Restart =>
  }

  lemma StepKeepsSynced(gen: string -> string, s: Store, call: Call, s': Store)
    requires Core(s) && Synced(s) && Step(gen, s, call, s') && CleanCall(call)
    ensures Synced(s')
  {
    match call
    case GetID(user, db, id) =>
      GetIDKeepsSynced(gen, s, user, db, s', id);
    case GetName(key, read, name) =>
      var f :| FetchStep(s, key, read, s', f) && name == NameOf(f);
      FetchKeepsSynced(s, key, read, s', f);
    case GetByID(key, read, uid) =>
      var f :| FetchStep(s, key, read, s', f) && uid == UidOf(f);
      FetchKeepsSynced(s, key, read, s', f);
    case Restart =>
  }

  /** Every reachable state keeps one row per uid and caches that name the right row, whatever failed. */
  lemma {:induction false} ReachableCore(gen: string -> string, states: seq<Store>, calls: seq<Call>, n: nat)
    requires Run(gen, states, calls) && states[0] == EMPTY_STORE && n <= |calls|
    ensures Core(states[n])
  {
    if n > 0 {
      ReachableCore(gen, states, calls, n - 1);
      StepKeepsCore(gen, states[n - 1], calls[n - 1], states[n]);
    }
  }

  /** With successful writes and no empty field the caches agree with the table as well. */
  lemma {:induction false} ReachableSynced(gen: string -> string, states: seq<Store>, calls: seq<Call>, n: nat)
    requires Run(gen, states, calls) && states[0] == EMPTY_STORE && n <= |calls|
    requires forall i :: 0 <= i < n ==> CleanCall(calls[i])
    ensures Core(states[n]) && Synced(states[n])
  {
    ReachableCore(gen, states, calls, n);
    if n > 0 {
      ReachableSynced(gen, states, calls, n - 1);
      StepKeepsSynced(gen, states[n - 1], calls[n - 1], states[n]);
    }
  }

  /** Rows are never removed and keep id and kind; between restarts a cached uid keeps its id. */
  lemma {:induction false} RunGrows(gen: string -> string, states: seq<Store>, calls: seq<Call>, i: nat, j: nat)
    requires Run(gen, states, calls) && i <= j <= |calls| && Core(states[i])
    ensures Core(states[j]) && RowsStay(states[i], states[j])
    ensures (forall k :: i <= k < j ==> !calls[k].Restart?) ==> Grows(states[i], states[j])
    decreases j - i
  {
    if i < j {
      RunGrows(gen, states, calls, i, j - 1);
      StepKeepsCore(gen, states[j - 1], calls[j - 1], states[j]);
      if forall k :: i <= k < j ==> !calls[k].Restart? {
        GrowsMore(states[i], states[j - 1], states[j]);
      }
    }
  }

  lemma GrowsMore(s: Store, mid: Store, s': Store)
    requires Grows(s, mid) && Grows(mid, s')
    ensures Grows(s, s')
  {
  }

  /** Within one process a uid once cached resolves to the same id for ever, without any database read. */
  lemma CachedUidResolves(gen: string -> string, states: seq<Store>, calls: seq<Call>, i: nat, j: nat)
    requires Run(gen, states, calls) && i <= j < |calls| && Core(states[i])
    requires forall k :: i <= k < j ==> !calls[k].Restart?
    requires calls[j].GetID? && calls[j].user.userName in states[i].uidUserMap
    ensures calls[j].id == Ok(states[i].uidUserMap[calls[j].user.userName].id)
  {
    RunGrows(gen, states, calls, i, j);
    assert Step(gen, states[j], calls[j], states[j + 1]);
  }

  /** Round trip: the uid GetByID gave for X leads GetID back to X for as long as the process lives. */
  lemma GetIDAfterGetByID(gen: string -> string, states: seq<Store>, calls: seq<Call>, i: nat, j: nat)
    requires Run(gen, states, calls) && i < j < |calls| && Core(states[i])
    requires forall k :: i < k < j ==> !calls[k].Restart?
    requires calls[i].GetByID? && calls[i].uid.Ok? && calls[i].uid.value != ""
    requires calls[j].GetID? && calls[j].user.userName == calls[i].uid.value
    ensures calls[j].id == Ok(calls[i].key)
  {
    assert Step(gen, states[i], calls[i], states[i + 1]);
    var call := calls[i];
    var f :| FetchStep(states[i], call.key, call.read, states[i + 1], f) && call.uid == UidOf(f);
    FetchKeepsCore(states[i], call.key, call.read, states[i + 1], f);
    CachedUidResolves(gen, states, calls, i + 1, j);
  }

  /** The converse, in every reachable state of a clean run. */
  lemma GetByIDReturnsUserName(gen: string -> string, states: seq<Store>, calls: seq<Call>, i: nat)
    requires Run(gen, states, calls) && states[0] == EMPTY_STORE && i + 1 < |calls|
    requires forall k :: 0 <= k < i ==> CleanCall(calls[k])
    requires calls[i].GetID? && calls[i].id.Ok?
    requires calls[i + 1].GetByID? && calls[i + 1].uid.Ok? && calls[i + 1].key == calls[i].id.value
    ensures calls[i + 1].uid.value == calls[i].user.userName <==> !StaleAnswer(states[i], calls[i].user)
  {
    ReachableSynced(gen, states, calls, i);
    assert Step(gen, states[i], calls[i], states[i + 1]);
    assert Step(gen, states[i + 1], calls[i + 1], states[i + 2]);
    GetByIDAfterGetID(gen, states[i], calls[i].user, calls[i].db, states[i + 1], calls[i].id.value,
                      calls[i + 1].read, states[i + 2], calls[i + 1].uid.value);
  }
}
