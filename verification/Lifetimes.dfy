/** How long the identity store keeps an answer, and the runs in which it does not. */
module Lifetimes {
  import opened Common
  import opened Members
  import opened MemberRuns

  const ALL_OK := Db(true, true, true, true)

  // ----- Fresh names -----

  lemma {:induction false} LongerThanAll(names: set<string>) returns (n: nat)
    ensures forall x :: x in names ==> |x| < n
  {
    n := 0;
    if x :| x in names {
      var m := LongerThanAll(names - {x});
      n := if m > |x| then m else |x| + 1;
      assert names == (names - {x}) + {x};
    }
  }

  lemma FreshName(names: set<string>) returns (x: string)
    ensures x != "" && x !in names
  {
    var n := LongerThanAll(names);
    x := seq(n + 1, _ => 'x');
  }

  // ----- The lifetime of an answer -----

  /** Until the next restart every call for the user name answers `id`, whatever else is called and fails. */
  ghost predicate KeepsId(gen: string -> string, s: Store, userName: string, id: string) {
    forall states: seq<Store>, calls: seq<Call>, j: nat ::
      Run(gen, states, calls) && states[0] == s && IsCallFor(calls, j, userName) ==> calls[j].id == Ok(id)
  }

  /** The call at `j`, with no restart before it, is GetID for the user name. */
  ghost predicate IsCallFor(calls: seq<Call>, j: nat, userName: string) {
    && j < |calls| && calls[j].GetID? && calls[j].user.userName == userName
    && forall k :: 0 <= k < j ==> !calls[k].Restart?
  }

  lemma CachedKeepsId(gen: string -> string, s: Store, userName: string)
    requires Core(s) && userName in s.uidUserMap
    ensures KeepsId(gen, s, userName, s.uidUserMap[userName].id)
  {
    forall states: seq<Store>, calls: seq<Call>, j: nat
      | Run(gen, states, calls) && states[0] == s && IsCallFor(calls, j, userName)
      ensures calls[j].id == Ok(s.uidUserMap[userName].id)
    {
      CachedUidResolves(gen, states, calls, 0, j);
    }
  }

  /** Another user with the same nickname and attribute takes the row over. */
  lemma ClaimedByNamesake(gen: string -> string, s: Store, user: User, id: string, b: string)
    requires Core(s) && id in s.table && Unchanged(user, s.table[id]) && b != "" && b !in s.uidUserMap
    requires !Found(s, ByUid, user.(userName := b))
    ensures var other := user.(userName := b);
            GetIDStep(gen, s, other, ALL_OK, CompareAndUpdate(s, other, s.table[id], true), Ok(id))
  {
    var other := user.(userName := b);
    var s' := CompareAndUpdate(s, other, s.table[id], true);
    assert Hit(ByNickAttr, other, s.table[id]) && Claims(s, ByNickAttr, other, true, s', Ok(id));
    ClaimAfterMisses(gen, s, other, ALL_OK, Lookups(other), 1, s', Ok(id));
  }

  /** A user nothing matches is created, unless the key is taken. */
  lemma CreatedOrRefused(gen: string -> string, s: Store, user: User)
    requires user.userName !in s.uidUserMap
    requires !Found(s, ByUid, user) && !Found(s, ByNickAttr, user) && !Found(s, ByNickKind, user)
    ensures var u := Created(gen, user);
            if u.id in s.table then GetIDStep(gen, s, user, ALL_OK, s, Err(KeyConflict))
            else GetIDStep(gen, s, user, ALL_OK, Install(s, u, u), Ok(u.id))
  {
    var u := Created(gen, user);
    forall i | 0 <= i < |Lookups(user)| ensures ReadOk(Lookups(user)[i], ALL_OK) && !Found(s, Lookups(user)[i], user) {
    }
    if u.id in s.table {
      CreateAfterMisses(gen, s, user, ALL_OK, Lookups(user), s, Err(KeyConflict));
    } else {
      CreateAfterMisses(gen, s, user, ALL_OK, Lookups(user), Install(s, u, u), Ok(u.id));
    }
  }

  /** Nothing matches the old name under a new nickname once its row has been taken over. */
  lemma NothingMatches(s: Store, user: User, id: string, b: string, m: string)
    requires Core(s) && id in s.table && Unchanged(user, s.table[id])
    requires b != "" && b != user.userName && m != user.nickName
    requires forall i :: i in s.table ==> s.table[i].nickname != m
    ensures var s' := CompareAndUpdate(s, user.(userName := b), s.table[id], true); var renamed := user.(nickName := m);
            !Found(s', ByUid, renamed) && !Found(s', ByNickAttr, renamed) && !Found(s', ByNickKind, renamed)
  {
    var other := user.(userName := b);
    var s' := CompareAndUpdate(s, other, s.table[id], true);
    assert s'.table == s.table[id := Merge(s.table[id], Refreshed(other, s.table[id]))];
    forall i | i in s'.table ensures s'.table[i].uid != user.userName && s'.table[i].nickname != m {
      if i != id {
        assert s'.table[i] == s.table[i];
      }
    }
  }

  /** Two successful calls, the second of which no longer answers `id`. */
  lemma LostInTwoCalls(gen: string -> string, s: Store, other: User, s1: Store, user: User, s2: Store,
                       id: string, r: Result<string>)
    requires GetIDStep(gen, s, other, ALL_OK, s1, Ok(id)) && GetIDStep(gen, s1, user, ALL_OK, s2, r) && r != Ok(id)
    ensures !KeepsId(gen, s, user.userName, id)
  {
    var states, calls := [s, s1, s2], [GetID(other, ALL_OK, Ok(id)), GetID(user, ALL_OK, r)];
    assert Step(gen, s, calls[0], s1) && Step(gen, s1, calls[1], s2);
    assert Run(gen, states, calls) && IsCallFor(calls, 1, user.userName);
  }

  /** An uncached answer does not last: a namesake claims the row, and the name comes back renamed. */
  lemma UncachedLosesId(gen: string -> string, s: Store, user: User, id: string)
    requires Core(s) && id in s.table && Unchanged(user, s.table[id]) && user.userName !in s.uidUserMap
    ensures !KeepsId(gen, s, user.userName, id)
  {
    var b := FreshName(s.uidUserMap.Keys + (set i | i in s.table :: s.table[i].uid) + {user.userName});
    var m := FreshName((set i | i in s.table :: s.table[i].nickname) + {user.nickName});
    var other, renamed := user.(userName := b), user.(nickName := m);
    ClaimedByNamesake(gen, s, user, id, b);
    NothingMatches(s, user, id, b, m);
    var s1 := CompareAndUpdate(s, other, s.table[id], true);
    CreatedOrRefused(gen, s1, renamed);
    var u := Created(gen, renamed);
    if u.id in s1.table {
      LostInTwoCalls(gen, s, other, s1, renamed, s1, id, Err(KeyConflict));
    } else {
      LostInTwoCalls(gen, s, other, s1, renamed, Install(s1, u, u), id, Ok(u.id));
    }
  }

  /**
   An answer lasts as long as the process exactly when it did not come from the database by uid with
   nothing to change: whatever is called and whatever fails meanwhile, and only then.
   */
  lemma AnswerLastsExactly(gen: string -> string, s: Store, user: User, db: Db, s': Store, id: string)
    requires Core(s) && GetIDStep(gen, s, user, db, s', Ok(id))
    ensures KeepsId(gen, s', user.userName, id) <==> !UncachedAnswer(s, user)
  {
    GetIDCachesUid(gen, s, user, db, s', id);
    GetIDKeepsCore(gen, s, user, db, s', Ok(id));
    if UncachedAnswer(s, user) {
      UncachedAnswerIs(gen, s, user, db, s', id);
      UncachedLosesId(gen, s', user, id);
    } else {
      CachedKeepsId(gen, s', user.userName);
    }
  }

  lemma UncachedAnswerIs(gen: string -> string, s: Store, user: User, db: Db, s': Store, id: string)
    requires Core(s) && GetIDStep(gen, s, user, db, s', Ok(id)) && UncachedAnswer(s, user)
    ensures s' == s && id in s.table && Unchanged(user, s.table[id])
  {
    var i :| i in s.table && s.table[i].uid == user.userName && Unchanged(user, s.table[i]);
    assert Hit(ByUid, user, s.table[i]) && Found(s, ByUid, user);
    assert Claims(s, ByUid, user, db.write, s', Ok(id));
  }

  /** The user is known as `id` and nothing about it is left to write. */
  predicate SettledAs(s: Store, user: User, id: string) {
    if user.userName in s.uidUserMap then
      var u := s.uidUserMap[user.userName];
      u.id == id && Unchanged(user, u)
    else id in s.table && Unchanged(user, s.table[id])
  }

  /** A call that can read by uid answers `id` and changes nothing exactly for a settled user. */
  lemma RepeatsExactly(gen: string -> string, s: Store, user: User, db: Db, s': Store, r: Result<string>, id: string)
    requires Core(s) && GetIDStep(gen, s, user, db, s', r) && db.readUid
    ensures s' == s && r == Ok(id) <==> SettledAs(s, user, id)
  {
    if user.userName !in s.uidUserMap {
      if SettledAs(s, user, id) {
        assert Hit(ByUid, user, s.table[id]) && Found(s, ByUid, user);
        assert Claims(s, ByUid, user, db.write, s', r);
      }
      GetIDOutcome(gen, s, user, db, s', r);
    }
  }

  // ----- Runs from the empty store -----

  const A := User("a", "n", "", false, "", "0")
  const B := A.(userName := "b")
  const C := A.(userName := "c")
  const A_RENAMED := A.(nickName := "m")
  const A_UNNAMED := A.(nickName := "")

  lemma FirstCreated(gen: string -> string, user: User)
    ensures var u := Created(gen, user);
            GetIDStep(gen, EMPTY_STORE, user, ALL_OK, Install(EMPTY_STORE, u, u), Ok(u.id))
            && Core(Install(EMPTY_STORE, u, u))
  {
    var u := Created(gen, user);
    CreatedOrRefused(gen, EMPTY_STORE, user);
    GetIDKeepsCore(gen, EMPTY_STORE, user, ALL_OK, Install(EMPTY_STORE, u, u), Ok(u.id));
  }

  /** An emptied nickname reaches the caches but not the row. */
  lemma EmptyNicknameSplitsCaches(gen: string -> string)
    ensures exists states, calls ::
              && calls == [GetID(A, ALL_OK, Ok(gen("a"))), GetID(A_UNNAMED, ALL_OK, Ok(gen("a")))]
              && Run(gen, states, calls) && states[0] == EMPTY_STORE && Synced(states[1]) && !Synced(states[2])
  {
    FirstCreated(gen, A);
    var s1 := Install(EMPTY_STORE, Created(gen, A), Created(gen, A));
    var s2 := CompareAndUpdate(s1, A_UNNAMED, Created(gen, A), true);
    assert !IdEntrySynced(s2, gen("a"));
    var states := [EMPTY_STORE, s1, s2];
    var calls := [GetID(A, ALL_OK, Ok(gen("a"))), GetID(A_UNNAMED, ALL_OK, Ok(gen("a")))];
    assert Step(gen, s1, calls[1], s2);
    assert Run(gen, states, calls);
  }

  /** One member, created under the user name `c` and found again under `a` after a new login. */
  function FoundAgain(id: string): Store {
    var row := Member(id, 1, "0", "n", "a");
    Store(map[id := row], map[id := row], map["c" := row.(uid := "c"), "a" := row])
  }

  /** The process has been restarted over that member. */
  function Restarted(id: string): Store {
    Store(map[id := Member(id, 1, "0", "n", "a")], map[], map[])
  }

  lemma FoundUnderNewName(gen: string -> string)
    ensures var u := Created(gen, C);
            Run(gen, [EMPTY_STORE, Install(EMPTY_STORE, u, u), FoundAgain(u.id), Restarted(u.id)],
                [GetID(C, ALL_OK, Ok(u.id)), GetID(A, ALL_OK, Ok(u.id)), Restart])
  {
    var u := Created(gen, C);
    var s := Install(EMPTY_STORE, u, u);
    FirstCreated(gen, C);
    ClaimedByNamesake(gen, s, C, u.id, "a");
    assert CompareAndUpdate(s, A, u, true) == FoundAgain(u.id);
    assert Step(gen, FoundAgain(u.id), Restart, Restarted(u.id));
  }

  /** After the restart: `a` is answered, a namesake claims the member, `a` comes back renamed. */
  lemma LostAfterRestart(gen: string -> string, id: string)
    requires gen("a") != id
    ensures var s := Restarted(id);
            var s1, u := CompareAndUpdate(s, B, s.table[id], true), Created(gen, A_RENAMED);
            Run(gen, [s, s, s1, Install(s1, u, u)],
                [GetID(A, ALL_OK, Ok(id)), GetID(B, ALL_OK, Ok(id)), GetID(A_RENAMED, ALL_OK, Ok(gen("a")))])
  {
    var s := Restarted(id);
    assert Hit(ByUid, A, s.table[id]) && Claims(s, ByUid, A, true, s, Ok(id));
    ClaimedByNamesake(gen, s, A, id, "b");
    NothingMatches(s, A, id, "b", "m");
    CreatedOrRefused(gen, CompareAndUpdate(s, B, s.table[id], true), A_RENAMED);
  }

  lemma RunThen(gen: string -> string, states: seq<Store>, calls: seq<Call>, more: seq<Store>, next: seq<Call>)
    requires Run(gen, states, calls) && Run(gen, more, next) && more[0] == states[|calls|]
    ensures Run(gen, states + more[1..], calls + next)
  {
    var all := states + more[1..];
    forall i | 0 <= i < |calls + next| ensures Step(gen, all[i], (calls + next)[i], all[i + 1]) {
      if i >= |calls| {
        assert all[i] == more[i - |calls|] && all[i + 1] == more[i + 1 - |calls|];
      }
    }
  }

  /** From the empty store, every call successful: `a` resolves to two ids within one process. */
  lemma UncachedIdentityLost(gen: string -> string)
    requires gen("a") != gen("c")
    ensures exists states, calls ::
              && Run(gen, states, calls) && states[0] == EMPTY_STORE
              && calls == [GetID(C, ALL_OK, Ok(gen("c"))), GetID(A, ALL_OK, Ok(gen("c"))), Restart,
                           GetID(A, ALL_OK, Ok(gen("c"))), GetID(B, ALL_OK, Ok(gen("c"))),
                           GetID(A_RENAMED, ALL_OK, Ok(gen("a")))]
  {
    var id, u, v := gen("c"), Created(gen, C), Created(gen, A_RENAMED);
    var s := Restarted(id);
    var s1 := CompareAndUpdate(s, B, s.table[id], true);
    FoundUnderNewName(gen);
    LostAfterRestart(gen, id);
    RunThen(gen, [EMPTY_STORE, Install(EMPTY_STORE, u, u), FoundAgain(id), s],
            [GetID(C, ALL_OK, Ok(id)), GetID(A, ALL_OK, Ok(id)), Restart],
            [s, s, s1, Install(s1, v, v)],
            [GetID(A, ALL_OK, Ok(id)), GetID(B, ALL_OK, Ok(id)), GetID(A_RENAMED, ALL_OK, Ok(gen("a")))]);
  }
}
