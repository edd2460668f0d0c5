/** Two groups of one name: the identity store gives them one id, and returned exits stop balancing. */
module TwinGroups {
  import opened Common
  import opened Members
  import opened MemberRuns
  import opened Lifetimes
  import opened Groups
  import opened Refreshes
  import opened Balances
  import opened MemberManagers
  import opened LiveRefresh

  lemma {:induction false} SearchFinds(gen: string -> string, s: Store, user: User, ls: seq<Lookup>, i: nat,
                                       s': Store, r: Result<string>)
    requires SearchStep(gen, s, user, ALL_OK, ls, s', r) && i < |ls| && Found(s, ls[i], user)
    ensures exists id :: id in s.table && r == Ok(s.table[id].id)
  {
    if !Found(s, ls[0], user) {
      SearchFinds(gen, s, user, ls[1..], i - 1, s', r);
    }
  }

  /** From the empty store any two groups of the same name resolve to one id. */
  lemma TwinGroupsShareId(gen: string -> string, g1: User, g2: User, s1: Store, s2: Store,
                          r1: Result<string>, r2: Result<string>)
    requires g1.isGroup && g2.isGroup && g1.nickName == g2.nickName
    requires GetIDStep(gen, EMPTY_STORE, g1, ALL_OK, s1, r1) && GetIDStep(gen, s1, g2, ALL_OK, s2, r2)
    ensures r1 == r2 == Ok(gen(g1.userName))
  {
    EmptyCreates(gen, g1, s1, r1);
    var id := gen(g1.userName);
    if g2.userName !in s1.uidUserMap {
      assert Hit(ByNickKind, g2, s1.table[id]) && Lookups(g2)[2] == ByNickKind;
      SearchFinds(gen, s1, g2, Lookups(g2), 2, s2, r2);
    }
  }

  lemma EmptyCreates(gen: string -> string, user: User, s: Store, r: Result<string>)
    requires GetIDStep(gen, EMPTY_STORE, user, ALL_OK, s, r)
    ensures var u := Created(gen, user); s == Install(EMPTY_STORE, u, u) && r == Ok(u.id)
  {
    forall l ensures !Found(EMPTY_STORE, l, user) {
    }
    MissesCreate(gen, EMPTY_STORE, user, ALL_OK, Lookups(user), s, r);
  }

  // ----- Two twins in one refresh -----

  const G1 := User("g1", "g", "", true, "p1", "")
  const G2 := User("g2", "g", "", true, "p2", "")

  /** Everything succeeds. */
  const SUCCESS := Env(ALL_OK, true, (n: nat) => ALL_OK, (n: nat) => true, (u: string) => true, (u: string) => 1)

  /** The first twin lists nobody, the second lists `A`. */
  function TwinVisits(gid: string, uid: string): seq<Visit> {
    [Visit(Group(G1, []), SUCCESS, Ok(gid), []), Visit(Group(G2, [A]), SUCCESS, Ok(gid), [Ok(uid)])]
  }

  function TwinStore(gen: string -> string, n: nat): Store {
    var u1 := Created(gen, G1);
    if n == 0 then EMPTY_STORE
    else if n == 1 then Install(EMPTY_STORE, u1, u1)
    else
      var s2 := CompareAndUpdate(Install(EMPTY_STORE, u1, u1), G2, u1, true);
      if n == 2 then s2 else Install(s2, Created(gen, A), Created(gen, A))
  }

  lemma TwinClaimed(gen: string -> string)
    ensures GetIDStep(gen, TwinStore(gen, 1), G2, ALL_OK, TwinStore(gen, 2), Ok(gen("g1")))
  {
    var s, s', id := TwinStore(gen, 1), TwinStore(gen, 2), gen("g1");
    assert !Found(s, ByUid, G2) && !Found(s, ByNickAttr, G2) && Hit(ByNickKind, G2, s.table[id]);
    assert Claims(s, ByNickKind, G2, true, s', Ok(id));
    ClaimAfterMisses(gen, s, G2, ALL_OK, Lookups(G2), 2, s', Ok(id));
  }

  lemma TwinSteps(gen: string -> string)
    requires gen("a") != gen("g1")
    ensures GetIDStep(gen, EMPTY_STORE, G1, ALL_OK, TwinStore(gen, 1), Ok(gen("g1")))
    ensures GetIDStep(gen, TwinStore(gen, 1), G2, ALL_OK, TwinStore(gen, 2), Ok(gen("g1")))
    ensures GetIDStep(gen, TwinStore(gen, 2), A, ALL_OK, TwinStore(gen, 3), Ok(gen("a")))
  {
    FirstCreated(gen, G1);
    TwinClaimed(gen);
    CreatedOrRefused(gen, TwinStore(gen, 2), A);
  }

  /** From then on all three names are cached and nothing changes. */
  lemma TwinsSettled(gen: string -> string)
    requires gen("a") != gen("g1")
    ensures var s := TwinStore(gen, 3);
            && GetIDStep(gen, s, G1, ALL_OK, s, Ok(gen("g1"))) && GetIDStep(gen, s, G2, ALL_OK, s, Ok(gen("g1")))
            && GetIDStep(gen, s, A, ALL_OK, s, Ok(gen("a")))
  {
  }

  lemma TwinRefresh(gen: string -> string, s: Store, s1: Store, s2: Store, s3: Store, gid: string, uid: string)
    requires GetIDStep(gen, s, G1, ALL_OK, s1, Ok(gid)) && GetIDStep(gen, s1, G2, ALL_OK, s2, Ok(gid))
    requires GetIDStep(gen, s2, A, ALL_OK, s3, Ok(uid))
    ensures ReachedBy(gen, s, TwinVisits(gid, uid), s3)
  {
    var vs, call := TwinVisits(gid, uid), GetID(A, ALL_OK, Ok(uid));
    assert Reaches(gen, s1, [], s1) && Reaches(gen, s2, [], s2);
    CalledThen(gen, s, vs[0], s1, s1);
    ReachesMore(gen, s2, [], s2, call, s3);
    assert MemberCalls([A], SUCCESS.memberDb, [Ok(uid)]) == [] + [call];
    CalledThen(gen, s1, vs[1], s2, s3);
    assert ReachedBy(gen, s, [], s) && [] + [vs[0]] == [vs[0]] && [vs[0]] + [vs[1]] == vs;
    VisitMore(gen, s, [], s, vs[0], s1);
    VisitMore(gen, s, [vs[0]], s1, vs[1], s3);
  }

  // ----- What the refreshes report -----

  function TwinPasses(gid: string, uid: string): seq<Pass> {
    [Pass(gid, [], SUCCESS.leaveOk, SUCCESS.clock), Pass(gid, [Listed(uid, "n", true)], SUCCESS.leaveOk, SUCCESS.clock)]
  }

  lemma TwinVisitsPass(gid: string, uid: string)
    ensures PassesOf(TwinVisits(gid, uid)) == TwinPasses(gid, uid)
  {
    var vs := TwinVisits(gid, uid);
    PassesOfAll(vs);
    var ids: seq<Result<string>> := [Ok(uid)];
    assert [A][..0] == [] && ids[..0] == [];
    assert ListedOf([A], ids, SUCCESS.memberWrite) == [] + [Listed(uid, "n", true)];
    assert PassOf(vs[0]) == TwinPasses(gid, uid)[0];
    assert PassOf(vs[1]) == TwinPasses(gid, uid)[1];
  }

  lemma TwinRow(row: Option<GroupRow>, gid: string, uid: string)
    requires row == None || row == Some(GroupRow("n", 0))
    ensures var ps, k := TwinPasses(gid, uid), Key(gid, uid);
            !Active(RowAt(row, ps, 1, k)) && RowAt(row, ps, 2, k) == Some(GroupRow("n", 0))
  {
    var ps, k := TwinPasses(gid, uid), Key(gid, uid);
    assert RowAt(row, ps, 0, k) == row;
    assert RowAt(row, ps, 1, k) == After(ps[0], row, uid);
  }

  lemma OnlyListedActive(gid: string, uid: string, other: string)
    requires other != uid
    ensures RowAt(None, TwinPasses(gid, uid), 2, Key(gid, other)) == None
  {
    var ps, k := TwinPasses(gid, uid), Key(gid, other);
    assert ps[1].listed[1..] == [];
    assert RowAt(None, ps, 0, k) == None;
    assert RowAt(None, ps, 1, k) == None;
  }

  /** A member present before a refresh and after it is among the exits it returns. */
  ghost predicate ReturnsPresent(t: Table, ps: seq<Pass>, k: Key) {
    Active(Row(t, k)) && Active(Row(ApplyAll(t, ps), k)) && Names(ReportOf(t, ps), k)
  }

  /** After the first refresh the second reports the member on the way, and the member is back in the end. */
  lemma TwinReport(gid: string, uid: string)
    ensures var ps, k := TwinPasses(gid, uid), Key(gid, uid); var t := ApplyAll(map[], ps);
            ReturnsPresent(t, ps, k)
  {
    var ps, k := TwinPasses(gid, uid), Key(gid, uid);
    var t := ApplyAll(map[], ps);
    TwinRow(None, gid, uid);
    RowInTheEnd(map[], ps, k);
    TwinRow(Row(t, k), gid, uid);
    RowInTheEnd(t, ps, k);
    RowAtIs(t, ps, 1, k);
    forall other ensures !Exits(ApplyAll(t, ps[..1]), ps[1], other) {
      if other != uid {
        RowAtIs(t, ps, 1, Key(gid, other));
        RowInTheEnd(map[], ps, Key(gid, other));
        OnlyListedActive(gid, uid, other);
      }
    }
    NoExitNoRow(ApplyAll(t, ps[..1]), ps[1]);
    ExitRowsNames(t, ps[0], uid);
    assert ps[..1][..0] == [] && ApplyAll(t, []) == t;
    NoExitNoRow(t, ps[0]);
    assert Exits(t, ps[0], uid);
  }

  lemma TwinRuns(gen: string -> string)
    requires gen("a") != gen("g1")
    ensures var vs, s := TwinVisits(gen("g1"), gen("a")), TwinStore(gen, 3);
            ReachedBy(gen, EMPTY_STORE, vs, s) && ReachedBy(gen, s, vs, s)
  {
    var gid, uid, s := gen("g1"), gen("a"), TwinStore(gen, 3);
    TwinSteps(gen);
    TwinRefresh(gen, EMPTY_STORE, TwinStore(gen, 1), TwinStore(gen, 2), s, gid, uid);
    TwinsSettled(gen);
    TwinRefresh(gen, s, s, s, s, gid, uid);
  }

  /**
   Two refreshes from nothing, every operation successful: the second returns a member as gone who was
   there before it and is there after it.
   */
  lemma RepeatedGroupBreaksBalance(gen: string -> string)
    requires gen("a") != gen("g1")
    ensures exists vs: seq<Visit>, s: Store, k: Key ::
              && ReachedBy(gen, EMPTY_STORE, vs, s) && ReachedBy(gen, s, vs, s)
              && (forall v :: v in vs ==> v.env == SUCCESS)
              && ReturnsPresent(ApplyAll(map[], PassesOf(vs)), PassesOf(vs), k)
  {
    var gid, uid := gen("g1"), gen("a");
    TwinRuns(gen);
    TwinVisitsPass(gid, uid);
    TwinReport(gid, uid);
    assert ReturnsPresent(ApplyAll(map[], TwinPasses(gid, uid)), TwinPasses(gid, uid), Key(gid, uid));
  }
}
