/** Refreshing the live groups: resolution through the identity store joined with reconciliation. */
module LiveRefresh {
  import opened Common
  import opened Members
  import opened MemberRuns
  import opened Lifetimes
  import opened Groups
  import opened Refreshes
  import opened MemberManagers

  // ----- Names that are cached -----

  ghost predicate Cached(s: Store, user: User) {
    user.userName in s.uidUserMap
  }

  ghost predicate AllCached(s: Store, g: Group) {
    Cached(s, g.user) && forall m :: m in g.members ==> Cached(s, m)
  }

  function CachedIds(s: Store, members: seq<User>): seq<Result<string>>
    requires forall m :: m in members ==> m.userName in s.uidUserMap
  {
    seq(|members|, i requires 0 <= i < |members| => Ok(s.uidUserMap[members[i].userName].id))
  }

  /** The visit resolves the group and all its members as `s` has them cached. */
  ghost predicate AnswersCached(s: Store, v: Visit) {
    && AllCached(s, v.group) && Reconciled(v)
    && v.gid == Ok(s.uidUserMap[v.group.user.userName].id)
    && (assert forall m :: m in v.group.members ==> Cached(s, m); v.ids == CachedIds(s, v.group.members))
  }

  lemma {:induction false} CachedCallResolves(gen: string -> string, s: Store, calls: seq<Call>, s': Store, i: nat)
    requires Core(s) && Reaches(gen, s, calls, s') && i < |calls| && forall j :: 0 <= j < |calls| ==> !calls[j].Restart?
    requires calls[i].GetID? && calls[i].user.userName in s.uidUserMap
    ensures calls[i].id == Ok(s.uidUserMap[calls[i].user.userName].id)
  {
    var n := |calls| - 1;
    var mid :| Reaches(gen, s, calls[..n], mid) && LastStep(gen, mid, calls, s');
    assert forall j :: 0 <= j < n ==> calls[..n][j] == calls[j];
    if i == n {
      ReachesKeepsCore(gen, s, calls[..n], mid);
    } else {
      CachedCallResolves(gen, s, calls[..n], mid, i);
    }
  }

  lemma CachedVisitResolves(gen: string -> string, s: Store, v: Visit, s': Store)
    requires Core(s) && Called(gen, s, v, s') && AllCached(s, v.group) && v.env.readMembers
    ensures AnswersCached(s, v)
  {
    MemberCallsAreGetID(v.group.members, v.env.memberDb, v.ids);
    CachedCallResolves(gen, s, CallsOf(v), s', 0);
    forall i | 0 <= i < |v.ids|
      ensures Cached(s, v.group.members[i]) && v.ids[i] == Ok(s.uidUserMap[v.group.members[i].userName].id)
    {
      assert CallsOf(v)[i + 1] == GetID(v.group.members[i], v.env.memberDb(i), v.ids[i]);
      assert v.group.members[i] in v.group.members;
      CachedCallResolves(gen, s, CallsOf(v), s', i + 1);
    }
  }

  lemma CachedEarlier(s: Store, mid: Store, v: Visit)
    requires Grows(s, mid) && AllCached(s, v.group) && AnswersCached(mid, v)
    ensures AnswersCached(s, v)
  {
    forall i | 0 <= i < |v.ids|
      ensures Cached(s, v.group.members[i]) && v.ids[i] == Ok(s.uidUserMap[v.group.members[i].userName].id)
    {
      assert v.group.members[i] in v.group.members;
    }
  }

  lemma CachedStays(s: Store, mid: Store, g: Group)
    requires Grows(s, mid) && AllCached(s, g)
    ensures AllCached(mid, g)
  {
    forall m | m in g.members ensures Cached(mid, m) {
      assert Cached(s, m);
    }
  }

  ghost predicate Smooth(s: Store, v: Visit) {
    AllCached(s, v.group) && v.env.readMembers
  }

  lemma LastAsCached(gen: string -> string, s: Store, earlier: seq<Visit>, mid: Store, v: Visit, s': Store)
    requires Core(s) && Smooth(s, v) && ReachedBy(gen, s, earlier, mid) && Called(gen, mid, v, s')
    ensures AnswersCached(s, v)
  {
    VisitsKeepCore(gen, s, earlier, mid);
    CachedStays(s, mid, v.group);
    CachedVisitResolves(gen, mid, v, s');
    CachedEarlier(s, mid, v);
  }

  ghost predicate AllSmooth(s: Store, vs: seq<Visit>) {
    forall v :: v in vs ==> Smooth(s, v)
  }

  ghost predicate AllAnswersCached(s: Store, vs: seq<Visit>) {
    forall v :: v in vs ==> AnswersCached(s, v)
  }

  lemma LastOf<T>(vs: seq<T>)
    requires vs != []
    ensures vs == vs[..|vs| - 1] + [vs[|vs| - 1]]
  {
  }

  lemma AllAnswersMore(s: Store, vs: seq<Visit>, v: Visit)
    requires AllAnswersCached(s, vs) && AnswersCached(s, v)
    ensures AllAnswersCached(s, vs + [v])
  {
  }

  lemma AllSmoothInit(s: Store, vs: seq<Visit>, v: Visit)
    requires AllSmooth(s, vs + [v])
    ensures AllSmooth(s, vs) && Smooth(s, v)
  {
    assert v in vs + [v] && forall w :: w in vs ==> w in vs + [v];
  }

  /** Refreshing groups whose names are all cached resolves every one of them as the cache says. */
  lemma {:induction false} CachedRefreshResolves(gen: string -> string, s: Store, vs: seq<Visit>, s': Store)
    requires Core(s) && ReachedBy(gen, s, vs, s') && AllSmooth(s, vs)
    ensures AllAnswersCached(s, vs)
  {
    if vs != [] {
      var earlier, v := vs[..|vs| - 1], vs[|vs| - 1];
      var mid := LastVisit(gen, s, vs, s');
      LastOf(vs);
      AllSmoothInit(s, earlier, v);
      CachedRefreshResolves(gen, s, earlier, mid);
      LastAsCached(gen, s, earlier, mid, v, s');
      AllAnswersMore(s, earlier, v);
    }
  }

  // ----- Names that are settled -----

  /** All answers of the visit are settled. */
  ghost predicate Settled(s: Store, v: Visit) {
    && Reconciled(v) && SettledAs(s, v.group.user, v.gid.value)
    && forall j :: 0 <= j < |v.ids| ==> v.ids[j].Ok? && SettledAs(s, v.group.members[j], v.ids[j].value)
  }

  /** Rows can be read, and members by uid. */
  ghost predicate Readable(env: Env) {
    env.readMembers && env.groupDb.readUid && forall n :: env.memberDb(n).readUid
  }

  ghost predicate SameAnswers(v: Visit, w: Visit) {
    w.group == v.group && w.gid == v.gid && w.ids == v.ids
  }

  ghost predicate SettledCall(s: Store, call: Call, id: string) {
    call.GetID? && call.db.readUid && SettledAs(s, call.user, id)
  }

  lemma {:induction false} SettledCallsRepeat(gen: string -> string, s: Store, calls: seq<Call>, s': Store,
                                              ids: seq<string>)
    requires Core(s) && Reaches(gen, s, calls, s') && |calls| == |ids|
    requires forall i :: 0 <= i < |ids| ==> SettledCall(s, calls[i], ids[i])
    ensures s' == s && forall i :: 0 <= i < |ids| ==> calls[i].GetID? && calls[i].id == Ok(ids[i])
  {
    if calls != [] {
      var n := |calls| - 1;
      var mid :| Reaches(gen, s, calls[..n], mid) && LastStep(gen, mid, calls, s');
      SettledCallsRepeat(gen, s, calls[..n], mid, ids[..n]);
      assert SettledCall(s, calls[n], ids[n]);
      RepeatsExactly(gen, s, calls[n].user, calls[n].db, s', calls[n].id, ids[n]);
      assert forall i :: 0 <= i < n ==> calls[i] == calls[..n][i] && ids[i] == ids[..n][i];
    }
  }

  /** What the visit answered, for as many members as asked. */
  function Answers(v: Visit, n: nat): seq<string>
    requires v.gid.Ok? && n <= |v.ids| && forall j :: 0 <= j < |v.ids| ==> v.ids[j].Ok?
  {
    [v.gid.value] + seq(n, j requires 0 <= j < n => v.ids[j].value)
  }

  lemma SettledCalls(s: Store, v: Visit, w: Visit)
    requires Settled(s, v) && w.group == v.group && Readable(w.env) && |w.ids| <= |v.ids|
    ensures |CallsOf(w)| == 1 + |w.ids|
    ensures forall i :: 0 <= i <= |w.ids| ==> SettledCall(s, CallsOf(w)[i], Answers(v, |w.ids|)[i])
  {
    MemberCallsAreGetID(w.group.members, w.env.memberDb, w.ids);
    forall i | 0 < i <= |w.ids| ensures SettledCall(s, CallsOf(w)[i], Answers(v, |w.ids|)[i]) {
      assert CallsOf(w)[i] == GetID(w.group.members[i - 1], w.env.memberDb(i - 1), w.ids[i - 1]);
    }
  }

  lemma AnsweredAlike(v: Visit, w: Visit)
    requires w.group == v.group && Complete(w) && w.env.readMembers
    requires Reconciled(v) && forall j :: 0 <= j < |v.ids| ==> v.ids[j].Ok?
    requires |w.ids| <= |v.ids| && |CallsOf(w)| == 1 + |w.ids|
    requires forall i :: 0 <= i <= |w.ids| ==> CallsOf(w)[i].GetID? && CallsOf(w)[i].id == Ok(Answers(v, |w.ids|)[i])
    ensures SameAnswers(v, w)
  {
    MemberCallsAreGetID(w.group.members, w.env.memberDb, w.ids);
    assert CallsOf(w)[0] == GetID(w.group.user, w.env.groupDb, w.gid);
    forall j | 0 <= j < |w.ids| ensures w.ids[j] == v.ids[j] {
      assert CallsOf(w)[j + 1] == GetID(w.group.members[j], w.env.memberDb(j), w.ids[j]);
    }
  }

  lemma SettledVisitRepeats(gen: string -> string, s: Store, v: Visit, w: Visit, s': Store)
    requires Core(s) && Settled(s, v) && w.group == v.group && Readable(w.env) && Called(gen, s, w, s')
    ensures s' == s && SameAnswers(v, w) && Settled(s, w)
  {
    SettledCalls(s, v, w);
    SettledCallsRepeat(gen, s, CallsOf(w), s', Answers(v, |w.ids|));
    AnsweredAlike(v, w);
  }

  /** Every visit of `ws` finds the same settled answers as that of `vs`. */
  ghost predicate Repeats(s: Store, vs: seq<Visit>, ws: seq<Visit>) {
    |vs| == |ws| && forall i :: 0 <= i < |ws| ==> SameAnswers(vs[i], ws[i]) && Settled(s, ws[i])
  }

  ghost predicate MayRepeat(s: Store, vs: seq<Visit>, ws: seq<Visit>) {
    |vs| == |ws| && forall i :: 0 <= i < |ws| ==> Settled(s, vs[i]) && ws[i].group == vs[i].group && Readable(ws[i].env)
  }

  lemma RepeatsMore(s: Store, vs: seq<Visit>, ws: seq<Visit>, v: Visit, w: Visit)
    requires Repeats(s, vs, ws) && SameAnswers(v, w) && Settled(s, w)
    ensures Repeats(s, vs + [v], ws + [w])
  {
  }

  lemma MayRepeatInit(s: Store, vs: seq<Visit>, ws: seq<Visit>)
    requires MayRepeat(s, vs, ws) && ws != []
    ensures var n := |ws| - 1;
            MayRepeat(s, vs[..n], ws[..n]) && Settled(s, vs[n]) && ws[n].group == vs[n].group && Readable(ws[n].env)
  {
  }

  /** Once all answers of a refresh are settled, the next refresh repeats them and leaves the store alone. */
  lemma {:induction false} SettledRefreshRepeats(gen: string -> string, s: Store, vs: seq<Visit>, ws: seq<Visit>,
                                                 s': Store)
    requires Core(s) && ReachedBy(gen, s, ws, s') && MayRepeat(s, vs, ws)
    ensures s' == s && Repeats(s, vs, ws)
  {
    if ws != [] {
      var n := |ws| - 1;
      var mid := LastVisit(gen, s, ws, s');
      MayRepeatInit(s, vs, ws);
      SettledRefreshRepeats(gen, s, vs[..n], ws[..n], mid);
      SettledVisitRepeats(gen, s, vs[n], ws[n], s');
      RepeatsMore(s, vs[..n], ws[..n], vs[n], ws[n]);
      LastOf(vs);
      LastOf(ws);
    }
  }

  // ----- Convergence -----

  ghost predicate AllWrites(env: Env) {
    (forall n :: env.memberWrite(n)) && (forall uid :: env.leaveOk(uid))
  }

  lemma {:induction false} ListedWhenWritten(members: seq<User>, ids: seq<Result<string>>, e: Env, f: Env)
    requires |members| == |ids| && AllWrites(e) && AllWrites(f)
    ensures ListedOf(members, ids, e.memberWrite) == ListedOf(members, ids, f.memberWrite)
    ensures AllWritten(ListedOf(members, ids, e.memberWrite))
  {
    if members != [] {
      ListedWhenWritten(members[..|members| - 1], ids[..|ids| - 1], e, f);
    }
  }

  /** A refresh of `groups` in which every read of rows and every write of rows succeeds. */
  ghost predicate RefreshRun(gen: string -> string, s: Store, groups: seq<Group>, vs: seq<Visit>, s': Store) {
    && ReachedBy(gen, s, vs, s') && |vs| == |groups|
    && forall i :: 0 <= i < |vs| ==> vs[i].group == groups[i] && vs[i].env.readMembers && AllWrites(vs[i].env)
  }

  /** The refresh has read every group, under different ids. */
  ghost predicate Distinguished(vs: seq<Visit>) {
    && (forall i :: 0 <= i < |vs| ==> Reconciled(vs[i]) && AllWrites(vs[i].env))
    && (forall i, j :: 0 <= i < j < |vs| ==> vs[i].gid != vs[j].gid)
  }

  lemma {:induction false} PassesOfAll(vs: seq<Visit>)
    requires forall i :: 0 <= i < |vs| ==> Reconciled(vs[i])
    ensures |PassesOf(vs)| == |vs| && forall i :: 0 <= i < |vs| ==> PassesOf(vs)[i] == PassOf(vs[i])
  {
    if vs != [] {
      PassesOfAll(vs[..|vs| - 1]);
    }
  }

  lemma DistinguishedSettles(vs: seq<Visit>)
    requires Distinguished(vs)
    ensures Settling(PassesOf(vs))
  {
    PassesOfAll(vs);
    forall i | 0 <= i < |vs| ensures AllWritten(PassesOf(vs)[i].listed) {
      ListedWhenWritten(vs[i].group.members, vs[i].ids, vs[i].env, vs[i].env);
    }
  }

  lemma SameAnswersSamePasses(vs: seq<Visit>, ws: seq<Visit>)
    requires Distinguished(vs) && |ws| == |vs|
    requires forall i :: 0 <= i < |vs| ==> SameAnswers(vs[i], ws[i]) && AllWrites(ws[i].env) && ws[i].env.readMembers
    ensures Distinguished(ws) && SameSnapshot(PassesOf(vs), PassesOf(ws))
  {
    PassesOfAll(vs);
    PassesOfAll(ws);
    forall i | 0 <= i < |vs| ensures PassOf(vs[i]).listed == PassOf(ws[i]).listed {
      ListedWhenWritten(vs[i].group.members, vs[i].ids, vs[i].env, ws[i].env);
    }
  }

  lemma CachedSameAnswers(gen: string -> string, groups: seq<Group>, s: Store, vs: seq<Visit>, s': Store,
                          ws: seq<Visit>, s'': Store)
    requires Core(s) && RefreshRun(gen, s, groups, vs, s') && RefreshRun(gen, s', groups, ws, s'')
    requires forall i :: 0 <= i < |groups| ==> AllCached(s, groups[i])
    ensures forall i :: 0 <= i < |groups| ==> AllCached(s', groups[i]) && SameAnswers(vs[i], ws[i])
  {
    VisitsKeepCore(gen, s, vs, s');
    forall i | 0 <= i < |groups| ensures AllCached(s', groups[i]) {
      CachedStays(s, s', groups[i]);
    }
    CachedRefreshResolves(gen, s, vs, s');
    CachedRefreshResolves(gen, s', ws, s'');
    forall i | 0 <= i < |groups| ensures SameAnswers(vs[i], ws[i]) {
      assert AnswersCached(s, vs[i]) && AnswersCached(s', ws[i]);
      CachedEarlier(s, s', ws[i]);
    }
  }

  /** The names are cached before the first refresh, or settled after it and found by uid later on. */
  ghost predicate Steady(s0: Store, us: seq<Visit>, s1: Store, vs: seq<Visit>, ws: seq<Visit>) {
    || (forall i :: 0 <= i < |us| ==> AllCached(s0, us[i].group))
    || (MayRepeat(s1, us, vs) && forall i :: 0 <= i < |ws| ==> Readable(ws[i].env))
  }

  lemma SteadySameAnswers(gen: string -> string, groups: seq<Group>, s0: Store, us: seq<Visit>, s1: Store,
                          vs: seq<Visit>, s2: Store, ws: seq<Visit>, s3: Store)
    requires Core(s0) && Steady(s0, us, s1, vs, ws)
    requires RefreshRun(gen, s0, groups, us, s1) && RefreshRun(gen, s1, groups, vs, s2)
    requires RefreshRun(gen, s2, groups, ws, s3)
    ensures forall i :: 0 <= i < |groups| ==> SameAnswers(us[i], vs[i]) && SameAnswers(vs[i], ws[i])
  {
    VisitsKeepCore(gen, s0, us, s1);
    if MayRepeat(s1, us, vs) && forall i :: 0 <= i < |ws| ==> Readable(ws[i].env) {
      SettledRefreshRepeats(gen, s1, us, vs, s2);
      SettledRefreshRepeats(gen, s1, vs, ws, s3);
    } else {
      CachedSameAnswers(gen, groups, s0, us, s1, vs, s2);
      CachedSameAnswers(gen, groups, s1, vs, s2, ws, s3);
    }
  }

  /**
   Convergence on live data: three refreshes of the same lists, the first of which may follow a
   restart. If their names are cached before it or settled after it, and the groups have different
   ids, the second reports nobody and reaches the table the third leaves alone.
   */
  lemma LiveRefreshConverges(gen: string -> string, groups: seq<Group>, t: Table,
                             s0: Store, us: seq<Visit>, s1: Store, vs: seq<Visit>, s2: Store, ws: seq<Visit>, s3: Store)
    requires Core(s0) && Distinguished(us) && Steady(s0, us, s1, vs, ws)
    requires RefreshRun(gen, s0, groups, us, s1) && RefreshRun(gen, s1, groups, vs, s2)
    requires RefreshRun(gen, s2, groups, ws, s3)
    ensures var t1, t2 := ApplyAll(t, PassesOf(us)), ApplyAll(ApplyAll(t, PassesOf(us)), PassesOf(vs));
            ApplyAll(t2, PassesOf(ws)) == t2 && ReportOf(t1, PassesOf(vs)) == map[]
  {
    SteadySameAnswers(gen, groups, s0, us, s1, vs, s2, ws, s3);
    SameAnswersSamePasses(us, vs);
    SameAnswersSamePasses(vs, ws);
    DistinguishedSettles(us);
    DistinguishedSettles(vs);
    DistinguishedSettles(ws);
    TwoPassConvergence(t, PassesOf(us), PassesOf(vs), PassesOf(ws));
  }
}
