/**
 The stateful member manager of hub/member_manager.go. Its fields are the two database tables and
 the two caches; every method is proved against the relations of Members and the pass functions of
 Groups. How the database and the clock behave is an argument of each call.
 */
module MemberManagers {
  import opened Common
  import opened Members
  import opened MemberRuns
  import opened Groups
  import opened Refreshes

  /** A live group and the members it lists; a listing that could not be fetched is empty. */
  datatype Group = Group(user: User, members: seq<User>)

  /** The database and the clock while one group is refreshed. */
  datatype Env = Env(groupDb: Db, readMembers: bool, memberDb: nat -> Db,
                     memberWrite: nat -> bool, leaveOk: string -> bool, clock: string -> Millis)

  /** One turn of the refresh: how the group's id and its members' ids were resolved. */
  datatype Visit = Visit(group: Group, env: Env, gid: Result<string>, ids: seq<Result<string>>)

  function ShownName(user: User): string {
    if user.displayName != "" then user.displayName else user.nickName
  }

  /** Members whose id could not be resolved are passed over. */
  function ListedOf(members: seq<User>, ids: seq<Result<string>>, writes: nat -> bool): seq<Listed>
    requires |members| == |ids|
  {
    if members == [] then [] else
      var n := |members| - 1;
      ListedOf(members[..n], ids[..n], writes)
      + if ids[n].Ok? then [Listed(ids[n].value, ShownName(members[n]), writes(n))] else []
  }

  /** The pass over the members resolved so far. */
  function ListingOf(gid: string, members: seq<User>, ids: seq<Result<string>>, env: Env): Pass
    requires |members| == |ids|
  {
    Pass(gid, ListedOf(members, ids, env.memberWrite), env.leaveOk, env.clock)
  }

  /** The group's id and its rows could both be read, so its members are reconciled. */
  predicate Reconciled(v: Visit) {
    v.gid.Ok? && v.env.readMembers && |v.ids| == |v.group.members|
  }

  function PassOf(v: Visit): Pass
    requires Reconciled(v)
  {
    ListingOf(v.gid.value, v.group.members, v.ids, v.env)
  }

  function PassesOf(vs: seq<Visit>): seq<Pass> {
    if vs == [] then [] else
      PassesOf(vs[..|vs| - 1]) + if Reconciled(vs[|vs| - 1]) then [PassOf(vs[|vs| - 1])] else []
  }

  function MemberCalls(members: seq<User>, dbs: nat -> Db, ids: seq<Result<string>>): seq<Call>
    requires |ids| <= |members|
  {
    if ids == [] then [] else
      var n := |ids| - 1;
      MemberCalls(members, dbs, ids[..n]) + [GetID(members[n], dbs(n), ids[n])]
  }

  function CallsOf(v: Visit): seq<Call>
    requires |v.ids| <= |v.group.members|
  {
    [GetID(v.group.user, v.env.groupDb, v.gid)] + MemberCalls(v.group.members, v.env.memberDb, v.ids)
  }

  /** The store `s'` is reached from `s` by exactly the calls of the visits, in order. */
  ghost predicate ReachedBy(gen: string -> string, s: Store, vs: seq<Visit>, s': Store) {
    if vs == [] then s' == s else
      var v := vs[|vs| - 1];
      exists mid :: ReachedBy(gen, s, vs[..|vs| - 1], mid) && Called(gen, mid, v, s')
  }

  ghost predicate Reaches(gen: string -> string, s: Store, calls: seq<Call>, s': Store) {
    if calls == [] then s' == s else
      exists mid :: Reaches(gen, s, calls[..|calls| - 1], mid) && LastStep(gen, mid, calls, s')
  }

  ghost predicate LastStep(gen: string -> string, s: Store, calls: seq<Call>, s': Store) {
    calls != [] && Step(gen, s, calls[|calls| - 1], s')
  }

  lemma ReachesMore(gen: string -> string, s: Store, calls: seq<Call>, mid: Store, call: Call, s': Store)
    requires Reaches(gen, s, calls, mid) && Step(gen, mid, call, s')
    ensures Reaches(gen, s, calls + [call], s')
  {
    assert (calls + [call])[..|calls|] == calls && LastStep(gen, mid, calls + [call], s');
  }

  lemma {:induction false} ReachesKeepsCore(gen: string -> string, s: Store, calls: seq<Call>, s': Store)
    requires Core(s) && Reaches(gen, s, calls, s') && forall i :: 0 <= i < |calls| ==> !calls[i].Restart?
    ensures Core(s') && Grows(s, s')
  {
    if calls != [] {
      var n := |calls| - 1;
      var mid :| Reaches(gen, s, calls[..n], mid) && LastStep(gen, mid, calls, s');
      assert forall i :: 0 <= i < n ==> calls[..n][i] == calls[i];
      ReachesKeepsCore(gen, s, calls[..n], mid);
      StepKeepsCore(gen, mid, calls[n], s');
    }
  }

  lemma {:induction false} MemberCallsAreGetID(members: seq<User>, dbs: nat -> Db, ids: seq<Result<string>>)
    requires |ids| <= |members|
    ensures |MemberCalls(members, dbs, ids)| == |ids|
    ensures forall i :: 0 <= i < |ids| ==> MemberCalls(members, dbs, ids)[i] == GetID(members[i], dbs(i), ids[i])
  {
    if ids != [] {
      MemberCallsAreGetID(members, dbs, ids[..|ids| - 1]);
    }
  }

  /** A refresh keeps the identity invariant and forgets no cached uid. */
  lemma {:induction false} VisitsKeepCore(gen: string -> string, s: Store, vs: seq<Visit>, s': Store)
    requires Core(s) && ReachedBy(gen, s, vs, s')
    ensures Core(s') && Grows(s, s')
  {
    if vs != [] {
      var v := vs[|vs| - 1];
      var mid :| ReachedBy(gen, s, vs[..|vs| - 1], mid) && Called(gen, mid, v, s');
      VisitsKeepCore(gen, s, vs[..|vs| - 1], mid);
      MemberCallsAreGetID(v.group.members, v.env.memberDb, v.ids);
      ReachesKeepsCore(gen, mid, CallsOf(v), s');
    }
  }

  // ----- The listing seen so far -----

  /** The rows while the members are walked through: those listed so far are done, the rest untouched. */
  ghost predicate HalfWay(t0: Table, t: Table, p: Pass) {
    forall k: Key :: Row(t, k) == if k.gid == p.gid && FirstListing(p.listed, k.uid).Some?
                                  then After(p, Row(t0, k), k.uid) else Row(t0, k)
  }

  /** The fetched rows not yet matched by a listed member. */
  ghost predicate Unmatched(t0: Table, rows: map<string, GroupUser>, p: Pass) {
    && (forall uid :: uid in rows <==> Key(p.gid, uid) in t0 && FirstListing(p.listed, uid).None?)
    && (forall uid :: uid in rows ==> rows[uid] == UserOf(t0, Key(p.gid, uid)))
  }

  /** Listing one more member changes its own row only. */
  lemma MatchedRow(t0: Table, t: Table, t': Table, p: Pass, more: Listed)
    requires HalfWay(t0, t, p) && forall k: Key :: k != Key(p.gid, more.uid) ==> Row(t', k) == Row(t, k)
    requires Row(t', Key(p.gid, more.uid))
             == After(p.(listed := p.listed + [more]), Row(t0, Key(p.gid, more.uid)), more.uid)
    ensures HalfWay(t0, t', p.(listed := p.listed + [more]))
  {
    var p' := p.(listed := p.listed + [more]);
    forall k: Key ensures Row(t', k) == if k.gid == p.gid && FirstListing(p'.listed, k.uid).Some?
                                        then After(p', Row(t0, k), k.uid) else Row(t0, k) {
      ListingAppend(p.listed, more, k.uid);
    }
  }

  lemma UnmatchedShrinks(t0: Table, rows: map<string, GroupUser>, rest: map<string, GroupUser>, p: Pass, more: Listed)
    requires Unmatched(t0, rows, p) && rest == map u | u in rows && u != more.uid :: rows[u]
    ensures Unmatched(t0, rest, p.(listed := p.listed + [more]))
  {
    forall uid: string
      ensures FirstListing(p.listed + [more], uid).None? <==> FirstListing(p.listed, uid).None? && uid != more.uid
    {
      ListingAppend(p.listed, more, uid);
    }
  }

  /** The rows while the unmatched members are stamped: those not in `rest` are done. */
  ghost predicate StampedDown(t0: Table, t: Table, p: Pass, rows: map<string, GroupUser>, rest: set<string>) {
    forall k: Key :: Row(t, k)
      == if k.gid == p.gid && (FirstListing(p.listed, k.uid).Some? || (k.uid in rows && k.uid !in rest))
         then After(p, Row(t0, k), k.uid) else Row(t0, k)
  }

  lemma StampMore(t0: Table, t: Table, t': Table, p: Pass, rows: map<string, GroupUser>, rest: set<string>, uid: string)
    requires StampedDown(t0, t, p, rows, rest) && Unmatched(t0, rows, p) && uid in rows && uid in rest
    requires var k := Key(p.gid, uid);
             t' == if rows[uid].leaveTime == 0 && p.leaveOk(uid) && k in t then t[k := t[k].(leaveTime := p.clock(uid))]
                   else t
    ensures StampedDown(t0, t', p, rows, rest - {uid})
  {
    assert Row(t, Key(p.gid, uid)) == Row(t0, Key(p.gid, uid));
  }

  lemma StampedDone(t0: Table, t: Table, p: Pass, rows: map<string, GroupUser>)
    requires StampedDown(t0, t, p, rows, {}) && Unmatched(t0, rows, p)
    ensures t == ApplyPass(t0, p)
  {
    forall k: Key ensures Row(t, k) == Row(ApplyPass(t0, p), k) {
      Unlisted(p.listed, k.uid);
    }
    SameTable(ApplyPass(t0, p), t);
  }

  /** The active rows outside `rest`, each once. */
  ghost predicate CollectedDown(exits: seq<GroupUser>, rows: map<string, GroupUser>, rest: set<string>) {
    && (forall i :: 0 <= i < |exits| ==>
          exits[i].uid in rows && exits[i].uid !in rest && exits[i].leaveTime == 0 && exits[i] == rows[exits[i].uid])
    && (forall uid :: uid in rows && uid !in rest && rows[uid].leaveTime == 0 ==> rows[uid] in exits)
    && NoRepeats(exits)
  }

  lemma CollectMore(exits: seq<GroupUser>, rows: map<string, GroupUser>, rest: set<string>, uid: string)
    requires CollectedDown(exits, rows, rest) && uid in rest && uid in rows && rows[uid].uid == uid
    ensures rows[uid].leaveTime > 0 ==> CollectedDown(exits, rows, rest - {uid})
    ensures rows[uid].leaveTime == 0 ==> CollectedDown(exits + [rows[uid]], rows, rest - {uid})
  {
    var more := exits + [rows[uid]];
    assert more[|exits|] == rows[uid];
    assert forall x :: x in exits ==> x in more;
  }

  ghost predicate NoRepeats<T>(s: seq<T>) {
    forall i, j :: 0 <= i < j < |s| ==> s[i] != s[j]
  }

  function Elements<T(==)>(s: seq<T>): set<T> {
    set x | x in s
  }

  /** The returned lists hold the reported rows, each once, in any order. */
  ghost predicate Lists(exits: map<string, seq<GroupUser>>, report: Report) {
    && exits.Keys == report.Keys
    && (forall gid :: gid in exits ==> Elements(exits[gid]) == report[gid] && NoRepeats(exits[gid]))
  }

  lemma ExitsCollected(t0: Table, p: Pass, rows: map<string, GroupUser>, exits: seq<GroupUser>)
    requires Unmatched(t0, rows, p)
    requires CollectedDown(exits, rows, {})
    ensures Elements(exits) == ExitRows(t0, p)
  {
    forall u | u in ExitRows(t0, p) ensures u in exits {
      var k :| k in t0.Keys && Gone(t0, p, k) && u == UserOf(t0, k);
      assert rows[k.uid] in exits;
    }
    forall u | u in exits ensures u in ExitRows(t0, p) {
      var k := Key(p.gid, u.uid);
      assert Gone(t0, p, k) && u == UserOf(t0, k);
    }
  }

  lemma LastStepAfter(gen: string -> string, calls: seq<Call>, mid: Store, more: seq<Call>, s': Store)
    requires LastStep(gen, mid, more, s')
    ensures LastStep(gen, mid, calls + more, s')
  {
    assert (calls + more)[|calls + more| - 1] == more[|more| - 1];
  }

  lemma {:induction false} ReachesThen(gen: string -> string, s: Store, calls: seq<Call>, mid: Store,
                                       more: seq<Call>, s': Store)
    requires Reaches(gen, s, calls, mid) && Reaches(gen, mid, more, s')
    ensures Reaches(gen, s, calls + more, s')
  {
    if more == [] {
      assert calls + more == calls;
    } else {
      var n := |more| - 1;
      var m :| Reaches(gen, mid, more[..n], m) && LastStep(gen, m, more, s');
      ReachesThen(gen, s, calls, mid, more[..n], m);
      LastStepAfter(gen, calls, m, more, s');
      assert (calls + more)[..|calls + more| - 1] == calls + more[..n];
    }
  }

  /** Every member is resolved if the group's id and rows could be read, and nobody otherwise. */
  predicate Complete(v: Visit) {
    if v.gid.Ok? && v.env.readMembers then |v.ids| == |v.group.members| else v.ids == []
  }

  /** The store moves from `s` to `s'` by the calls of one visit. */
  ghost predicate Called(gen: string -> string, s: Store, v: Visit, s': Store) {
    Complete(v) && Reaches(gen, s, CallsOf(v), s')
  }

  lemma CalledThen(gen: string -> string, s: Store, v: Visit, mid: Store, s': Store)
    requires Complete(v) && GetIDStep(gen, s, v.group.user, v.env.groupDb, mid, v.gid)
    requires Reaches(gen, mid, MemberCalls(v.group.members, v.env.memberDb, v.ids), s')
    ensures Called(gen, s, v, s')
  {
    var call := GetID(v.group.user, v.env.groupDb, v.gid);
    assert Reaches(gen, s, [], s) && [] + [call] == [call];
    ReachesMore(gen, s, [], s, call, mid);
    ReachesThen(gen, s, [call], mid, MemberCalls(v.group.members, v.env.memberDb, v.ids), s');
  }

  lemma VisitMore(gen: string -> string, s: Store, vs: seq<Visit>, mid: Store, v: Visit, s': Store)
    requires ReachedBy(gen, s, vs, mid) && Called(gen, mid, v, s')
    ensures ReachedBy(gen, s, vs + [v], s')
  {
    var ws := vs + [v];
    assert ws[..|ws| - 1] == vs && ws[|ws| - 1] == v;
  }

  lemma LastVisit(gen: string -> string, s: Store, vs: seq<Visit>, s': Store) returns (mid: Store)
    requires vs != [] && ReachedBy(gen, s, vs, s')
    ensures ReachedBy(gen, s, vs[..|vs| - 1], mid) && Called(gen, mid, vs[|vs| - 1], s')
  {
    mid :| ReachedBy(gen, s, vs[..|vs| - 1], mid) && Called(gen, mid, vs[|vs| - 1], s');
  }

  /** What one turn does to the rows and to the returned lists. */
  ghost predicate TurnDone(t: Table, t': Table, exits: map<string, seq<GroupUser>>, exits': map<string, seq<GroupUser>>,
                           v: Visit) {
    if !Reconciled(v) then t' == t && exits' == exits
    else
      t' == ApplyPass(t, PassOf(v))
      && if ExitRows(t, PassOf(v)) == {} then exits' == exits
         else exists users :: exits' == exits[v.gid.value := users]
                              && Elements(users) == ExitRows(t, PassOf(v)) && NoRepeats(users)
  }

  lemma PassesMore(vs: seq<Visit>, v: Visit)
    ensures PassesOf(vs + [v]) == if Reconciled(v) then PassesOf(vs) + [PassOf(v)] else PassesOf(vs)
  {
    assert (vs + [v])[..|vs|] == vs;
  }

  lemma OnePassMore(t: Table, ps: seq<Pass>, p: Pass)
    ensures ApplyAll(t, ps + [p]) == ApplyPass(ApplyAll(t, ps), p)
    ensures ReportOf(t, ps + [p])
            == var gone := ExitRows(ApplyAll(t, ps), p);
               if gone == {} then ReportOf(t, ps) else ReportOf(t, ps)[p.gid := gone]
  {
    assert (ps + [p])[..|ps|] == ps;
  }

  lemma ListsExtend(exits: map<string, seq<GroupUser>>, report: Report, gid: string, users: seq<GroupUser>)
    requires Lists(exits, report) && NoRepeats(users)
    ensures Lists(exits[gid := users], report[gid := Elements(users)])
  {
  }

  lemma TurnExtends(t0: Table, vs: seq<Visit>, v: Visit, t: Table, t': Table,
                    exits: map<string, seq<GroupUser>>, exits': map<string, seq<GroupUser>>)
    requires t == ApplyAll(t0, PassesOf(vs)) && Lists(exits, ReportOf(t0, PassesOf(vs)))
    requires TurnDone(t, t', exits, exits', v)
    ensures t' == ApplyAll(t0, PassesOf(vs + [v])) && Lists(exits', ReportOf(t0, PassesOf(vs + [v])))
  {
    PassesMore(vs, v);
    var ps := PassesOf(vs);
    if Reconciled(v) {
      OnePassMore(t0, ps, PassOf(v));
      var gone := ExitRows(t, PassOf(v));
      if gone != {} {
        var users :| exits' == exits[v.gid.value := users] && Elements(users) == gone && NoRepeats(users);
        ListsExtend(exits, ReportOf(t0, ps), v.gid.value, users);
      }
    }
  }

  /** The member calls, the rows and the returned lists are those of the visits. */
  ghost predicate RefreshedBy(gen: string -> string, s0: Store, t0: Table, vs: seq<Visit>, s: Store, t: Table,
                            exits: map<string, seq<GroupUser>>) {
    ReachedBy(gen, s0, vs, s) && t == ApplyAll(t0, PassesOf(vs)) && Lists(exits, ReportOf(t0, PassesOf(vs)))
  }

  lemma RefreshedMore(gen: string -> string, s0: Store, t0: Table, vs: seq<Visit>, s: Store, t: Table,
                      exits: map<string, seq<GroupUser>>, v: Visit, s': Store, t': Table,
                      exits': map<string, seq<GroupUser>>)
    requires RefreshedBy(gen, s0, t0, vs, s, t, exits) && Called(gen, s, v, s') && TurnDone(t, t', exits, exits', v)
    ensures RefreshedBy(gen, s0, t0, vs + [v], s', t', exits')
  {
    VisitMore(gen, s0, vs, s, v, s');
    TurnExtends(t0, vs, v, t, t', exits, exits');
  }

  /** One visit for each group, in order. */
  ghost predicate VisitsOf(vs: seq<Visit>, groups: seq<Group>, env: nat -> Env) {
    |vs| == |groups| && forall i :: 0 <= i < |groups| ==> vs[i].group == groups[i] && vs[i].env == env(i)
  }

  lemma ListingMore(gid: string, members: seq<User>, ids: seq<Result<string>>, env: Env, j: nat, id: Result<string>)
    requires j < |members| && |ids| == j
    ensures var p := ListingOf(gid, members[..j], ids, env);
            ListingOf(gid, members[..j + 1], ids + [id], env)
            == if id.Err? then p
               else p.(listed := p.listed + [Listed(id.value, ShownName(members[j]), env.memberWrite(j))])
  {
    assert members[..j + 1][..j] == members[..j] && (ids + [id])[..j] == ids;
  }

  lemma CallsMore(gen: string -> string, s: Store, members: seq<User>, dbs: nat -> Db, ids: seq<Result<string>>,
                  mid: Store, id: Result<string>, s': Store)
    requires |ids| < |members| && Reaches(gen, s, MemberCalls(members, dbs, ids), mid)
    requires GetIDStep(gen, mid, members[|ids|], dbs(|ids|), s', id)
    ensures Reaches(gen, s, MemberCalls(members, dbs, ids + [id]), s')
  {
    assert (ids + [id])[..|ids|] == ids;
    ReachesMore(gen, s, MemberCalls(members, dbs, ids), mid, GetID(members[|ids|], dbs(|ids|), id), s');
  }

  /** The members answered so far have been resolved and matched. */
  ghost predicate Walked(gen: string -> string, s0: Store, t0: Table, gid: string, members: seq<User>, env: Env,
                         ids: seq<Result<string>>, s: Store, t: Table, rest: map<string, GroupUser>) {
    && |ids| <= |members| && Reaches(gen, s0, MemberCalls(members, env.memberDb, ids), s)
    && HalfWay(t0, t, ListingOf(gid, members[..|ids|], ids, env))
    && Unmatched(t0, rest, ListingOf(gid, members[..|ids|], ids, env))
  }

  lemma WalkedPast(gen: string -> string, s0: Store, t0: Table, gid: string, members: seq<User>, env: Env,
                   ids: seq<Result<string>>, s: Store, t: Table, rest: map<string, GroupUser>,
                   id: Result<string>, s': Store)
    requires Walked(gen, s0, t0, gid, members, env, ids, s, t, rest) && |ids| < |members| && id.Err?
    requires GetIDStep(gen, s, members[|ids|], env.memberDb(|ids|), s', id)
    ensures Walked(gen, s0, t0, gid, members, env, ids + [id], s', t, rest)
  {
    ListingMore(gid, members, ids, env, |ids|, id);
    CallsMore(gen, s0, members, env.memberDb, ids, s, id, s');
  }

  lemma WalkedOn(gen: string -> string, s0: Store, t0: Table, gid: string, members: seq<User>, env: Env,
                 ids: seq<Result<string>>, s: Store, t: Table, rest: map<string, GroupUser>,
                 id: Result<string>, s': Store, t': Table, rest': map<string, GroupUser>)
    requires Walked(gen, s0, t0, gid, members, env, ids, s, t, rest) && |ids| < |members| && id.Ok?
    requires GetIDStep(gen, s, members[|ids|], env.memberDb(|ids|), s', id)
    requires var p := ListingOf(gid, members[..|ids|], ids, env);
             var more := Listed(id.value, ShownName(members[|ids|]), env.memberWrite(|ids|));
             HalfWay(t0, t', p.(listed := p.listed + [more])) && Unmatched(t0, rest', p.(listed := p.listed + [more]))
    ensures Walked(gen, s0, t0, gid, members, env, ids + [id], s', t', rest')
  {
    ListingMore(gid, members, ids, env, |ids|, id);
    CallsMore(gen, s0, members, env.memberDb, ids, s, id, s');
  }

  lemma VisitsOfMore(vs: seq<Visit>, groups: seq<Group>, env: nat -> Env, i: nat, v: Visit)
    requires i < |groups| && VisitsOf(vs, groups[..i], env) && v.group == groups[i] && v.env == env(i)
    ensures VisitsOf(vs + [v], groups[..i + 1], env)
  {
  }

  class MemberManager {
    const generateID: string -> string
    var table: map<string, Member>
    var idUserMap: map<string, Member>
    var uidUserMap: map<string, Member>
    var groupTable: Table

    ghost function Members(): Store
      reads this`table, this`idUserMap, this`uidUserMap
    {
      Store(table, idUserMap, uidUserMap)
    }

    constructor (generateID: string -> string)
      ensures this.generateID == generateID && Members() == EMPTY_STORE && groupTable == map[]
    {
      this.generateID := generateID;
      table, idUserMap, uidUserMap, groupTable := map[], map[], map[], map[];
    }

    method CompareAndUpdateMember(user: User, u: Member, write: bool)
      modifies this`table, this`idUserMap, this`uidUserMap
      ensures Members() == CompareAndUpdate(old(Members()), user, u, write)
    {
      var attrId := user.attrStatus;
      if user.isGroup {
        attrId := user.avatarId;
      }
      if u.attrId != attrId || u.nickname != user.nickName || u.uid != user.userName {
        var u' := u.(attrId := attrId, uid := user.userName, nickname := user.nickName);
        if write && u'.id in table {
          table := table[u'.id := Merge(table[u'.id], u')];
        }
        idUserMap := idUserMap[u'.id := u'];
        uidUserMap := uidUserMap[u'.uid := u'];
      }
    }

    method Create(u: Member, write: bool) returns (r: Result<()>)
      modifies this`table
      ensures r == if !write then Err(DatabaseError) else if u.id in old(table) then Err(KeyConflict) else Ok(())
      ensures table == if r.Ok? then old(table)[u.id := u] else old(table)
    {
      if !write {
        return Err(DatabaseError);
      }
      if u.id in table {
        return Err(KeyConflict);
      }
      table := table[u.id := u];
      return Ok(());
    }

    /** The last part of GetID: a new row, cached under its id and its uid. */
    method CreateMember(user: User, write: bool) returns (r: Result<string>)
      modifies this`table, this`idUserMap, this`uidUserMap
      ensures CreateStep(generateID, old(Members()), user, write, Members(), r)
    {
      var attrId, kind := user.attrStatus, 1;
      if user.isGroup {
        attrId, kind := user.avatarId, 0;
      }
      var u := Member(generateID(user.userName), kind, attrId, user.nickName, user.userName);
      assert u == Created(generateID, user);
      var created := Create(u, write);
      if created.Err? {
        return Err(created.error);
      }
      idUserMap := idUserMap[u.id := u];
      uidUserMap := uidUserMap[u.uid := u];
      return Ok(u.id);
    }

    method GetID(user: User, db: Db) returns (r: Result<string>)
      modifies this`table, this`idUserMap, this`uidUserMap
      ensures GetIDStep(generateID, old(Members()), user, db, Members(), r)
    {
      if user.userName in uidUserMap {
        var u := uidUserMap[user.userName];
        CompareAndUpdateMember(user, u, db.write);
        return Ok(u.id);
      }
      ghost var s, ls := Members(), Lookups(user);
      if !db.readUid {
        FailAfterMisses(generateID, s, user, db, ls, 0);
        return Err(DatabaseError);
      }
      if id :| id in table && Hit(ByUid, user, table[id]) {
        var u := table[id];
        CompareAndUpdateMember(user, u, db.write);
        ClaimAfterMisses(generateID, s, user, db, ls, 0, Members(), Ok(u.id));
        return Ok(u.id);
      }
      assert !Found(s, ls[0], user);
      var attrId, kind := user.attrStatus, 1;
      if user.isGroup {
        attrId, kind := user.avatarId, 0;
      }
      if !db.readAttr {
        FailAfterMisses(generateID, s, user, db, ls, 1);
        return Err(DatabaseError);
      }
      if id :| id in table && table[id].nickname == user.nickName && table[id].attrId == attrId {
        var u := table[id];
        assert Hit(ByNickAttr, user, u);
        CompareAndUpdateMember(user, u, db.write);
        ClaimAfterMisses(generateID, s, user, db, ls, 1, Members(), Ok(u.id));
        return Ok(u.id);
      }
      assert !Found(s, ls[1], user);
      if user.isGroup {
        if !db.readName {
          FailAfterMisses(generateID, s, user, db, ls, 2);
          return Err(DatabaseError);
        }
        if id :| id in table && table[id].nickname == user.nickName && table[id].kind == kind {
          var u := table[id];
          assert Hit(ByNickKind, user, u);
          CompareAndUpdateMember(user, u, db.write);
          ClaimAfterMisses(generateID, s, user, db, ls, 2, Members(), Ok(u.id));
          return Ok(u.id);
        }
        assert !Found(s, ls[2], user);
      }
      r := CreateMember(user, db.write);
      CreateAfterMisses(generateID, s, user, db, ls, Members(), r);
    }

    method Fetch(id: string, read: bool) returns (r: Result<Option<Member>>)
      modifies this`idUserMap, this`uidUserMap
      ensures FetchStep(old(Members()), id, read, Members(), r)
    {
      if id in idUserMap {
        return Ok(Some(idUserMap[id]));
      }
      if !read {
        return Err(DatabaseError);
      }
      if id !in table {
        return Ok(None);
      }
      var u := table[id];
      idUserMap := idUserMap[id := u];
      uidUserMap := uidUserMap[u.uid := u];
      return Ok(Some(u));
    }

    method GetName(id: string, read: bool) returns (name: Result<string>)
      modifies this`idUserMap, this`uidUserMap
      ensures GetNameStep(old(Members()), id, read, Members(), name)
    {
      var u := Fetch(id, read);
      name := NameOf(u);
    }

    method GetByID(id: string, read: bool) returns (uid: Result<string>)
      modifies this`idUserMap, this`uidUserMap
      ensures GetByIDStep(old(Members()), id, read, Members(), uid)
    {
      var u := Fetch(id, read);
      uid := UidOf(u);
    }

    // ----- Group members -----

    method GetGroupUsers(gid: string, read: bool) returns (r: Result<map<string, GroupUser>>)
      ensures r.Ok? <==> read
      ensures r.Ok? ==> (forall uid :: uid in r.value <==> Key(gid, uid) in groupTable)
                        && (forall uid :: uid in r.value ==> r.value[uid] == UserOf(groupTable, Key(gid, uid)))
    {
      if !read {
        return Err(DatabaseError);
      }
      var users: map<string, GroupUser>, rest := map[], groupTable.Keys;
      while rest != {}
        invariant rest <= groupTable.Keys
        invariant forall uid :: uid in users <==> Key(gid, uid) in groupTable && Key(gid, uid) !in rest
        invariant forall uid :: uid in users ==> users[uid] == UserOf(groupTable, Key(gid, uid))
      {
        var k :| k in rest;
        if k.gid == gid {
          users := users[k.uid := UserOf(groupTable, k)];
        }
        rest := rest - {k};
      }
      return Ok(users);
    }

    method AddGroupUser(gid: string, uid: string, nickname: string, write: bool) returns (r: Result<()>)
      modifies this`groupTable
      ensures r == if !write then Err(DatabaseError)
                   else if Key(gid, uid) in old(groupTable) then Err(KeyConflict)
                   else Ok(())
      ensures groupTable == if r.Ok? then old(groupTable)[Key(gid, uid) := GroupRow(nickname, 0)] else old(groupTable)
    {
      var k := Key(gid, uid);
      if !write {
        return Err(DatabaseError);
      }
      if k in groupTable {
        return Err(KeyConflict);
      }
      groupTable := groupTable[k := GroupRow(nickname, 0)];
      return Ok(());
    }

    /** An update of a row that is not there succeeds and changes nothing. */
    method ReAddGroupUser(gid: string, uid: string, write: bool)
      modifies this`groupTable
      ensures groupTable == var k := Key(gid, uid); var t := old(groupTable);
                            if write && k in t then t[k := t[k].(leaveTime := 0)] else t
    {
      var k := Key(gid, uid);
      if write && k in groupTable {
        groupTable := groupTable[k := groupTable[k].(leaveTime := 0)];
      }
    }

    method UpdateGroupUser(gid: string, uid: string, nickname: string, write: bool)
      modifies this`groupTable
      ensures groupTable == var k := Key(gid, uid); var t := old(groupTable);
                            if write && k in t then t[k := t[k].(nickname := nickname)] else t
    {
      var k := Key(gid, uid);
      if write && k in groupTable {
        groupTable := groupTable[k := groupTable[k].(nickname := nickname)];
      }
    }

    method LeaveGroupUser(gid: string, uid: string, write: bool, now: Millis)
      modifies this`groupTable
      ensures groupTable == var k := Key(gid, uid); var t := old(groupTable);
                            if write && k in t then t[k := t[k].(leaveTime := now)] else t
    {
      var k := Key(gid, uid);
      if write && k in groupTable {
        groupTable := groupTable[k := groupTable[k].(leaveTime := now)];
      }
    }

    /** The inner turn of the refresh for one resolved member. */
    method MatchMember(gid: string, uid: string, nickname: string, groupMembers: map<string, GroupUser>, write: bool,
                       ghost t0: Table, ghost p: Pass)
      returns (rest: map<string, GroupUser>)
      requires p.gid == gid
      requires HalfWay(t0, groupTable, p) && Unmatched(t0, groupMembers, p)
      modifies this`groupTable
      ensures HalfWay(t0, groupTable, p.(listed := p.listed + [Listed(uid, nickname, write)]))
      ensures Unmatched(t0, rest, p.(listed := p.listed + [Listed(uid, nickname, write)]))
    {
      ghost var k := Key(gid, uid);
      assert Row(groupTable, k) == if FirstListing(p.listed, uid).Some? then After(p, Row(t0, k), uid) else Row(t0, k);
      if uid !in groupMembers {
        var _ := AddGroupUser(gid, uid, nickname, write);
      } else if nickname != groupMembers[uid].nickname {
        UpdateGroupUser(gid, uid, nickname, write);
      } else if groupMembers[uid].leaveTime > 0 {
        ReAddGroupUser(gid, uid, write);
      }
      rest := map u | u in groupMembers && u != uid :: groupMembers[u];
      ListingAppend(p.listed, Listed(uid, nickname, write), uid);
      Unlisted(p.listed, uid);
      MatchedRow(t0, old(groupTable), groupTable, p, Listed(uid, nickname, write));
      UnmatchedShrinks(t0, groupMembers, rest, p, Listed(uid, nickname, write));
    }

    /** Walks through the listed members, resolving each and updating its row. */
    method MatchMembers(gid: string, members: seq<User>, groupMembers: map<string, GroupUser>, env: Env)
      returns (rest: map<string, GroupUser>, ghost ids: seq<Result<string>>)
      requires Unmatched(groupTable, groupMembers, Pass(gid, [], env.leaveOk, env.clock))
      modifies this`table, this`idUserMap, this`uidUserMap, this`groupTable
      ensures |ids| == |members|
      ensures Reaches(generateID, old(Members()), MemberCalls(members, env.memberDb, ids), Members())
      ensures HalfWay(old(groupTable), groupTable, ListingOf(gid, members, ids, env))
      ensures Unmatched(old(groupTable), rest, ListingOf(gid, members, ids, env))
    {
      rest, ids := groupMembers, [];
      for j := 0 to |members|
        invariant |ids| == j
        invariant Walked(generateID, old(Members()), old(groupTable), gid, members, env, ids,
                         Members(), groupTable, rest)
      {
        ghost var s, t, left := Members(), groupTable, rest;
        var uid := GetID(members[j], env.memberDb(j));
        if uid.Err? {
          WalkedPast(generateID, old(Members()), old(groupTable), gid, members, env, ids, s, t, left, uid, Members());
          ids := ids + [uid];
          continue;
        }
        var nickname := members[j].nickName;
        if members[j].displayName != "" {
          nickname := members[j].displayName;
        }
        rest := MatchMember(gid, uid.value, nickname, rest, env.memberWrite(j),
                            old(groupTable), ListingOf(gid, members[..j], ids, env));
        WalkedOn(generateID, old(Members()), old(groupTable), gid, members, env, ids, s, t, left, uid,
                 Members(), groupTable, rest);
        ids := ids + [uid];
      }
      assert members[..|members|] == members;
    }

    /** Stamps and returns the active members nobody listed. */
    method MarkLeft(gid: string, groupMembers: map<string, GroupUser>, env: Env, ghost t0: Table, ghost p: Pass)
      returns (existUsers: seq<GroupUser>)
      requires p.gid == gid && p.leaveOk == env.leaveOk && p.clock == env.clock
      requires HalfWay(t0, groupTable, p) && Unmatched(t0, groupMembers, p)
      modifies this`groupTable
      ensures groupTable == ApplyPass(t0, p)
      ensures Elements(existUsers) == ExitRows(t0, p) && NoRepeats(existUsers)
    {
      existUsers := [];
      var rest := groupMembers.Keys;
      while rest != {}
        invariant rest <= groupMembers.Keys
        invariant StampedDown(t0, groupTable, p, groupMembers, rest) && CollectedDown(existUsers, groupMembers, rest)
      {
        var uid :| uid in rest;
        ghost var t, left := groupTable, rest;
        CollectMore(existUsers, groupMembers, rest, uid);
        rest := rest - {uid};
        if groupMembers[uid].leaveTime > 0 {
          StampMore(t0, t, t, p, groupMembers, left, uid);
          continue;
        }
        existUsers := existUsers + [groupMembers[uid]];
        LeaveGroupUser(gid, uid, env.leaveOk(uid), env.clock(uid));
        StampMore(t0, t, groupTable, p, groupMembers, left, uid);
      }
      StampedDone(t0, groupTable, p, groupMembers);
      ExitsCollected(t0, p, groupMembers, existUsers);
    }

    /** Reconciles the rows of one resolved group with the members it lists. */
    method ReconcileGroup(gid: string, members: seq<User>, groupMembers: map<string, GroupUser>, env: Env)
      returns (existUsers: seq<GroupUser>, ghost ids: seq<Result<string>>)
      requires Unmatched(groupTable, groupMembers, Pass(gid, [], env.leaveOk, env.clock))
      modifies this`table, this`idUserMap, this`uidUserMap, this`groupTable
      ensures |ids| == |members|
      ensures Reaches(generateID, old(Members()), MemberCalls(members, env.memberDb, ids), Members())
      ensures var p := ListingOf(gid, members, ids, env);
              groupTable == ApplyPass(old(groupTable), p)
              && Elements(existUsers) == ExitRows(old(groupTable), p) && NoRepeats(existUsers)
    {
      var rest;
      rest, ids := MatchMembers(gid, members, groupMembers, env);
      existUsers := MarkLeft(gid, rest, env, old(groupTable), ListingOf(gid, members, ids, env));
    }

    /** One group's turn; `exits` gains an entry only when somebody left. */
    method RefreshGroup(group: Group, env: Env, exits: map<string, seq<GroupUser>>)
      returns (exits': map<string, seq<GroupUser>>, ghost v: Visit)
      modifies this`table, this`idUserMap, this`uidUserMap, this`groupTable
      ensures v.group == group && v.env == env
      ensures Called(generateID, old(Members()), v, Members())
      ensures TurnDone(old(groupTable), groupTable, exits, exits', v)
    {
      exits' := exits;
      var gid := GetID(group.user, env.groupDb);
      ghost var mid := Members();
      v := Visit(group, env, gid, []);
      if gid.Err? {
        CalledThen(generateID, old(Members()), v, mid, Members());
        return;
      }
      var groupMembers := GetGroupUsers(gid.value, env.readMembers);
      if groupMembers.Err? {
        CalledThen(generateID, old(Members()), v, mid, Members());
        return;
      }
      var existUsers, ids := ReconcileGroup(gid.value, group.members, groupMembers.value, env);
      v := Visit(group, env, gid, ids);
      CalledThen(generateID, old(Members()), v, mid, Members());
      if |existUsers| > 0 {
        assert existUsers[0] in Elements(existUsers);
        exits' := exits[gid.value := existUsers];
      }
    }

    /**
     Refreshes the groups one by one. The ids come from exactly the recorded calls, the rows from the
     passes over them, and the returned lists are what those passes report.
     */
    method RefreshGroups(groups: seq<Group>, env: nat -> Env)
      returns (exitGroupUserMap: map<string, seq<GroupUser>>, ghost visits: seq<Visit>)
      modifies this`table, this`idUserMap, this`uidUserMap, this`groupTable
      ensures VisitsOf(visits, groups, env)
      ensures RefreshedBy(generateID, old(Members()), old(groupTable), visits, Members(), groupTable, exitGroupUserMap)
    {
      exitGroupUserMap, visits := map[], [];
      for i := 0 to |groups|
        invariant VisitsOf(visits, groups[..i], env)
        invariant RefreshedBy(generateID, old(Members()), old(groupTable), visits,
                              Members(), groupTable, exitGroupUserMap)
      {
        ghost var s, t, exits0 := Members(), groupTable, exitGroupUserMap;
        ghost var v;
        exitGroupUserMap, v := RefreshGroup(groups[i], env(i), exitGroupUserMap);
        RefreshedMore(generateID, old(Members()), old(groupTable), visits, s, t, exits0, v,
                      Members(), groupTable, exitGroupUserMap);
        VisitsOfMore(visits, groups, env, i, v);
        visits := visits + [v];
      }
      assert groups[..|groups|] == groups;
    }

    /** Refreshes the live list, unless the current user or the list could not be fetched. */
    method RefreshGroupMember(live: Option<seq<Group>>, env: nat -> Env)
      returns (exits: Option<map<string, seq<GroupUser>>>, ghost visits: seq<Visit>)
      modifies this`table, this`idUserMap, this`uidUserMap, this`groupTable
      ensures live.None? ==> exits == None && Members() == old(Members()) && groupTable == old(groupTable)
      ensures live.Some? ==>
                exits.Some? && VisitsOf(visits, live.value, env)
                && RefreshedBy(generateID, old(Members()), old(groupTable), visits,
                               Members(), groupTable, exits.value)
    {
      if live.None? {
        return None, [];
      }
      var exitGroupUserMap;
      exitGroupUserMap, visits := RefreshGroups(live.value, env);
      exits := Some(exitGroupUserMap);
    }
  }
}
