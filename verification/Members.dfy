/**
 The identity store of hub/member_manager.go as a relation over values: a member table keyed by
 id, and the two caches `idUserMap` and `uidUserMap`. WeChat user names change with every login,
 so a row is found again through its nickname and attribute and handed to the new user name.
 */
module Members {
  import opened Common

  /** A live WeChat user or group; `attrStatus` is the decimal text of the status number. */
  datatype User = User(userName: string, nickName: string, displayName: string,
                       isGroup: bool, avatarId: string, attrStatus: string)

  /** A row of the member table; `kind` is 0 for a group and 1 for a user. */
  datatype Member = Member(id: string, kind: int, attrId: string, nickname: string, uid: string)

  datatype Store = Store(table: map<string, Member>,
                         idUserMap: map<string, Member>,
                         uidUserMap: map<string, Member>)

  /** Which database operations of one call succeed. */
  datatype Db = Db(readUid: bool, readAttr: bool, readName: bool, write: bool)

  /** The queries GetID tries, in this order, when the user name is not cached. */
  datatype Lookup = ByUid | ByNickAttr | ByNickKind

  const EMPTY_STORE := Store(map[], map[], map[])

  function AttrOf(user: User): string {
    if user.isGroup then user.avatarId else user.attrStatus
  }

  function KindOf(user: User): int {
    if user.isGroup then 0 else 1
  }

  predicate Hit(l: Lookup, user: User, row: Member) {
    match l
    case ByUid => row.uid == user.userName
    case ByNickAttr => row.nickname == user.nickName && row.attrId == AttrOf(user)
    case ByNickKind => row.nickname == user.nickName && row.kind == KindOf(user)
  }

  predicate ReadOk(l: Lookup, db: Db) {
    match l
    case ByUid => db.readUid
    case ByNickAttr => db.readAttr
    case ByNickKind => db.readName
  }

  function Lookups(user: User): seq<Lookup> {
    [ByUid, ByNickAttr] + if user.isGroup then [ByNickKind] else []
  }

  ghost predicate Found(s: Store, l: Lookup, user: User) {
    exists id :: id in s.table && Hit(l, user, s.table[id])
  }

  // ----- Operations -----

  predicate Unchanged(user: User, u: Member) {
    u.attrId == AttrOf(user) && u.nickname == user.nickName && u.uid == user.userName
  }

  function Refreshed(user: User, u: Member): Member {
    u.(attrId := AttrOf(user), uid := user.userName, nickname := user.nickName)
  }

  /** An update from a struct writes its non-zero fields only. */
  function Merge(row: Member, u: Member): Member {
    Member(row.id,
           if u.kind != 0 then u.kind else row.kind,
           if u.attrId != "" then u.attrId else row.attrId,
           if u.nickname != "" then u.nickname else row.nickname,
           if u.uid != "" then u.uid else row.uid)
  }

  /** Writes `row` to the table and `u` to both caches. */
  function Install(s: Store, row: Member, u: Member): Store {
    Store(s.table[row.id := row], s.idUserMap[u.id := u], s.uidUserMap[u.uid := u])
  }

  /** Both caches take the new member even when the database write fails. */
  function CompareAndUpdate(s: Store, user: User, u: Member, write: bool): Store {
    if Unchanged(user, u) then s
    else
      var u' := Refreshed(user, u);
      Store(if write && u.id in s.table then s.table[u.id := Merge(s.table[u.id], u')] else s.table,
            s.idUserMap[u.id := u'],
            s.uidUserMap[u'.uid := u'])
  }

  function Created(gen: string -> string, user: User): Member {
    Member(gen(user.userName), KindOf(user), AttrOf(user), user.nickName, user.userName)
  }

  /** `Take` returns any one matching row. */
  ghost predicate Claims(s: Store, l: Lookup, user: User, write: bool, s': Store, r: Result<string>) {
    exists id :: id in s.table && Hit(l, user, s.table[id])
                 && s' == CompareAndUpdate(s, user, s.table[id], write) && r == Ok(s.table[id].id)
  }

  ghost predicate CreateStep(gen: string -> string, s: Store, user: User, write: bool,
                             s': Store, r: Result<string>) {
    var u := Created(gen, user);
    if !write then s' == s && r == Err(DatabaseError)
    else if u.id in s.table then s' == s && r == Err(KeyConflict)
    else r == Ok(u.id) && s' == Install(s, u, u)
  }

  ghost predicate SearchStep(gen: string -> string, s: Store, user: User, db: Db, ls: seq<Lookup>,
                             s': Store, r: Result<string>) {
    if ls == [] then CreateStep(gen, s, user, db.write, s', r)
    else if !ReadOk(ls[0], db) then s' == s && r == Err(DatabaseError)
    else if Found(s, ls[0], user) then Claims(s, ls[0], user, db.write, s', r)
    else SearchStep(gen, s, user, db, ls[1..], s', r)
  }

  ghost predicate GetIDStep(gen: string -> string, s: Store, user: User, db: Db,
                            s': Store, r: Result<string>) {
    if user.userName in s.uidUserMap then
      var u := s.uidUserMap[user.userName];
      s' == CompareAndUpdate(s, user, u, db.write) && r == Ok(u.id)
    else SearchStep(gen, s, user, db, Lookups(user), s', r)
  }

  lemma {:induction false} CreateAfterMisses(gen: string -> string, s: Store, user: User, db: Db, ls: seq<Lookup>,
                                             s': Store, r: Result<string>)
    requires forall i :: 0 <= i < |ls| ==> ReadOk(ls[i], db) && !Found(s, ls[i], user)
    requires CreateStep(gen, s, user, db.write, s', r)
    ensures SearchStep(gen, s, user, db, ls, s', r)
  {
    if ls != [] {
      CreateAfterMisses(gen, s, user, db, ls[1..], s', r);
    }
  }

  lemma {:induction false} MissesCreate(gen: string -> string, s: Store, user: User, db: Db, ls: seq<Lookup>,
                                        s': Store, r: Result<string>)
    requires forall i :: 0 <= i < |ls| ==> ReadOk(ls[i], db) && !Found(s, ls[i], user)
    requires SearchStep(gen, s, user, db, ls, s', r)
    ensures CreateStep(gen, s, user, db.write, s', r)
  {
    if ls != [] {
      MissesCreate(gen, s, user, db, ls[1..], s', r);
    }
  }

  lemma {:induction false} ClaimAfterMisses(gen: string -> string, s: Store, user: User, db: Db, ls: seq<Lookup>,
                                            i: nat, s': Store, r: Result<string>)
    requires i < |ls| && forall j :: 0 <= j < i ==> ReadOk(ls[j], db) && !Found(s, ls[j], user)
    requires ReadOk(ls[i], db) && Claims(s, ls[i], user, db.write, s', r)
    ensures SearchStep(gen, s, user, db, ls, s', r)
  {
    if i > 0 {
      ClaimAfterMisses(gen, s, user, db, ls[1..], i - 1, s', r);
    }
  }

  lemma {:induction false} FailAfterMisses(gen: string -> string, s: Store, user: User, db: Db, ls: seq<Lookup>, i: nat)
    requires i < |ls| && forall j :: 0 <= j < i ==> ReadOk(ls[j], db) && !Found(s, ls[j], user)
    requires !ReadOk(ls[i], db)
    ensures SearchStep(gen, s, user, db, ls, s, Err(DatabaseError))
  {
    if i > 0 {
      FailAfterMisses(gen, s, user, db, ls[1..], i - 1);
    }
  }

  /** GetName and GetByID differ in the field they return: cache first, then the row of that id. */
  predicate FetchStep(s: Store, id: string, read: bool, s': Store, r: Result<Option<Member>>) {
    if id in s.idUserMap then s' == s && r == Ok(Some(s.idUserMap[id]))
    else if !read then s' == s && r == Err(DatabaseError)
    else if id !in s.table then s' == s && r == Ok(None)
    else
      var u := s.table[id];
      r == Ok(Some(u)) && s' == s.(idUserMap := s.idUserMap[id := u], uidUserMap := s.uidUserMap[u.uid := u])
  }

  function NameOf(r: Result<Option<Member>>): Result<string> {
    match r
    case Err(e) => Err(e)
    case Ok(None) => Ok("")
    case Ok(Some(u)) => Ok(u.nickname)
  }

  function UidOf(r: Result<Option<Member>>): Result<string> {
    match r
    case Err(e) => Err(e)
    case Ok(None) => Ok("")
    case Ok(Some(u)) => Ok(u.uid)
  }

  ghost predicate GetByIDStep(s: Store, id: string, read: bool, s': Store, r: Result<string>) {
    exists f :: FetchStep(s, id, read, s', f) && r == UidOf(f)
  }

  ghost predicate GetNameStep(s: Store, id: string, read: bool, s': Store, r: Result<string>) {
    exists f :: FetchStep(s, id, read, s', f) && r == NameOf(f)
  }

  // ----- Invariants -----

  ghost predicate RowsKeyed(s: Store) {
    forall id :: id in s.table ==> s.table[id].id == id
  }

  ghost predicate UidsUnique(s: Store) {
    forall i, j :: i in s.table && j in s.table && s.table[i].uid == s.table[j].uid ==> i == j
  }

  /** A cached id names a row, and the uid cached with it leads back to the same id. */
  ghost predicate IdEntryOk(s: Store, id: string)
    requires id in s.idUserMap
  {
    var u := s.idUserMap[id];
    u.id == id && id in s.table && u.kind == s.table[id].kind && u.uid in s.uidUserMap && s.uidUserMap[u.uid].id == id
  }

  /** A cached uid names the only row that may hold that uid. */
  ghost predicate UidEntryOk(s: Store, uid: string)
    requires uid in s.uidUserMap
  {
    var u := s.uidUserMap[uid];
    u.uid == uid && u.id in s.table && u.kind == s.table[u.id].kind && OnlyHolder(s, u.id, uid)
  }

  ghost predicate OnlyHolder(s: Store, id: string, uid: string) {
    forall i :: i in s.table && s.table[i].uid == uid ==> i == id
  }

  /** Holds whatever fails and whatever is empty. */
  ghost predicate Core(s: Store) {
    && RowsKeyed(s)
    && UidsUnique(s)
    && (forall id :: id in s.idUserMap ==> IdEntryOk(s, id))
    && (forall uid :: uid in s.uidUserMap ==> UidEntryOk(s, uid))
  }

  /** What one process never takes back: rows, their ids and kinds, and the id of every cached uid. */
  ghost predicate Grows(s: Store, s': Store) {
    && (forall id :: id in s.table ==>
          id in s'.table && s'.table[id].id == s.table[id].id && s'.table[id].kind == s.table[id].kind)
    && (forall u :: u in s.uidUserMap ==> u in s'.uidUserMap && s'.uidUserMap[u].id == s.uidUserMap[u].id)
  }

  /** The uid `u` may be cached for id `u.id`: nobody else holds it and no other id is cached for it. */
  ghost predicate MayOwn(s: Store, u: Member) {
    OnlyHolder(s, u.id, u.uid) && (u.uid in s.uidUserMap ==> s.uidUserMap[u.uid].id == u.id)
  }

  /** `row` and `u` may be installed: `u` owns its uid, and the row keeps its own uid or takes it. */
  ghost predicate Installable(s: Store, row: Member, u: Member) {
    && MayOwn(s, u) && row.id == u.id && row.kind == u.kind
    && (row.uid == u.uid || (row.id in s.table && row.uid == s.table[row.id].uid))
    && (row.id in s.table ==> row.kind == s.table[row.id].kind)
  }

  lemma InstallKeepsUids(s: Store, row: Member, u: Member)
    requires UidsUnique(s) && Installable(s, row, u)
    ensures UidsUnique(Install(s, row, u))
  {
    var t := Install(s, row, u).table;
    forall i, j | i in t && j in t && t[i].uid == t[j].uid ensures i == j {
      if i != row.id && j != row.id {
        assert s.table[i].uid == s.table[j].uid;
      }
    }
  }

  lemma InstallKeepsUidEntries(s: Store, row: Member, u: Member, uid: string)
    requires UidsUnique(s) && Installable(s, row, u) && uid in Install(s, row, u).uidUserMap
    requires uid in s.uidUserMap ==> UidEntryOk(s, uid)
    ensures UidEntryOk(Install(s, row, u), uid)
  {
  }

  lemma InstallKeepsIdEntries(s: Store, row: Member, u: Member, id: string)
    requires Installable(s, row, u) && id in Install(s, row, u).idUserMap
    requires id in s.idUserMap ==> IdEntryOk(s, id)
    ensures IdEntryOk(Install(s, row, u), id)
  {
  }

  lemma InstallKeepsCore(s: Store, row: Member, u: Member)
    requires Core(s) && Installable(s, row, u)
    ensures Core(Install(s, row, u)) && Grows(s, Install(s, row, u))
  {
    var s' := Install(s, row, u);
    InstallKeepsUids(s, row, u);
    forall uid | uid in s'.uidUserMap ensures UidEntryOk(s', uid) {
      InstallKeepsUidEntries(s, row, u, uid);
    }
    forall id | id in s'.idUserMap ensures IdEntryOk(s', id) {
      InstallKeepsIdEntries(s, row, u, id);
    }
  }

  /** A member GetID may hand to `user`: the cached one, or a row no other row competes with. */
  ghost predicate Candidate(s: Store, user: User, u: Member) {
    && u.id in s.table && u.kind == s.table[u.id].kind && MayOwn(s, Refreshed(user, u))
    && if user.userName in s.uidUserMap then u == s.uidUserMap[user.userName] else u == s.table[u.id]
  }

  ghost predicate Adopted(s: Store, user: User, u: Member, write: bool, s': Store, r: Result<string>) {
    Candidate(s, user, u) && s' == CompareAndUpdate(s, user, u, write) && r == Ok(u.id)
  }

  ghost predicate Inserted(gen: string -> string, s: Store, user: User, s': Store, r: Result<string>) {
    var u := Created(gen, user);
    u.id !in s.table && MayOwn(s, u) && user.userName !in s.uidUserMap && s' == Install(s, u, u) && r == Ok(u.id)
  }

  lemma {:induction false} SearchOutcome(gen: string -> string, s: Store, user: User, db: Db, ls: seq<Lookup>,
                                         s': Store, r: Result<string>)
    requires Core(s) && user.userName !in s.uidUserMap && SearchStep(gen, s, user, db, ls, s', r)
    requires (ls != [] && ls[0] == ByUid) || !Found(s, ByUid, user)
    ensures || (s' == s && r.Err?)
            || (exists u :: Adopted(s, user, u, db.write, s', r))
            || Inserted(gen, s, user, s', r)
  {
    if ls != [] && ReadOk(ls[0], db) {
      if Found(s, ls[0], user) {
        var id :| id in s.table && Hit(ls[0], user, s.table[id])
          && s' == CompareAndUpdate(s, user, s.table[id], db.write) && r == Ok(s.table[id].id);
        assert Adopted(s, user, s.table[id], db.write, s', r);
      } else {
        SearchOutcome(gen, s, user, db, ls[1..], s', r);
      }
    }
  }

  /** A call fails and changes nothing, or adopts one existing member, or adds one new row. */
  lemma GetIDOutcome(gen: string -> string, s: Store, user: User, db: Db, s': Store, r: Result<string>)
    requires Core(s) && GetIDStep(gen, s, user, db, s', r)
    ensures || (s' == s && r.Err?)
            || (exists u :: Adopted(s, user, u, db.write, s', r))
            || Inserted(gen, s, user, s', r)
  {
    if user.userName in s.uidUserMap {
      assert UidEntryOk(s, user.userName);
      assert Adopted(s, user, s.uidUserMap[user.userName], db.write, s', r);
    } else {
      SearchOutcome(gen, s, user, db, Lookups(user), s', r);
    }
  }

  lemma CompareIsInstall(s: Store, user: User, u: Member, write: bool)
    requires Core(s) && Candidate(s, user, u) && !Unchanged(user, u)
    ensures var u' := Refreshed(user, u);
            CompareAndUpdate(s, user, u, write)
            == Install(s, if write then Merge(s.table[u.id], u') else s.table[u.id], u')
  {
    assert s.table[u.id := s.table[u.id]] == s.table;
  }

  lemma AdoptedKeepsCore(s: Store, user: User, u: Member, write: bool, s': Store, r: Result<string>)
    requires Core(s) && Adopted(s, user, u, write, s', r)
    ensures Core(s') && Grows(s, s') && r.Ok? && s'.table.Keys == s.table.Keys == s.table.Keys + {r.value}
  {
    if !Unchanged(user, u) {
      CompareIsInstall(s, user, u, write);
      var u' := Refreshed(user, u);
      InstallKeepsCore(s, if write then Merge(s.table[u.id], u') else s.table[u.id], u');
    }
  }

  lemma InsertedKeepsCore(gen: string -> string, s: Store, user: User, s': Store, r: Result<string>)
    requires Core(s) && Inserted(gen, s, user, s', r)
    ensures Core(s') && Grows(s, s') && r.Ok? && s'.table.Keys == s.table.Keys + {r.value}
  {
    InstallKeepsCore(s, Created(gen, user), Created(gen, user));
  }

  /** Identity stability: rows stay, at most one is added, a failed call changes nothing. */
  lemma GetIDKeepsCore(gen: string -> string, s: Store, user: User, db: Db, s': Store, r: Result<string>)
    requires Core(s) && GetIDStep(gen, s, user, db, s', r)
    ensures Core(s') && Grows(s, s')
    ensures r.Err? ==> s' == s
    ensures r.Ok? ==> s'.table.Keys == s.table.Keys + {r.value}
  {
    GetIDOutcome(gen, s, user, db, s', r);
    if u :| Adopted(s, user, u, db.write, s', r) {
      AdoptedKeepsCore(s, user, u, db.write, s', r);
    } else if Inserted(gen, s, user, s', r) {
      InsertedKeepsCore(gen, s, user, s', r);
    }
  }

  lemma FetchKeepsCore(s: Store, id: string, read: bool, s': Store, r: Result<Option<Member>>)
    requires Core(s) && FetchStep(s, id, read, s', r)
    ensures Core(s') && Grows(s, s') && s'.table == s.table
    ensures r.Ok? && r.value.Some? ==>
              var u := r.value.value; u.id == id && u.uid in s'.uidUserMap && s'.uidUserMap[u.uid].id == id
  {
    if id in s.idUserMap {
      assert IdEntryOk(s, id);
    } else if read && id in s.table {
      var u := s.table[id];
      assert s.table[id := u] == s.table;
      assert s' == Install(s, u, u);
      forall uid | uid in s.uidUserMap && uid == u.uid ensures s.uidUserMap[uid].id == u.id {
        assert UidEntryOk(s, uid);
      }
      InstallKeepsCore(s, u, u);
    }
  }

  // ----- Agreement of the caches with the table -----

  ghost predicate IdEntrySynced(s: Store, id: string)
    requires id in s.idUserMap
  {
    id in s.table && s.idUserMap[id] == s.table[id]
  }

  /** A uid entry may be stale only once its row has moved to another uid. */
  ghost predicate UidEntrySynced(s: Store, uid: string)
    requires uid in s.uidUserMap
  {
    var u := s.uidUserMap[uid];
    u.id in s.table && (s.table[u.id].uid == uid ==> u == s.table[u.id])
  }

  ghost predicate Synced(s: Store) {
    && (forall id :: id in s.idUserMap ==> IdEntrySynced(s, id))
    && (forall uid :: uid in s.uidUserMap ==> UidEntrySynced(s, uid))
  }

  lemma InstallSynced(s: Store, row: Member, u: Member)
    requires Core(s) && Synced(s) && MayOwn(s, u) && row.id == u.id
    ensures Synced(Install(s, row, u)) <==> row == u
  {
    var s' := Install(s, row, u);
    if row != u {
      assert !IdEntrySynced(s', u.id);
    } else {
      forall id | id in s'.idUserMap ensures IdEntrySynced(s', id) {
        if id != u.id {
          assert IdEntrySynced(s, id);
        }
      }
      forall uid | uid in s'.uidUserMap ensures UidEntrySynced(s', uid) {
        if uid != u.uid {
          assert UidEntrySynced(s, uid) && UidEntryOk(s, uid);
        }
      }
    }
  }

  /** An update that skips zero fields erases nothing the caches have erased. */
  predicate NothingErased(row: Member, user: User) {
    && (AttrOf(user) == "" ==> row.attrId == "")
    && (user.nickName == "" ==> row.nickname == "")
    && (user.userName == "" ==> row.uid == "")
  }

  /** The caches keep agreeing with the table exactly when the write succeeds and erases no field. */
  lemma CompareSyncedExactly(s: Store, user: User, u: Member, write: bool)
    requires Core(s) && Synced(s) && Candidate(s, user, u)
    ensures Synced(CompareAndUpdate(s, user, u, write))
            <==> Unchanged(user, u) || (write && NothingErased(s.table[u.id], user))
  {
    if !Unchanged(user, u) {
      CompareIsInstall(s, user, u, write);
      var u' := Refreshed(user, u);
      var row := if write then Merge(s.table[u.id], u') else s.table[u.id];
      InstallSynced(s, row, u');
      if user.userName in s.uidUserMap {
        assert UidEntrySynced(s, user.userName) && UidEntryOk(s, user.userName);
      }
    }
  }

  /** What makes a call unable to part the caches from the table. */
  predicate Clean(user: User, db: Db) {
    db.write && user.userName != "" && user.nickName != "" && AttrOf(user) != ""
  }

  lemma GetIDKeepsSynced(gen: string -> string, s: Store, user: User, db: Db, s': Store, r: Result<string>)
    requires Core(s) && Synced(s) && GetIDStep(gen, s, user, db, s', r) && Clean(user, db)
    ensures Synced(s')
  {
    GetIDOutcome(gen, s, user, db, s', r);
    if u :| Adopted(s, user, u, db.write, s', r) {
      CompareSyncedExactly(s, user, u, db.write);
    } else if Inserted(gen, s, user, s', r) {
      InstallSynced(s, Created(gen, user), Created(gen, user));
    }
  }

  lemma FetchKeepsSynced(s: Store, id: string, read: bool, s': Store, r: Result<Option<Member>>)
    requires Core(s) && Synced(s) && FetchStep(s, id, read, s', r)
    ensures Synced(s')
  {
    if id !in s.idUserMap && read && id in s.table {
      var u := s.table[id];
      assert s.table[id := u] == s.table;
      assert s' == Install(s, u, u);
      forall uid | uid in s.uidUserMap && uid == u.uid ensures s.uidUserMap[uid].id == u.id {
        assert UidEntryOk(s, uid);
      }
      InstallSynced(s, u, u);
    }
  }

  // ----- Round trips -----

  /** A cached uid whose row has since moved on answers without touching anything. */
  predicate StaleAnswer(s: Store, user: User) {
    user.userName in s.uidUserMap
    && var u := s.uidUserMap[user.userName];
       Unchanged(user, u) && u.id in s.table && s.table[u.id].uid != user.userName
  }

  /** The uid GetByID reports for an existing id. */
  function CurrentUid(s: Store, id: string): string
    requires id in s.table
  {
    if id in s.idUserMap then s.idUserMap[id].uid else s.table[id].uid
  }

  lemma CurrentUidAfterAdopt(s: Store, user: User, u: Member, write: bool, s': Store, r: Result<string>)
    requires Core(s) && Synced(s) && Adopted(s, user, u, write, s', r)
    ensures u.id in s'.table
    ensures CurrentUid(s', u.id) == user.userName <==> !StaleAnswer(s, user)
  {
    if Unchanged(user, u) && u.id in s.idUserMap {
      assert IdEntrySynced(s, u.id);
    }
  }

  /** After GetID gives X, GetByID of X gives the user name back exactly when no stale alias answered. */
  lemma GetByIDAfterGetID(gen: string -> string, s: Store, user: User, db: Db, s': Store, id: string,
                          read: bool, s'': Store, uid: string)
    requires Core(s) && Synced(s) && GetIDStep(gen, s, user, db, s', Ok(id))
    requires GetByIDStep(s', id, read, s'', Ok(uid))
    ensures uid == user.userName <==> !StaleAnswer(s, user)
  {
    GetIDOutcome(gen, s, user, db, s', Ok(id));
    if u :| Adopted(s, user, u, db.write, s', Ok(id)) {
      CurrentUidAfterAdopt(s, user, u, db.write, s', Ok(id));
    }
  }

  /** The database answers by uid, nothing has changed, and the answer is not cached. */
  ghost predicate UncachedAnswer(s: Store, user: User) {
    user.userName !in s.uidUserMap
    && exists id :: id in s.table && s.table[id].uid == user.userName && Unchanged(user, s.table[id])
  }

  lemma AdoptedCachesUid(s: Store, user: User, u: Member, write: bool, s': Store, r: Result<string>)
    requires Core(s) && Adopted(s, user, u, write, s', r)
    ensures user.userName in s'.uidUserMap <==> !UncachedAnswer(s, user)
    ensures user.userName in s'.uidUserMap ==> Ok(s'.uidUserMap[user.userName].id) == r
  {
    if user.userName !in s.uidUserMap {
      if Unchanged(user, u) {
        assert s.table[u.id].uid == user.userName;
      } else if i :| i in s.table && s.table[i].uid == user.userName {
        assert i == u.id;
      }
    }
  }

  /** After an answer the uid is cached for it, unless the database answered an unchanged row by uid. */
  lemma GetIDCachesUid(gen: string -> string, s: Store, user: User, db: Db, s': Store, id: string)
    requires Core(s) && GetIDStep(gen, s, user, db, s', Ok(id))
    ensures user.userName in s'.uidUserMap <==> !UncachedAnswer(s, user)
    ensures user.userName in s'.uidUserMap ==> s'.uidUserMap[user.userName].id == id
  {
    GetIDOutcome(gen, s, user, db, s', Ok(id));
    if u :| Adopted(s, user, u, db.write, s', Ok(id)) {
      AdoptedCachesUid(s, user, u, db.write, s', Ok(id));
    }
  }
}
