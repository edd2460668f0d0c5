/**
 What the calls of the identity store answer and write, in the fields of the live user and of the rows:
 which row an answer may come from, in which order, and what is stored for it.
 */
module Answers {
  import opened Common
  import opened Members

  // ----- Which row an answer comes from -----

  predicate SameUid(row: Member, user: User) {
    row.uid == user.userName
  }

  /** The avatar of a group and the status of a person tell namesakes apart. */
  predicate SameFace(row: Member, user: User) {
    row.nickname == user.nickName && row.attrId == if user.isGroup then user.avatarId else user.attrStatus
  }

  /** Only groups are matched by their name alone, and only with groups. */
  predicate SameGroupName(row: Member, user: User) {
    user.isGroup && row.kind == 0 && row.nickname == user.nickName
  }

  ghost predicate AnyRow(s: Store, like: Member -> bool) {
    exists id :: id in s.table && like(s.table[id])
  }

  /** The answer is the id of such a row. */
  ghost predicate AnswersLike(s: Store, like: Member -> bool, r: Result<string>) {
    r.Ok? && r.value in s.table && like(s.table[r.value])
  }

  /**
   The answer for a user name that is not cached: a row with that uid, else one of the same face, else
   for a group one of its name, else a new id; a failed read or write, or a taken id, is an error.
   */
  lemma AnswerFrom(gen: string -> string, s: Store, user: User, db: Db, s': Store, r: Result<string>)
    requires RowsKeyed(s) && user.userName !in s.uidUserMap && GetIDStep(gen, s, user, db, s', r)
    ensures var uid, face, name := (m: Member) => SameUid(m, user), (m: Member) => SameFace(m, user),
                                   (m: Member) => SameGroupName(m, user);
            if !db.readUid then r == Err(DatabaseError)
            else if AnyRow(s, uid) then AnswersLike(s, uid, r)
            else if !db.readAttr then r == Err(DatabaseError)
            else if AnyRow(s, face) then AnswersLike(s, face, r)
            else if user.isGroup && !db.readName then r == Err(DatabaseError)
            else if AnyRow(s, name) then AnswersLike(s, name, r)
            else if !db.write then r == Err(DatabaseError)
            else r == if gen(user.userName) in s.table then Err(KeyConflict) else Ok(gen(user.userName))
  {
    var ls := Lookups(user);
    FoundLike(s, ByUid, user, (m: Member) => SameUid(m, user));
    FoundLike(s, ByNickAttr, user, (m: Member) => SameFace(m, user));
    if user.isGroup {
      FoundLike(s, ByNickKind, user, (m: Member) => SameGroupName(m, user));
    }
    if db.readUid && !Found(s, ByUid, user) {
      assert SearchStep(gen, s, user, db, ls[1..], s', r);
      if db.readAttr && !Found(s, ByNickAttr, user) {
        assert user.isGroup ==> SearchStep(gen, s, user, db, ls[1..][1..], s', r);
        if user.isGroup ==> db.readName && !Found(s, ByNickKind, user) {
          MissesCreate(gen, s, user, db, ls, s', r);
        }
      }
    }
  }

  lemma FoundLike(s: Store, l: Lookup, user: User, like: Member -> bool)
    requires forall row :: Hit(l, user, row) <==> like(row)
    ensures Found(s, l, user) <==> AnyRow(s, like)
  {
  }

  // ----- What a call stores -----

  /** The member as the live user shows it. */
  function Shown(id: string, kind: int, user: User): Member {
    Member(id, kind, if user.isGroup then user.avatarId else user.attrStatus, user.nickName, user.userName)
  }

  function NonEmpty(now: string, was: string): string {
    if now != "" then now else was
  }

  /** The row `id` after a successful write for the user: empty fields are skipped. */
  function Written(row: Member, user: User): Member {
    Member(row.id, row.kind,
           NonEmpty(if user.isGroup then user.avatarId else user.attrStatus, row.attrId),
           NonEmpty(user.nickName, row.nickname),
           NonEmpty(user.userName, row.uid))
  }

  /** What the process knew about the member it answers with: the cached entry of the user name, or the row. */
  function Known(s: Store, user: User, id: string): Member
    requires user.userName in s.uidUserMap || id in s.table
  {
    if user.userName in s.uidUserMap then s.uidUserMap[user.userName] else s.table[id]
  }

  /** What is in the store once the known member `was` is answered as `u`, with the row `row`. */
  ghost predicate Stored(s: Store, s': Store, was: Member, u: Member, row: Member) {
    if was == u then s' == s
    else s'.idUserMap == s.idUserMap[u.id := u] && s'.uidUserMap == s.uidUserMap[u.uid := u]
         && s'.table == s.table[u.id := row]
  }

  lemma AdoptedStores(s: Store, user: User, u: Member, write: bool, s': Store, r: Result<string>)
    requires Core(s) && Adopted(s, user, u, write, s', r)
    ensures var row := s.table[u.id];
            Stored(s, s', u, Shown(u.id, u.kind, user), if write then Written(row, user) else row)
  {
    if !Unchanged(user, u) {
      CompareIsInstall(s, user, u, write);
    }
  }

  /**
   After an answer with an id there already, nothing changes if the member was known as shown; else
   both caches hold it as shown, and its row, alone, is written unless the write fails.
   */
  lemma AnswerStores(gen: string -> string, s: Store, user: User, db: Db, s': Store, id: string)
    requires Core(s) && GetIDStep(gen, s, user, db, s', Ok(id)) && id in s.table
    ensures var row := s.table[id];
            Stored(s, s', Known(s, user, id), Shown(id, row.kind, user), if db.write then Written(row, user) else row)
  {
    GetIDOutcome(gen, s, user, db, s', Ok(id));
    var u :| Adopted(s, user, u, db.write, s', Ok(id));
    AdoptedStores(s, user, u, db.write, s', Ok(id));
  }

  /** After an answer with a new id there is one row more, as the user is shown, and both caches hold it. */
  lemma AnswerCreates(gen: string -> string, s: Store, user: User, db: Db, s': Store, id: string)
    requires Core(s) && GetIDStep(gen, s, user, db, s', Ok(id)) && id !in s.table
    ensures var u := Shown(id, if user.isGroup then 0 else 1, user);
            s'.table == s.table[id := u] && s'.idUserMap == s.idUserMap[id := u]
            && s'.uidUserMap == s.uidUserMap[user.userName := u]
  {
    GetIDOutcome(gen, s, user, db, s', Ok(id));
    assert Inserted(gen, s, user, s', Ok(id));
  }

  // ----- Lookups by id -----

  /** While caches and table agree, a lookup by id answers from the row of that id, or "" without one. */
  lemma LookupsReadRows(s: Store, id: string, read: bool, s': Store, name: Result<string>,
                        s'': Store, uid: Result<string>)
    requires Core(s) && Synced(s)
    requires GetNameStep(s, id, read, s', name) && GetByIDStep(s, id, read, s'', uid)
    ensures if !read && id !in s.idUserMap then name == uid == Err(DatabaseError)
            else if id in s.table then name == Ok(s.table[id].nickname) && uid == Ok(s.table[id].uid)
            else name == uid == Ok("")
  {
    if id in s.idUserMap {
      assert IdEntrySynced(s, id) && IdEntryOk(s, id);
    }
  }

  /** A lookup by id changes nothing but the caches, which then hold the row it had to read. */
  lemma LookupCaches(s: Store, id: string, read: bool, s': Store, r: Result<string>)
    requires GetNameStep(s, id, read, s', r) || GetByIDStep(s, id, read, s', r)
    ensures s'.table == s.table
    ensures if id in s.idUserMap || !read || id !in s.table then s' == s
            else s'.idUserMap == s.idUserMap[id := s.table[id]]
                 && s'.uidUserMap == s.uidUserMap[s.table[id].uid := s.table[id]]
  {
  }

  lemma NicknameAfterAdopt(s: Store, user: User, u: Member, write: bool, s': Store, r: Result<string>)
    requires Core(s) && Synced(s) && Adopted(s, user, u, write, s', r)
    ensures u.id in s'.table
    ensures var name := if u.id in s'.idUserMap then s'.idUserMap[u.id].nickname else s'.table[u.id].nickname;
            name == if StaleAnswer(s, user) then s.table[u.id].nickname else user.nickName
  {
    if Unchanged(user, u) && u.id in s.idUserMap {
      assert IdEntrySynced(s, u.id);
    }
    if Unchanged(user, u) && user.userName in s.uidUserMap {
      assert UidEntrySynced(s, user.userName);
    }
  }

  /** After GetID gives X, GetName of X gives the nickname back, or that of the row if a stale alias answered. */
  lemma GetNameAfterGetID(gen: string -> string, s: Store, user: User, db: Db, s': Store, id: string,
                          read: bool, s'': Store, name: string)
    requires Core(s) && Synced(s) && GetIDStep(gen, s, user, db, s', Ok(id))
    requires GetNameStep(s', id, read, s'', Ok(name))
    ensures name == if StaleAnswer(s, user) && id in s.table then s.table[id].nickname else user.nickName
  {
    GetIDOutcome(gen, s, user, db, s', Ok(id));
    if u :| Adopted(s, user, u, db.write, s', Ok(id)) {
      NicknameAfterAdopt(s, user, u, db.write, s', Ok(id));
    }
  }
}
