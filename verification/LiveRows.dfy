/** What refreshes store and return, in the fields of the live members they list. */
module LiveRows {
  import opened Common
  import opened Members
  import opened MemberRuns
  import opened Groups
  import opened Refreshes
  import opened MemberManagers
  import opened LiveRefresh

  /** The name a group shows: the member's card if it has one. */
  predicate ShownAs(member: User, name: string) {
    name == if member.displayName != "" then member.displayName else member.nickName
  }

  /** Member `i` of the visit is the first to resolve to `uid`. */
  predicate ResolvedFirst(v: Visit, i: nat, uid: string) {
    && i < |v.ids| == |v.group.members| && v.ids[i] == Ok(uid)
    && forall j :: 0 <= j < i ==> v.ids[j] != Ok(uid)
  }

  predicate NobodyResolved(v: Visit, uid: string) {
    forall j :: 0 <= j < |v.ids| ==> v.ids[j] != Ok(uid)
  }

  lemma ListedLast(members: seq<User>, ids: seq<Result<string>>, writes: nat -> bool)
    requires |members| == |ids| && members != []
    ensures var n := |members| - 1; var earlier := ListedOf(members[..n], ids[..n], writes);
            ListedOf(members, ids, writes)
            == if ids[n].Ok? then earlier + [Listed(ids[n].value, ShownName(members[n]), writes(n))] else earlier
  {
    var n := |members| - 1;
    var earlier := ListedOf(members[..n], ids[..n], writes);
    assert earlier + [] == earlier;
  }

  lemma {:induction false} ListedNobody(members: seq<User>, ids: seq<Result<string>>, writes: nat -> bool, uid: string)
    requires |members| == |ids| && forall j :: 0 <= j < |ids| ==> ids[j] != Ok(uid)
    ensures FirstListing(ListedOf(members, ids, writes), uid).None?
  {
    if members != [] {
      var n := |members| - 1;
      ListedLast(members, ids, writes);
      ListedNobody(members[..n], ids[..n], writes, uid);
      if ids[n].Ok? {
        ListingAppend(ListedOf(members[..n], ids[..n], writes),
                      Listed(ids[n].value, ShownName(members[n]), writes(n)), uid);
      }
    }
  }

  lemma {:induction false} ListedFirst(members: seq<User>, ids: seq<Result<string>>, writes: nat -> bool,
                                       i: nat, uid: string)
    requires i < |members| == |ids| && ids[i] == Ok(uid) && forall j :: 0 <= j < i ==> ids[j] != Ok(uid)
    ensures var l := FirstListing(ListedOf(members, ids, writes), uid);
            l.Some? && ShownAs(members[i], l.value.nickname) && l.value.write == writes(i)
  {
    var n := |members| - 1;
    var last := Listed(uid, ShownName(members[n]), writes(n));
    ListedLast(members, ids, writes);
    if i == n {
      ListedNobody(members[..n], ids[..n], writes, uid);
      ListingAppend(ListedOf(members[..n], ids[..n], writes), last, uid);
    } else {
      ListedFirst(members[..n], ids[..n], writes, i, uid);
      if ids[n].Ok? {
        ListingAppend(ListedOf(members[..n], ids[..n], writes),
                      Listed(ids[n].value, ShownName(members[n]), writes(n)), uid);
      }
    }
  }

  /** The visit at `g` reconciles the group, and no other resolves to its id. */
  ghost predicate OnlyVisit(vs: seq<Visit>, g: nat) {
    && g < |vs| && vs[g].gid.Ok? && vs[g].env.readMembers && |vs[g].ids| == |vs[g].group.members|
    && forall h :: 0 <= h < |vs| && h != g ==> vs[h].gid != vs[g].gid
  }

  /** What the last visit does to a row and to the report. */
  lemma LastVisitRow(t: Table, vs: seq<Visit>, k: Key)
    requires vs != []
    ensures var n := |vs| - 1; var v, ps, qs := vs[n], PassesOf(vs[..n]), PassesOf(vs);
            if !Reconciled(v) || v.gid.value != k.gid
            then Row(ApplyAll(t, qs), k) == Row(ApplyAll(t, ps), k)
                 && (Names(ReportOf(t, qs), k) <==> Names(ReportOf(t, ps), k))
            else Row(ApplyAll(t, qs), k) == After(PassOf(v), Row(ApplyAll(t, ps), k), k.uid)
                 && (Names(ReportOf(t, qs), k)
                     <==> if ExitRows(ApplyAll(t, ps), PassOf(v)) == {} then Names(ReportOf(t, ps), k)
                          else Exits(ApplyAll(t, ps), PassOf(v), k.uid))
                 && (ExitRows(ApplyAll(t, ps), PassOf(v)) == {} ==> !Exits(ApplyAll(t, ps), PassOf(v), k.uid))
  {
    var n := |vs| - 1;
    assert vs == vs[..n] + [vs[n]];
    PassesMore(vs[..n], vs[n]);
    if Reconciled(vs[n]) {
      OnePassMore(t, PassesOf(vs[..n]), PassOf(vs[n]));
      ExitRowsNames(ApplyAll(t, PassesOf(vs[..n])), PassOf(vs[n]), k.uid);
    }
  }

  /** Groups whose id or rows could not be read keep their rows, and nobody of theirs is returned. */
  lemma {:induction false} SkippedGroup(t: Table, vs: seq<Visit>, k: Key)
    requires forall h :: 0 <= h < |vs| ==> vs[h].gid != Ok(k.gid) || !vs[h].env.readMembers
    ensures Row(ApplyAll(t, PassesOf(vs)), k) == Row(t, k) && !Names(ReportOf(t, PassesOf(vs)), k)
  {
    if vs != [] {
      SkippedGroup(t, vs[..|vs| - 1], k);
      LastVisitRow(t, vs, k);
    }
  }

  /** Only one visit to a group: its row and its entry are those of that visit's pass. */
  lemma {:induction false} OneVisit(t: Table, vs: seq<Visit>, g: nat, uid: string)
    requires OnlyVisit(vs, g)
    ensures var k := Key(vs[g].gid.value, uid);
            && Row(ApplyAll(t, PassesOf(vs)), k) == After(PassOf(vs[g]), Row(t, k), uid)
            && (Names(ReportOf(t, PassesOf(vs)), k) <==> Exits(t, PassOf(vs[g]), uid))
  {
    var n := |vs| - 1;
    var k := Key(vs[g].gid.value, uid);
    LastVisitRow(t, vs, k);
    if g == n {
      SkippedGroup(t, vs[..n], k);
    } else {
      assert OnlyVisit(vs[..n], g);
      OneVisit(t, vs[..n], g, uid);
    }
  }

  // ----- One refresh -----

  /** The row a refresh leaves of `row` for the member that is the first to resolve to its id. */
  lemma ListedRow(t: Table, vs: seq<Visit>, g: nat, i: nat, uid: string, name: string)
    requires OnlyVisit(vs, g) && ResolvedFirst(vs[g], i, uid) && vs[g].env.memberWrite(i)
    requires ShownAs(vs[g].group.members[i], name)
    ensures var k := Key(vs[g].gid.value, uid);
            Row(ApplyAll(t, PassesOf(vs)), k)
            == Some(if k !in t then GroupRow(name, 0)
                    else if name != t[k].nickname then GroupRow(name, t[k].leaveTime)
                    else GroupRow(name, 0))
    ensures !Names(ReportOf(t, PassesOf(vs)), Key(vs[g].gid.value, uid))
  {
    OneVisit(t, vs, g, uid);
    ListedFirst(vs[g].group.members, vs[g].ids, vs[g].env.memberWrite, i, uid);
    FirstOrWritten(PassOf(vs[g]).listed, uid);
  }

  lemma {:induction false} FirstOrWritten(listed: seq<Listed>, uid: string)
    requires FirstListing(listed, uid).Some? && FirstListing(listed, uid).value.write
    ensures FirstWritten(listed, uid) == Some(FirstListing(listed, uid).value.nickname)
  {
    if listed[0].uid != uid {
      FirstOrWritten(listed[1..], uid);
    }
  }

  /** A member nobody resolves to is returned if it was present, and stamped with the time of its write. */
  lemma UnlistedRow(t: Table, vs: seq<Visit>, g: nat, uid: string)
    requires OnlyVisit(vs, g) && NobodyResolved(vs[g], uid)
    ensures var k := Key(vs[g].gid.value, uid); var gone := k in t && t[k].leaveTime == 0;
            && (Names(ReportOf(t, PassesOf(vs)), k) <==> gone)
            && Row(ApplyAll(t, PassesOf(vs)), k)
               == if k !in t then None
                  else if gone && vs[g].env.leaveOk(uid) then Some(GroupRow(t[k].nickname, vs[g].env.clock(uid)))
                  else Some(t[k])
  {
    OneVisit(t, vs, g, uid);
    ListedNobody(vs[g].group.members, vs[g].ids, vs[g].env.memberWrite, uid);
    Unlisted(PassOf(vs[g]).listed, uid);
  }

  /** A returned exit is the row as it was stored, under its group and id. */
  lemma {:induction false} ReturnedAsStored(t: Table, ps: seq<Pass>, gid: string, u: GroupUser)
    requires DistinctGids(ps) && gid in ReportOf(t, ps) && u in ReportOf(t, ps)[gid]
    ensures u.gid == gid && u.leaveTime == 0 && Row(t, Key(gid, u.uid)) == Some(GroupRow(u.nickname, 0))
  {
    var n := |ps| - 1;
    var earlier, last := ps[..n], ps[n];
    if last.gid == gid {
      UnvisitedUntouched(t, earlier, Key(gid, u.uid));
      assert ReportOf(t, ps)[gid] == ExitRows(ApplyAll(t, earlier), last);
      var before := ApplyAll(t, earlier);
      var k :| k in before.Keys && Gone(before, last, k) && u == UserOf(before, k);
      UnvisitedUntouched(t, earlier, k);
    } else {
      ReturnedAsStored(t, earlier, gid, u);
    }
  }

  // ----- Two refreshes -----

  /**
   Two refreshes with the same answers, one visit to the group and successful writes: the member first
   resolved to an id is present under the name its group shows.
   */
  lemma NameAfterTwo(t: Table, us: seq<Visit>, vs: seq<Visit>, g: nat, i: nat, uid: string, name: string)
    requires OnlyVisit(us, g) && OnlyVisit(vs, g) && SameAnswers(us[g], vs[g]) && ResolvedFirst(us[g], i, uid)
    requires us[g].env.memberWrite(i) && vs[g].env.memberWrite(i) && ShownAs(us[g].group.members[i], name)
    ensures Row(ApplyAll(ApplyAll(t, PassesOf(us)), PassesOf(vs)), Key(us[g].gid.value, uid)) == Some(GroupRow(name, 0))
  {
    ListedRow(t, us, g, i, uid, name);
    ListedRow(ApplyAll(t, PassesOf(us)), vs, g, i, uid, name);
  }

  // ----- The calls of a visit -----

  /** A group whose id or rows cannot be read costs the one call for its id. */
  lemma SkippedCalls(gen: string -> string, s: Store, v: Visit, s': Store)
    requires Called(gen, s, v, s') && (v.gid.Err? || !v.env.readMembers)
    ensures v.ids == [] && GetIDStep(gen, s, v.group.user, v.env.groupDb, s', v.gid)
  {
    assert CallsOf(v) == [] + [GetID(v.group.user, v.env.groupDb, v.gid)];
    var mid := LastCall(gen, s, CallsOf(v), s');
  }

  lemma LastCall(gen: string -> string, s: Store, calls: seq<Call>, s': Store) returns (mid: Store)
    requires calls != [] && Reaches(gen, s, calls, s')
    ensures Reaches(gen, s, calls[..|calls| - 1], mid) && Step(gen, mid, calls[|calls| - 1], s')
  {
    mid :| Reaches(gen, s, calls[..|calls| - 1], mid) && LastStep(gen, mid, calls, s');
  }

  lemma {:induction false} CallAt(gen: string -> string, s: Store, calls: seq<Call>, s': Store, i: nat)
    returns (mid: Store, mid': Store)
    requires Reaches(gen, s, calls, s') && i < |calls|
    ensures Step(gen, mid, calls[i], mid')
  {
    mid := LastCall(gen, s, calls, s');
    mid' := s';
    if i < |calls| - 1 {
      mid, mid' := CallAt(gen, s, calls[..|calls| - 1], mid, i);
    }
  }

  /** Otherwise every listed member is asked for once, in order, and its answer kept. */
  lemma MembersAsked(gen: string -> string, s: Store, v: Visit, s': Store, i: nat)
    returns (mid: Store, mid': Store)
    requires Called(gen, s, v, s') && v.gid.Ok? && v.env.readMembers && i < |v.group.members|
    ensures |v.ids| == |v.group.members|
    ensures GetIDStep(gen, mid, v.group.members[i], v.env.memberDb(i), mid', v.ids[i])
  {
    MemberCallsAreGetID(v.group.members, v.env.memberDb, v.ids);
    assert CallsOf(v)[i + 1] == GetID(v.group.members[i], v.env.memberDb(i), v.ids[i]);
    mid, mid' := CallAt(gen, s, CallsOf(v), s', i + 1);
  }
}
