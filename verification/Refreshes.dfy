/** Whole refreshes: passes over groups with distinct ids, what is reported, and where they settle. */
module Refreshes {
  import opened Common
  import opened Groups

  /** The row handed back for a member who left, as it was before the pass. */
  datatype GroupUser = GroupUser(gid: string, uid: string, nickname: string, leaveTime: nat)

  function Nick(l: Option<Listed>): Option<string> {
    if l.Some? then Some(l.value.nickname) else None
  }

  /** The name the first listing of `uid` carries. */
  function FirstNick(listed: seq<Listed>, uid: string): Option<string> {
    Nick(FirstListing(listed, uid))
  }

  type Report = map<string, set<GroupUser>>

  predicate Gone(t: Table, p: Pass, k: Key) {
    k in t && k.gid == p.gid && t[k].leaveTime == 0 && FirstListing(p.listed, k.uid).None?
  }

  function UserOf(t: Table, k: Key): GroupUser
    requires k in t
  {
    GroupUser(k.gid, k.uid, t[k].nickname, t[k].leaveTime)
  }

  function ExitRows(t: Table, p: Pass): set<GroupUser> {
    set k | k in t.Keys && Gone(t, p, k) :: UserOf(t, k)
  }

  /** A group's entry is written only when someone left, and a later pass over the same id replaces it. */
  function ReportOf(t: Table, ps: seq<Pass>): Report {
    if ps == [] then map[] else
      var p, earlier := ps[|ps| - 1], ps[..|ps| - 1];
      var exits := ExitRows(ApplyAll(t, earlier), p);
      if exits == {} then ReportOf(t, earlier) else ReportOf(t, earlier)[p.gid := exits]
  }

  ghost predicate Names(r: Report, k: Key) {
    k.gid in r && exists u :: u in r[k.gid] && u.uid == k.uid
  }

  ghost predicate DistinctGids(ps: seq<Pass>) {
    forall i, j :: 0 <= i < j < |ps| ==> ps[i].gid != ps[j].gid
  }

  ghost predicate Visits(ps: seq<Pass>, gid: string) {
    exists i :: 0 <= i < |ps| && ps[i].gid == gid
  }

  lemma ExitRowsNames(t: Table, p: Pass, uid: string)
    ensures (exists u :: u in ExitRows(t, p) && u.uid == uid) <==> Exits(t, p, uid)
  {
    var k := Key(p.gid, uid);
    if Exits(t, p, uid) {
      assert Gone(t, p, k) && UserOf(t, k) in ExitRows(t, p);
    }
  }

  lemma {:induction false} UnvisitedUntouched(t: Table, ps: seq<Pass>, k: Key)
    requires !Visits(ps, k.gid)
    ensures Row(ApplyAll(t, ps), k) == Row(t, k) && k.gid !in ReportOf(t, ps)
    ensures Reports(t, ps, k) == 0 && LostStamps(t, ps, k) == 0
  {
    if ps != [] {
      var earlier := ps[..|ps| - 1];
      assert forall i :: 0 <= i < |earlier| ==> earlier[i] == ps[i];
      UnvisitedUntouched(t, earlier, k);
    }
  }

  /** With distinct ids a refresh acts on each group as its one pass does on the table it started from. */
  lemma {:induction false} VisitedOnce(t: Table, ps: seq<Pass>, i: nat, k: Key)
    requires DistinctGids(ps) && i < |ps| && ps[i].gid == k.gid
    ensures Row(ApplyAll(t, ps), k) == After(ps[i], Row(t, k), k.uid)
    ensures Names(ReportOf(t, ps), k) <==> Exits(t, ps[i], k.uid)
    ensures Reports(t, ps, k) == if Exits(t, ps[i], k.uid) then 1 else 0
    ensures LostStamps(t, ps, k) == if Exits(t, ps[i], k.uid) && !ps[i].leaveOk(k.uid) then 1 else 0
  {
    var last, earlier := ps[|ps| - 1], ps[..|ps| - 1];
    if i == |earlier| {
      UnvisitedUntouched(t, earlier, k);
      ExitRowsNames(ApplyAll(t, earlier), last, k.uid);
    } else {
      VisitedOnce(t, earlier, i, k);
    }
  }

  /** What a refresh returns is exactly what its passes report, counted once. */
  lemma ReportedOnce(t: Table, ps: seq<Pass>, k: Key)
    requires DistinctGids(ps)
    ensures Reports(t, ps, k) == if Names(ReportOf(t, ps), k) then 1 else 0
  {
    if i :| 0 <= i < |ps| && ps[i].gid == k.gid {
      VisitedOnce(t, ps, i, k);
    } else {
      UnvisitedUntouched(t, ps, k);
    }
  }

  // ----- Listings -----

  predicate AllWritten(listed: seq<Listed>) {
    forall j :: 0 <= j < |listed| ==> listed[j].write
  }

  lemma {:induction false} FirstIsWritten(listed: seq<Listed>, uid: string)
    requires AllWritten(listed)
    ensures FirstWritten(listed, uid) == Nick(FirstListing(listed, uid))
    ensures FirstListing(listed, uid).Some? ==> FirstListing(listed, uid).value.write
  {
    if listed != [] {
      FirstIsWritten(listed[1..], uid);
    }
  }

  /** The listing without its repetitions. */
  function FirstOnly(listed: seq<Listed>): seq<Listed> {
    if listed == [] then [] else
      var last, earlier := listed[|listed| - 1], listed[..|listed| - 1];
      if FirstListing(earlier, last.uid).Some? then FirstOnly(earlier) else FirstOnly(earlier) + [last]
  }

  lemma {:induction false} FirstOnlyKeepsFirst(listed: seq<Listed>, uid: string)
    ensures FirstListing(FirstOnly(listed), uid) == FirstListing(listed, uid)
    ensures AllWritten(listed) ==> AllWritten(FirstOnly(listed))
  {
    if listed != [] {
      var last, earlier := listed[|listed| - 1], listed[..|listed| - 1];
      assert listed == earlier + [last];
      FirstOnlyKeepsFirst(earlier, uid);
      ListingAppend(earlier, last, uid);
      ListingAppend(FirstOnly(earlier), last, uid);
    }
  }

  /** When its writes succeed, a pass acts as if every member were listed once. */
  lemma RepeatsAreIgnored(t: Table, p: Pass)
    requires AllWritten(p.listed)
    ensures ApplyPass(t, p.(listed := FirstOnly(p.listed))) == ApplyPass(t, p)
  {
    var q := p.(listed := FirstOnly(p.listed));
    forall k: Key ensures Row(ApplyPass(t, q), k) == Row(ApplyPass(t, p), k) {
      FirstOnlyKeepsFirst(p.listed, k.uid);
      FirstIsWritten(p.listed, k.uid);
      FirstIsWritten(q.listed, k.uid);
    }
    SameTable(ApplyPass(t, p), ApplyPass(t, q));
  }

  ghost predicate WritesSucceed(ps: seq<Pass>) {
    && (forall i, uid :: 0 <= i < |ps| ==> ps[i].leaveOk(uid))
    && (forall i :: 0 <= i < |ps| ==> AllWritten(ps[i].listed))
  }

  // ----- Convergence -----

  /** The same groups list the same members; clocks may differ. */
  ghost predicate SameSnapshot(ps: seq<Pass>, qs: seq<Pass>) {
    |ps| == |qs| && forall i :: 0 <= i < |ps| ==> ps[i].gid == qs[i].gid && ps[i].listed == qs[i].listed
  }

  ghost predicate Settling(ps: seq<Pass>) {
    DistinctGids(ps) && WritesSucceed(ps)
  }

  /** A row still marked as left whose member is listed under another name. */
  ghost predicate RejoinsRenamed(t: Table, p: Pass, uid: string) {
    var row, nick := Row(t, Key(p.gid, uid)), FirstNick(p.listed, uid);
    row.Some? && row.value.leaveTime > 0 && nick.Some? && nick.value != row.value.nickname
  }

  lemma RowAfterTwice(row: Option<GroupRow>, first: Option<Listed>, now: Millis, later: Millis)
    requires first.Some? ==> first.value.write
    ensures var nick := Nick(first);
            var row1 := RowAfter(row, first, nick, true, now); var row2 := RowAfter(row1, first, nick, true, later);
            && (nick.Some? ==> row2 == Some(GroupRow(nick.value, 0)))
            && (nick.None? ==> row2 == row1 && !Active(row1))
            && (row2 == row1
                <==> !(row.Some? && row.value.leaveTime > 0 && nick.Some? && nick.value != row.value.nickname))
  {
  }

  lemma RowSettles(t: Table, ps: seq<Pass>, qs: seq<Pass>, i: nat, k: Key)
    requires Settling(ps) && Settling(qs) && SameSnapshot(ps, qs) && i < |ps| && ps[i].gid == k.gid
    ensures var t1, t2 := ApplyAll(t, ps), ApplyAll(ApplyAll(t, ps), qs); var nick := FirstNick(ps[i].listed, k.uid);
            && (nick.Some? ==> Row(t2, k) == Some(GroupRow(nick.value, 0)))
            && (nick.None? ==> Row(t2, k) == Row(t1, k) && !Active(Row(t1, k)))
            && (Row(t2, k) == Row(t1, k) <==> !RejoinsRenamed(t, ps[i], k.uid))
  {
    VisitedOnce(t, ps, i, k);
    VisitedOnce(ApplyAll(t, ps), qs, i, k);
    assert ps[i].leaveOk(k.uid) && qs[i].leaveOk(k.uid) && AllWritten(ps[i].listed);
    FirstIsWritten(ps[i].listed, k.uid);
    RowAfterTwice(Row(t, k), FirstListing(ps[i].listed, k.uid), ps[i].clock(k.uid), qs[i].clock(k.uid));
  }

  lemma SameTable(t: Table, t': Table)
    requires forall k: Key :: Row(t', k) == Row(t, k)
    ensures t' == t
  {
    forall k: Key ensures k in t' <==> k in t {
      assert Row(t', k) == Row(t, k);
    }
    forall k: Key | k in t ensures t'[k] == t[k] {
      assert Row(t', k) == Row(t, k);
    }
  }

  lemma NobodyGoneNoReport(t: Table, ps: seq<Pass>)
    requires DistinctGids(ps)
    requires forall i, uid :: 0 <= i < |ps| ==> !Exits(t, ps[i], uid)
    ensures ReportOf(t, ps) == map[]
  {
    ReportKeys(t, ps);
    if gid :| gid in ReportOf(t, ps) {
      var u :| u in ReportOf(t, ps)[gid];
      var k := Key(gid, u.uid);
      assert Names(ReportOf(t, ps), k);
      if i :| 0 <= i < |ps| && ps[i].gid == gid {
        VisitedOnce(t, ps, i, k);
      } else {
        UnvisitedUntouched(t, ps, k);
      }
    }
  }

  lemma {:induction false} ReportKeys(t: Table, ps: seq<Pass>)
    ensures forall gid :: gid in ReportOf(t, ps) ==> ReportOf(t, ps)[gid] != {}
  {
    if ps != [] {
      ReportKeys(t, ps[..|ps| - 1]);
    }
  }

  /** After one refresh nobody listed is active under another name, and nobody active is missing. */
  lemma CalmAfterOne(t: Table, ps: seq<Pass>, qs: seq<Pass>, i: nat, uid: string)
    requires Settling(ps) && SameSnapshot(ps, qs) && i < |ps|
    ensures !Exits(ApplyAll(t, ps), qs[i], uid) && !RejoinsRenamed(ApplyAll(t, ps), qs[i], uid)
  {
    VisitedOnce(t, ps, i, Key(ps[i].gid, uid));
    assert ps[i].leaveOk(uid) && AllWritten(ps[i].listed);
    FirstIsWritten(ps[i].listed, uid);
  }

  /**
   Two refreshes of one snapshot settle: everyone listed is present under the first listed name,
   the second reports nobody, and a third changes nothing. One is enough exactly when nobody comes
   back under a new name.
   */
  lemma TwoPassConvergence(t: Table, ps: seq<Pass>, qs: seq<Pass>, rs: seq<Pass>)
    requires Settling(ps) && Settling(qs) && Settling(rs) && SameSnapshot(ps, qs) && SameSnapshot(qs, rs)
    ensures var t1, t2 := ApplyAll(t, ps), ApplyAll(ApplyAll(t, ps), qs);
            && (forall i, uid :: 0 <= i < |ps| && FirstNick(ps[i].listed, uid).Some?
                  ==> Row(t2, Key(ps[i].gid, uid)) == Some(GroupRow(FirstNick(ps[i].listed, uid).value, 0)))
            && ReportOf(t1, qs) == map[]
            && ApplyAll(t2, rs) == t2
            && (t2 == t1 <==> forall i, uid :: 0 <= i < |ps| ==> !RejoinsRenamed(t, ps[i], uid))
  {
    var t1, t2 := ApplyAll(t, ps), ApplyAll(ApplyAll(t, ps), qs);
    forall i, uid | 0 <= i < |ps|
      ensures FirstNick(ps[i].listed, uid).Some?
              ==> Row(t2, Key(ps[i].gid, uid)) == Some(GroupRow(FirstNick(ps[i].listed, uid).value, 0))
      ensures t2 == t1 ==> !RejoinsRenamed(t, ps[i], uid)
    {
      RowSettles(t, ps, qs, i, Key(ps[i].gid, uid));
    }
    forall i, uid | 0 <= i < |qs| ensures !Exits(t1, qs[i], uid) && !RejoinsRenamed(t1, qs[i], uid) {
      CalmAfterOne(t, ps, qs, i, uid);
    }
    NobodyGoneNoReport(t1, qs);
    OnePassEnough(t1, qs, rs);
    if forall i, uid :: 0 <= i < |ps| ==> !RejoinsRenamed(t, ps[i], uid) {
      OnePassEnough(t, ps, qs);
    }
  }

  lemma OnePassEnough(t: Table, ps: seq<Pass>, qs: seq<Pass>)
    requires Settling(ps) && Settling(qs) && SameSnapshot(ps, qs)
    requires forall i, uid :: 0 <= i < |ps| ==> !RejoinsRenamed(t, ps[i], uid)
    ensures ApplyAll(ApplyAll(t, ps), qs) == ApplyAll(t, ps)
  {
    forall k: Key ensures Row(ApplyAll(ApplyAll(t, ps), qs), k) == Row(ApplyAll(t, ps), k) {
      if i :| 0 <= i < |ps| && ps[i].gid == k.gid {
        RowSettles(t, ps, qs, i, k);
      } else {
        UnvisitedUntouched(ApplyAll(t, ps), qs, k);
      }
    }
    SameTable(ApplyAll(t, ps), ApplyAll(ApplyAll(t, ps), qs));
  }
}
