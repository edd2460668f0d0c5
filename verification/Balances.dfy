/** The exits refreshes return, balanced against arrivals: one refresh exactly, then whole histories. */
module Balances {
  import opened Common
  import opened Groups
  import opened Refreshes

  /** Whether one refresh returns `k` as an exit, and whether it adds `k` or brings it back. */
  ghost function Returned(t: Table, ps: seq<Pass>, k: Key): nat {
    if Names(ReportOf(t, ps), k) then 1 else 0
  }

  ghost function Arrival(t: Table, ps: seq<Pass>, k: Key): nat {
    if !Active(Row(t, k)) && Active(Row(ApplyAll(t, ps), k)) then 1 else 0
  }

  /** One refresh returns `k` exactly when it takes it out of the group. */
  ghost predicate Balanced(t: Table, ps: seq<Pass>, k: Key) {
    Returned(t, ps, k) + Here(ApplyAll(t, ps), k) == Here(t, k) + Arrival(t, ps, k)
  }

  predicate IsListed(p: Pass, uid: string) {
    FirstListing(p.listed, uid).Some?
  }

  /** Passes over one id list the same members. */
  ghost predicate SameListings(ps: seq<Pass>) {
    forall i, j, uid :: 0 <= i < |ps| && 0 <= j < |ps| && ps[i].gid == ps[j].gid && IsListed(ps[i], uid)
                        ==> IsListed(ps[j], uid)
  }

  // ----- One row through the passes -----

  function RowAt(row: Option<GroupRow>, ps: seq<Pass>, n: nat, k: Key): Option<GroupRow>
    requires n <= |ps|
  {
    if n == 0 then row else
      var before := RowAt(row, ps, n - 1, k);
      if ps[n - 1].gid == k.gid then After(ps[n - 1], before, k.uid) else before
  }

  lemma {:induction false} RowAtIs(t: Table, ps: seq<Pass>, n: nat, k: Key)
    requires n <= |ps|
    ensures Row(ApplyAll(t, ps[..n]), k) == RowAt(Row(t, k), ps, n, k)
  {
    if n > 0 {
      RowAtIs(t, ps, n - 1, k);
      assert ps[..n][..n - 1] == ps[..n - 1];
    }
  }

  lemma RowInTheEnd(t: Table, ps: seq<Pass>, k: Key)
    ensures Row(ApplyAll(t, ps), k) == RowAt(Row(t, k), ps, |ps|, k)
  {
    RowAtIs(t, ps, |ps|, k);
    assert ps[..|ps|] == ps;
  }

  /** None of the first `n` passes reports `k`. */
  ghost predicate Quiet(row: Option<GroupRow>, ps: seq<Pass>, n: nat, k: Key)
    requires n <= |ps|
  {
    forall i :: 0 <= i < n && ps[i].gid == k.gid && Active(RowAt(row, ps, i, k)) ==> IsListed(ps[i], k.uid)
  }

  /** Who is present stays present while not reported. */
  lemma {:induction false} StaysPresent(row: Option<GroupRow>, ps: seq<Pass>, k: Key, i: nat, n: nat)
    requires i <= n <= |ps| && Quiet(row, ps, n, k) && Active(RowAt(row, ps, i, k))
    ensures Active(RowAt(row, ps, n, k))
    decreases n
  {
    if i < n {
      StaysPresent(row, ps, k, i, n - 1);
    }
  }

  /** Who is not listed is gone after the first pass over the id. */
  lemma {:induction false} StaysGone(row: Option<GroupRow>, ps: seq<Pass>, k: Key, i: nat, n: nat)
    requires WritesSucceed(ps) && i < n <= |ps| && ps[i].gid == k.gid
    requires forall m :: 0 <= m < n && ps[m].gid == k.gid ==> !IsListed(ps[m], k.uid)
    ensures !Active(RowAt(row, ps, n, k))
    decreases n
  {
    FirstIsWritten(ps[n - 1].listed, k.uid);
    assert ps[n - 1].leaveOk(k.uid);
    if i < n - 1 {
      StaysGone(row, ps, k, i, n - 1);
    }
  }

  /** The row keeps its name until it is listed from `f` on, and is then present. */
  lemma {:induction false} BackUnderFirstName(row: Option<GroupRow>, ps: seq<Pass>, k: Key, f: nat, n: nat)
    requires WritesSucceed(ps) && f < |ps| && n <= |ps| && ps[f].gid == k.gid
    requires forall m :: 0 <= m < |ps| && ps[m].gid == k.gid ==> (IsListed(ps[m], k.uid) <==> m >= f)
    requires row.Some? && FirstNick(ps[f].listed, k.uid) == Some(row.value.nickname)
    ensures var now := RowAt(row, ps, n, k);
            now.Some? && if n <= f then now.value.nickname == row.value.nickname else Active(now)
  {
    if n > 0 {
      BackUnderFirstName(row, ps, k, f, n - 1);
      FirstIsWritten(ps[n - 1].listed, k.uid);
    }
  }

  // ----- Same listings balance -----

  lemma NoExitNoRow(t: Table, p: Pass)
    ensures ExitRows(t, p) == {} <==> forall uid :: !Exits(t, p, uid)
  {
    forall uid ensures Exits(t, p, uid) ==> ExitRows(t, p) != {} {
      ExitRowsNames(t, p, uid);
    }
    if u :| u in ExitRows(t, p) {
      ExitRowsNames(t, p, u.uid);
    }
  }

  /** After one pass over an id no pass listing the same reports anybody. */
  lemma SecondReportsNobody(t: Table, ps: seq<Pass>, i: nat, n: nat)
    requires SameListings(ps) && WritesSucceed(ps) && i < n < |ps| && ps[i].gid == ps[n].gid
    ensures ExitRows(ApplyAll(t, ps[..n]), ps[n]) == {}
  {
    forall uid ensures !Exits(ApplyAll(t, ps[..n]), ps[n], uid) {
      var k := Key(ps[n].gid, uid);
      RowAtIs(t, ps, n, k);
      if !IsListed(ps[n], uid) {
        StaysGone(Row(t, k), ps, k, i, n);
      }
    }
    NoExitNoRow(ApplyAll(t, ps[..n]), ps[n]);
  }

  lemma LastReports(t: Table, ps: seq<Pass>, n: nat, k: Key)
    requires n < |ps|
    ensures var exits := ExitRows(ApplyAll(t, ps[..n]), ps[n]);
            Names(ReportOf(t, ps[..n + 1]), k)
            <==> if ps[n].gid == k.gid && exits != {} then Exits(ApplyAll(t, ps[..n]), ps[n], k.uid)
                 else Names(ReportOf(t, ps[..n]), k)
    ensures ExitRows(ApplyAll(t, ps[..n]), ps[n]) == {} ==> !Exits(ApplyAll(t, ps[..n]), ps[n], k.uid)
  {
    assert ps[..n + 1][..n] == ps[..n];
    ExitRowsNames(ApplyAll(t, ps[..n]), ps[n], k.uid);
  }

  lemma {:induction false} FirstPassReports(t: Table, ps: seq<Pass>, i: nat, n: nat, k: Key)
    requires SameListings(ps) && WritesSucceed(ps) && i < n <= |ps| && ps[i].gid == k.gid
    requires forall m :: 0 <= m < i ==> ps[m].gid != k.gid
    ensures Names(ReportOf(t, ps[..n]), k) <==> Exits(t, ps[i], k.uid)
    decreases n
  {
    LastReports(t, ps, n - 1, k);
    if i == n - 1 {
      UnvisitedUntouched(t, ps[..i], k);
    } else {
      FirstPassReports(t, ps, i, n - 1, k);
      if ps[n - 1].gid == k.gid {
        SecondReportsNobody(t, ps, i, n - 1);
      }
    }
  }

  lemma FirstVisit(ps: seq<Pass>, j: nat) returns (i: nat)
    requires j < |ps|
    ensures i <= j && ps[i].gid == ps[j].gid && forall m :: 0 <= m < i ==> ps[m].gid != ps[j].gid
  {
    i := 0;
    while ps[i].gid != ps[j].gid
      invariant i <= j && forall m :: 0 <= m < i ==> ps[m].gid != ps[j].gid
      decreases j - i
    {
      i := i + 1;
    }
  }

  lemma SameListingsBalance(t: Table, ps: seq<Pass>, k: Key)
    requires SameListings(ps) && WritesSucceed(ps)
    ensures Balanced(t, ps, k)
  {
    if j :| 0 <= j < |ps| && ps[j].gid == k.gid {
      var i := FirstVisit(ps, j);
      FirstPassReports(t, ps, i, |ps|, k);
      assert ps[..|ps|] == ps;
      RowInTheEnd(t, ps, k);
      if !IsListed(ps[i], k.uid) {
        StaysGone(Row(t, k), ps, k, i, |ps|);
      } else if Active(Row(t, k)) {
        StaysPresent(Row(t, k), ps, k, 0, |ps|);
      }
    } else {
      UnvisitedUntouched(t, ps, k);
    }
  }

  // ----- Nothing else balances -----

  lemma NoEntryNoExit(t: Table, ps: seq<Pass>, n: nat, k: Key)
    requires n < |ps| && k.gid !in ReportOf(t, ps[..n + 1])
    ensures k.gid !in ReportOf(t, ps[..n])
    ensures ps[n].gid == k.gid && Active(RowAt(Row(t, k), ps, n, k)) ==> IsListed(ps[n], k.uid)
  {
    assert ps[..n + 1][..n] == ps[..n];
    RowAtIs(t, ps, n, k);
    if ps[n].gid == k.gid {
      NoExitNoRow(ApplyAll(t, ps[..n]), ps[n]);
      assert !Exits(ApplyAll(t, ps[..n]), ps[n], k.uid);
    }
  }

  lemma QuietMore(row: Option<GroupRow>, ps: seq<Pass>, n: nat, k: Key)
    requires n < |ps| && Quiet(row, ps, n, k)
    requires ps[n].gid == k.gid && Active(RowAt(row, ps, n, k)) ==> IsListed(ps[n], k.uid)
    ensures Quiet(row, ps, n + 1, k)
  {
  }

  lemma {:induction false} NoEntryIsQuiet(t: Table, ps: seq<Pass>, n: nat, k: Key)
    requires n <= |ps| && k.gid !in ReportOf(t, ps[..n])
    ensures Quiet(Row(t, k), ps, n, k)
  {
    if n > 0 {
      NoEntryNoExit(t, ps, n - 1, k);
      NoEntryIsQuiet(t, ps, n - 1, k);
      QuietMore(Row(t, k), ps, n - 1, k);
    }
  }

  lemma EntryNamesSomebody(t: Table, ps: seq<Pass>, gid: string)
    requires gid in ReportOf(t, ps)
    ensures exists uid :: Names(ReportOf(t, ps), Key(gid, uid))
  {
    ReportKeys(t, ps);
    var u :| u in ReportOf(t, ps)[gid];
    assert Names(ReportOf(t, ps), Key(gid, u.uid));
  }

  /** If a balanced refresh takes nobody out of the group, it reports nobody on the way. */
  lemma BalancedIsQuiet(t: Table, ps: seq<Pass>, k: Key)
    requires forall k' :: Balanced(t, ps, k')
    requires forall uid :: Active(Row(t, Key(k.gid, uid))) ==> Active(Row(ApplyAll(t, ps), Key(k.gid, uid)))
    ensures Quiet(Row(t, k), ps, |ps|, k)
  {
    forall uid ensures !Names(ReportOf(t, ps), Key(k.gid, uid)) {
      assert Balanced(t, ps, Key(k.gid, uid));
    }
    if k.gid in ReportOf(t, ps) {
      EntryNamesSomebody(t, ps, k.gid);
    }
    assert ps[..|ps|] == ps;
    NoEntryIsQuiet(t, ps, |ps|, k);
  }

  /** From no row at all the row is present while it is not reported. */
  lemma {:induction false} NeverLeft(ps: seq<Pass>, k: Key, n: nat)
    requires n <= |ps| && Quiet(None, ps, n, k)
    ensures RowAt(None, ps, n, k).Some? ==> Active(RowAt(None, ps, n, k))
  {
    if n > 0 {
      NeverLeft(ps, k, n - 1);
    }
  }

  /** Then who is listed once is listed ever after. */
  lemma ListedStaysListed(ps: seq<Pass>, k: Key, i: nat, j: nat)
    requires Quiet(None, ps, |ps|, k) && WritesSucceed(ps) && i < j < |ps| && ps[i].gid == ps[j].gid == k.gid
    requires IsListed(ps[i], k.uid)
    ensures IsListed(ps[j], k.uid)
  {
    NeverLeft(ps, k, i);
    FirstIsWritten(ps[i].listed, k.uid);
    StaysPresent(None, ps, k, i + 1, j);
  }

  lemma FirstListed(ps: seq<Pass>, k: Key, j: nat) returns (f: nat)
    requires j < |ps| && ps[j].gid == k.gid && IsListed(ps[j], k.uid)
    ensures f <= j && ps[f].gid == k.gid && IsListed(ps[f], k.uid)
    ensures forall m :: 0 <= m < f && ps[m].gid == k.gid ==> !IsListed(ps[m], k.uid)
  {
    f := 0;
    while ps[f].gid != k.gid || !IsListed(ps[f], k.uid)
      invariant f <= j && forall m :: 0 <= m < f && ps[m].gid == k.gid ==> !IsListed(ps[m], k.uid)
      decreases j - f
    {
      f := f + 1;
    }
  }

  /** Were the member first listed at `f`, after another pass, that pass would report it and yet it would be present. */
  lemma ListedFromTheStart(ps: seq<Pass>, k: Key, i: nat, f: nat)
    requires WritesSucceed(ps) && forall t, k' :: Balanced(t, ps, k')
    requires i < |ps| && f < |ps| && ps[i].gid == ps[f].gid == k.gid && IsListed(ps[f], k.uid)
    requires forall m :: 0 <= m < |ps| && ps[m].gid == k.gid ==> (IsListed(ps[m], k.uid) <==> m >= f)
    ensures i >= f
  {
    var row := GroupRow(FirstNick(ps[f].listed, k.uid).value, 0);
    var t: Table := map[k := row];
    BackUnderFirstName(Some(row), ps, k, f, |ps|);
    RowInTheEnd(t, ps, k);
    BalancedIsQuiet(t, ps, k);
    StaysPresent(Some(row), ps, k, 0, i);
  }

  /** If every table balances, a member listed by one pass over its id is listed by all. */
  lemma BalancedListsSame(ps: seq<Pass>, k: Key, i: nat, j: nat)
    requires WritesSucceed(ps) && forall t, k' :: Balanced(t, ps, k')
    requires i < |ps| && j < |ps| && ps[i].gid == ps[j].gid == k.gid && IsListed(ps[j], k.uid)
    ensures IsListed(ps[i], k.uid)
  {
    BalancedIsQuiet(map[], ps, k);
    var f := FirstListed(ps, k, j);
    forall m | f < m < |ps| && ps[m].gid == k.gid ensures IsListed(ps[m], k.uid) {
      ListedStaysListed(ps, k, f, m);
    }
    ListedFromTheStart(ps, k, i, f);
  }

  /**
   With successful writes returned exits balance, whatever the rows were, exactly when all passes over
   one id list the same members.
   */
  lemma BalancedExactly(ps: seq<Pass>)
    requires WritesSucceed(ps)
    ensures (forall t, k :: Balanced(t, ps, k)) <==> SameListings(ps)
  {
    if SameListings(ps) {
      forall t, k ensures Balanced(t, ps, k) {
        SameListingsBalance(t, ps, k);
      }
    }
    if forall t, k :: Balanced(t, ps, k) {
      forall i, j, uid | 0 <= i < |ps| && 0 <= j < |ps| && ps[i].gid == ps[j].gid && IsListed(ps[i], uid)
        ensures IsListed(ps[j], uid)
      {
        BalancedListsSame(ps, Key(ps[i].gid, uid), j, i);
      }
    }
  }

  // ----- Histories of refreshes -----

  function TableAfter(t: Table, hist: seq<seq<Pass>>): Table {
    if hist == [] then t else ApplyAll(TableAfter(t, hist[..|hist| - 1]), hist[|hist| - 1])
  }

  /** In how many refreshes `k` is among the returned exits, and in how many it arrives. */
  ghost function ReturnedExits(t: Table, hist: seq<seq<Pass>>, k: Key): nat {
    if hist == [] then 0 else
      ReturnedExits(t, hist[..|hist| - 1], k) + Returned(TableAfter(t, hist[..|hist| - 1]), hist[|hist| - 1], k)
  }

  ghost function Arrivals(t: Table, hist: seq<seq<Pass>>, k: Key): nat {
    if hist == [] then 0 else
      Arrivals(t, hist[..|hist| - 1], k) + Arrival(TableAfter(t, hist[..|hist| - 1]), hist[|hist| - 1], k)
  }

  /** How many stamps of `k` are lost. */
  ghost function Losses(t: Table, hist: seq<seq<Pass>>, k: Key): nat {
    if hist == [] then 0 else
      Losses(t, hist[..|hist| - 1], k) + LostStamps(TableAfter(t, hist[..|hist| - 1]), hist[|hist| - 1], k)
  }

  lemma RefreshConserves(t: Table, ps: seq<Pass>, k: Key)
    requires DistinctGids(ps)
    ensures Returned(t, ps, k) + Here(ApplyAll(t, ps), k) == Here(t, k) + Arrival(t, ps, k) + LostStamps(t, ps, k)
  {
    if i :| 0 <= i < |ps| && ps[i].gid == k.gid {
      VisitedOnce(t, ps, i, k);
      PassBalance(t, ps[i], k);
      assert Row(ApplyPass(t, ps[i]), k) == Row(ApplyAll(t, ps), k);
    } else {
      UnvisitedUntouched(t, ps, k);
    }
  }

  /** Conservation of returned exits over every history with distinct ids, whichever writes fail. */
  lemma {:induction false} ReturnedExitsConserved(hist: seq<seq<Pass>>, k: Key)
    requires forall i :: 0 <= i < |hist| ==> DistinctGids(hist[i])
    ensures ReturnedExits(map[], hist, k) + Here(TableAfter(map[], hist), k)
            == Arrivals(map[], hist, k) + Losses(map[], hist, k)
  {
    if hist != [] {
      var earlier := hist[..|hist| - 1];
      assert forall i :: 0 <= i < |earlier| ==> earlier[i] == hist[i];
      ReturnedExitsConserved(earlier, k);
      RefreshConserves(TableAfter(map[], earlier), hist[|hist| - 1], k);
    }
  }

  /**
   With successful writes and the same listings for one id, exits returned plus the member if still
   present equal the arrivals, after every prefix of every history; so arrivals and returned exits
   strictly alternate, starting with an arrival.
   */
  lemma {:induction false} ReturnedExitsBalance(hist: seq<seq<Pass>>, k: Key)
    requires forall i :: 0 <= i < |hist| ==> SameListings(hist[i]) && WritesSucceed(hist[i])
    ensures ReturnedExits(map[], hist, k) + Here(TableAfter(map[], hist), k) == Arrivals(map[], hist, k)
    ensures ReturnedExits(map[], hist, k) <= Arrivals(map[], hist, k) <= ReturnedExits(map[], hist, k) + 1
  {
    if hist != [] {
      var earlier := hist[..|hist| - 1];
      assert forall i :: 0 <= i < |earlier| ==> earlier[i] == hist[i];
      ReturnedExitsBalance(earlier, k);
      SameListingsBalance(TableAfter(map[], earlier), hist[|hist| - 1], k);
    }
  }

  // ----- A lost stamp -----

  /** `k` arrives, leaves while its stamp is lost, and is gone for good. */
  function LostStampPasses(k: Key, now: Millis): seq<Pass> {
    var never, ever := (u: string) => false, (u: string) => true;
    var clock := (u: string) => now;
    [Pass(k.gid, [Listed(k.uid, "n", true)], ever, clock), Pass(k.gid, [], never, clock), Pass(k.gid, [], ever, clock)]
  }

  /** One arrival is reported twice. */
  lemma LostStampReportsTwice(k: Key, now: Millis)
    ensures var ps := LostStampPasses(k, now); Activations(map[], ps, k) == 1 && Reports(map[], ps, k) == 2
  {
    var ps := LostStampPasses(k, now);
    assert ps[..2][..1] == ps[..1] && ps[..1][..0] == [];
    assert Row(ApplyAll(map[], ps[..1]), k) == Some(GroupRow("n", 0));
    assert Row(ApplyAll(map[], ps[..2]), k) == Some(GroupRow("n", 0));
    assert Row(ApplyAll(map[], ps), k) == Some(GroupRow("n", now));
    assert Activations(map[], ps[..1], k) == 1 && Reports(map[], ps[..1], k) == 0;
  }
}
