/**
 Group reconciliation of hub/member_manager.go on values: one pass compares the members a group
 lists now with the rows kept for it, and a refresh is a sequence of passes. Nothing here assumes
 that two groups resolve to different ids unless it says so.
 */
module Groups {
  import opened Common

  datatype Key = Key(gid: string, uid: string)

  /** `leaveTime` is 0 while the member is in the group. */
  datatype GroupRow = GroupRow(nickname: string, leaveTime: nat)

  type Table = map<Key, GroupRow>

  /** A millisecond clock reading. */
  type Millis = t: int | 0 < t witness 1

  /** A listed member whose id was resolved, under the name the group shows; `write` is the fate of its write. */
  datatype Listed = Listed(uid: string, nickname: string, write: bool)

  /**
   One group's pass: the resolved members in listing order, and for everyone who may turn out to be
   gone whether the stamp is written and which time it carries.
   */
  datatype Pass = Pass(gid: string, listed: seq<Listed>, leaveOk: string -> bool, clock: string -> Millis)

  function Row(t: Table, k: Key): Option<GroupRow> {
    if k in t then Some(t[k]) else None
  }

  function FirstListing(listed: seq<Listed>, uid: string): Option<Listed> {
    if listed == [] then None
    else if listed[0].uid == uid then Some(listed[0])
    else FirstListing(listed[1..], uid)
  }

  /** The name under which the first successful write for `uid` would add it. */
  function FirstWritten(listed: seq<Listed>, uid: string): Option<string> {
    if listed == [] then None
    else if listed[0].uid == uid && listed[0].write then Some(listed[0].nickname)
    else FirstWritten(listed[1..], uid)
  }

  lemma {:induction false} Unlisted(listed: seq<Listed>, uid: string)
    ensures FirstListing(listed, uid).None? <==> forall i :: 0 <= i < |listed| ==> listed[i].uid != uid
    ensures FirstListing(listed, uid).None? ==> FirstWritten(listed, uid).None?
  {
    if listed != [] {
      Unlisted(listed[1..], uid);
      assert forall i :: 0 < i < |listed| ==> listed[i] == listed[1..][i - 1];
    }
  }

  lemma {:induction false} ListingAppend(listed: seq<Listed>, more: Listed, uid: string)
    ensures FirstListing(listed + [more], uid)
            == if FirstListing(listed, uid).Some? then FirstListing(listed, uid)
               else if more.uid == uid then Some(more) else None
    ensures FirstWritten(listed + [more], uid)
            == if FirstWritten(listed, uid).Some? then FirstWritten(listed, uid)
               else if more.uid == uid && more.write then Some(more.nickname) else None
  {
    if listed != [] {
      assert (listed + [more])[1..] == listed[1..] + [more];
      ListingAppend(listed[1..], more, uid);
    }
  }

  predicate Active(row: Option<GroupRow>) {
    row.Some? && row.value.leaveTime == 0
  }

  /**
   Add, rename keeping the leave time, reset, stamp, or keep. A row that was there follows its first
   listing alone, since every later one tries to add it and meets its key.
   */
  function RowAfter(row: Option<GroupRow>, first: Option<Listed>, written: Option<string>, leaveOk: bool, now: Millis)
    : Option<GroupRow>
  {
    match (row, first)
    case (None, _) => if written.Some? then Some(GroupRow(written.value, 0)) else None
    case (Some(r), None) => Some(if r.leaveTime > 0 || !leaveOk then r else r.(leaveTime := now))
    case (Some(r), Some(l)) =>
      Some(if !l.write then r else if l.nickname != r.nickname then r.(nickname := l.nickname) else r.(leaveTime := 0))
  }

  function After(p: Pass, row: Option<GroupRow>, uid: string): Option<GroupRow> {
    RowAfter(row, FirstListing(p.listed, uid), FirstWritten(p.listed, uid), p.leaveOk(uid), p.clock(uid))
  }

  function Touched(p: Pass): set<Key> {
    set i | 0 <= i < |p.listed| :: Key(p.gid, p.listed[i].uid)
  }

  /** The table after one pass, row by row; rows of other groups are untouched. */
  function ApplyPass(t: Table, p: Pass): (t': Table)
    ensures forall k: Key :: Row(t', k) == if k.gid == p.gid then After(p, Row(t, k), k.uid) else Row(t, k)
  {
    forall k: Key | k.gid == p.gid && k !in t && k !in Touched(p) ensures FirstWritten(p.listed, k.uid).None? {
      Unlisted(p.listed, k.uid);
    }
    map k: Key | k in t.Keys + Touched(p) && (k.gid == p.gid ==> After(p, Row(t, k), k.uid).Some?)
      :: if k.gid == p.gid then After(p, Row(t, k), k.uid).value else t[k]
  }

  // ----- The same by positions in the listing -----

  /** The first position that lists `uid`, and the first whose write for it succeeds. */
  predicate FirstAt(listed: seq<Listed>, uid: string, i: nat) {
    i < |listed| && listed[i].uid == uid && forall j :: 0 <= j < i ==> listed[j].uid != uid
  }

  predicate FirstWrittenAt(listed: seq<Listed>, uid: string, i: nat) {
    && i < |listed| && listed[i].uid == uid && listed[i].write
    && forall j :: 0 <= j < i ==> listed[j].uid != uid || !listed[j].write
  }

  lemma {:induction false} FirstListingAt(listed: seq<Listed>, i: nat)
    requires i < |listed| && FirstAt(listed, listed[i].uid, i)
    ensures FirstListing(listed, listed[i].uid) == Some(listed[i])
  {
    if i > 0 {
      assert listed[0].uid != listed[i].uid;
      assert forall j :: 0 <= j < i - 1 ==> listed[1..][j] == listed[j + 1];
      FirstListingAt(listed[1..], i - 1);
    }
  }

  lemma {:induction false} FirstWrittenIs(listed: seq<Listed>, i: nat)
    requires i < |listed| && FirstWrittenAt(listed, listed[i].uid, i)
    ensures FirstWritten(listed, listed[i].uid) == Some(listed[i].nickname)
  {
    if i > 0 {
      assert listed[0].uid != listed[i].uid || !listed[0].write;
      assert forall j :: 0 <= j < i - 1 ==> listed[1..][j] == listed[j + 1];
      FirstWrittenIs(listed[1..], i - 1);
    }
  }

  lemma {:induction false} NeverWritten(listed: seq<Listed>, uid: string)
    requires forall i :: 0 <= i < |listed| ==> listed[i].uid != uid || !listed[i].write
    ensures FirstWritten(listed, uid).None?
  {
    if listed != [] {
      NeverWritten(listed[1..], uid);
    }
  }

  /**
   A row that is there follows its first listing: a new name is stored and the leave time kept, the same
   name resets the leave time; a failed write does nothing.
   */
  lemma RowListed(t: Table, p: Pass, i: nat)
    requires i < |p.listed| && FirstAt(p.listed, p.listed[i].uid, i) && Key(p.gid, p.listed[i].uid) in t
    ensures var l := p.listed[i]; var k := Key(p.gid, l.uid);
            k in ApplyPass(t, p)
            && ApplyPass(t, p)[k] == if !l.write then t[k]
                                     else if l.nickname != t[k].nickname then GroupRow(l.nickname, t[k].leaveTime)
                                     else GroupRow(t[k].nickname, 0)
  {
    var k := Key(p.gid, p.listed[i].uid);
    assert Row(ApplyPass(t, p), k) == After(p, Row(t, k), k.uid);
    FirstListingAt(p.listed, i);
  }

  /** A row nobody lists is stamped if it is present and the write succeeds. */
  lemma RowUnlisted(t: Table, p: Pass, uid: string)
    requires Key(p.gid, uid) in t && forall i :: 0 <= i < |p.listed| ==> p.listed[i].uid != uid
    ensures var k := Key(p.gid, uid);
            k in ApplyPass(t, p)
            && ApplyPass(t, p)[k] == if t[k].leaveTime == 0 && p.leaveOk(uid) then GroupRow(t[k].nickname, p.clock(uid))
                                     else t[k]
  {
    var k := Key(p.gid, uid);
    assert Row(ApplyPass(t, p), k) == After(p, Row(t, k), uid);
    Unlisted(p.listed, uid);
  }

  /** A missing row is added, present, by the first listing whose write succeeds. */
  lemma RowAdded(t: Table, p: Pass, i: nat)
    requires i < |p.listed| && FirstWrittenAt(p.listed, p.listed[i].uid, i) && Key(p.gid, p.listed[i].uid) !in t
    ensures var k := Key(p.gid, p.listed[i].uid);
            k in ApplyPass(t, p) && ApplyPass(t, p)[k] == GroupRow(p.listed[i].nickname, 0)
  {
    var k := Key(p.gid, p.listed[i].uid);
    assert Row(ApplyPass(t, p), k) == After(p, Row(t, k), k.uid);
    FirstWrittenIs(p.listed, i);
  }

  lemma RowNotAdded(t: Table, p: Pass, uid: string)
    requires Key(p.gid, uid) !in t && forall i :: 0 <= i < |p.listed| ==> p.listed[i].uid != uid || !p.listed[i].write
    ensures Key(p.gid, uid) !in ApplyPass(t, p)
  {
    var k := Key(p.gid, uid);
    assert Row(ApplyPass(t, p), k) == After(p, Row(t, k), uid);
    NeverWritten(p.listed, uid);
  }

  /** A pass touches no row of another group. */
  lemma RowElsewhere(t: Table, p: Pass, k: Key)
    requires k.gid != p.gid
    ensures (k in ApplyPass(t, p) <==> k in t) && (k in t ==> ApplyPass(t, p)[k] == t[k])
  {
    assert Row(ApplyPass(t, p), k) == Row(t, k);
  }

  /** The ids a pass reports as gone: active before and not listed, whether or not the stamp is written. */
  ghost predicate Exits(t: Table, p: Pass, uid: string) {
    Active(Row(t, Key(p.gid, uid))) && FirstListing(p.listed, uid).None?
  }

  // ----- Runs of passes -----

  function ApplyAll(t: Table, ps: seq<Pass>): Table {
    if ps == [] then t else ApplyPass(ApplyAll(t, ps[..|ps| - 1]), ps[|ps| - 1])
  }

  /** How often passes reported `k`, brought it (back) into the group, or lost a departure stamp. */
  ghost function Reports(t: Table, ps: seq<Pass>, k: Key): nat {
    if ps == [] then 0 else
      var p, before := ps[|ps| - 1], ApplyAll(t, ps[..|ps| - 1]);
      Reports(t, ps[..|ps| - 1], k) + if p.gid == k.gid && Exits(before, p, k.uid) then 1 else 0
  }

  ghost function Activations(t: Table, ps: seq<Pass>, k: Key): nat {
    if ps == [] then 0 else
      var before := ApplyAll(t, ps[..|ps| - 1]);
      Activations(t, ps[..|ps| - 1], k)
      + if !Active(Row(before, k)) && Active(Row(ApplyAll(t, ps), k)) then 1 else 0
  }

  ghost function LostStamps(t: Table, ps: seq<Pass>, k: Key): nat {
    if ps == [] then 0 else
      var p, before := ps[|ps| - 1], ApplyAll(t, ps[..|ps| - 1]);
      LostStamps(t, ps[..|ps| - 1], k)
      + if p.gid == k.gid && Exits(before, p, k.uid) && !p.leaveOk(k.uid) then 1 else 0
  }

  function Here(t: Table, k: Key): nat {
    if Active(Row(t, k)) then 1 else 0
  }

  lemma PassBalance(t: Table, p: Pass, k: Key)
    ensures (if p.gid == k.gid && Exits(t, p, k.uid) then 1 else 0) + Here(ApplyPass(t, p), k)
            == Here(t, k) + (if !Active(Row(t, k)) && Active(Row(ApplyPass(t, p), k)) then 1 else 0)
               + if p.gid == k.gid && Exits(t, p, k.uid) && !p.leaveOk(k.uid) then 1 else 0
  {
  }

  /** Exit conservation for every key, every sequence of passes and every pattern of failed writes. */
  lemma {:induction false} ExitConservation(t: Table, ps: seq<Pass>, k: Key)
    ensures Reports(t, ps, k) + Here(ApplyAll(t, ps), k)
            == Here(t, k) + Activations(t, ps, k) + LostStamps(t, ps, k)
  {
    if ps != [] {
      var n := |ps| - 1;
      ExitConservation(t, ps[..n], k);
      PassBalance(ApplyAll(t, ps[..n]), ps[n], k);
    }
  }

  /** From an empty table exits and activations balance exactly when no departure stamp was lost. */
  lemma ExitsBalance(ps: seq<Pass>, k: Key)
    ensures Reports(map[], ps, k) + Here(ApplyAll(map[], ps), k) == Activations(map[], ps, k)
            <==> LostStamps(map[], ps, k) == 0
  {
    ExitConservation(map[], ps, k);
  }
}
