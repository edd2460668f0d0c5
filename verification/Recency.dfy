/**
 The cache of pkg/lru/lru.go on values: the entries, most recently touched first. The trace
 theorems compare whole runs with an independent reading of the trace itself.
 */
module Recency {
  import opened Common

  datatype Entry<K, V> = Entry(key: K, value: V)

  datatype Op<K, V> = Put(key: K, value: V) | Get(key: K)

  function Keys<K, V>(l: seq<Entry<K, V>>): (ks: seq<K>)
    ensures |ks| == |l| && forall i :: 0 <= i < |l| ==> ks[i] == l[i].key
  {
    seq(|l|, i requires 0 <= i < |l| => l[i].key)
  }

  /** The position of `k`, or the length when it is absent. */
  function Find<K(==)>(ks: seq<K>, k: K): (i: nat)
    ensures i <= |ks| && (i < |ks| ==> ks[i] == k) && k !in ks[..i]
    ensures k in ks <==> i < |ks|
  {
    if ks == [] then 0 else if ks[0] == k then 0 else 1 + Find(ks[1..], k)
  }

  function Drop<T>(s: seq<T>, i: nat): seq<T>
    requires i <= |s|
  {
    if i < |s| then s[..i] + s[i + 1..] else s
  }

  ghost predicate Distinct<T>(s: seq<T>) {
    forall i, j :: 0 <= i < j < |s| ==> s[i] != s[j]
  }

  /** Go accepts any capacity; a negative one keeps nothing, like zero. */
  function Limit(capacity: int): nat {
    if capacity < 0 then 0 else capacity
  }

  // ----- Operations -----

  function PutEntry<K(==), V>(l: seq<Entry<K, V>>, capacity: int, k: K, v: V): seq<Entry<K, V>> {
    var i := Find(Keys(l), k);
    if i < |l| then [Entry(k, v)] + Drop(l, i)
    else if |l| + 1 > capacity then ([Entry(k, v)] + l)[..|l|]
    else [Entry(k, v)] + l
  }

  function GetEntry<K(==), V>(l: seq<Entry<K, V>>, k: K): seq<Entry<K, V>> {
    var i := Find(Keys(l), k);
    if i < |l| then [l[i]] + Drop(l, i) else l
  }

  function Apply<K(==), V>(l: seq<Entry<K, V>>, capacity: int, op: Op<K, V>): seq<Entry<K, V>> {
    match op
    case Put(k, v) => PutEntry(l, capacity, k, v)
    case Get(k) => GetEntry(l, k)
  }

  function Run<K(==), V>(capacity: int, ops: seq<Op<K, V>>): seq<Entry<K, V>> {
    if ops == [] then [] else Apply(Run(capacity, ops[..|ops| - 1]), capacity, ops[|ops| - 1])
  }

  ghost predicate Fits<K, V>(l: seq<Entry<K, V>>, capacity: int) {
    Distinct(Keys(l)) && |l| <= Limit(capacity)
  }

  lemma DistinctMoved<K>(ks: seq<K>, i: nat)
    requires Distinct(ks) && i < |ks|
    ensures Distinct([ks[i]] + Drop(ks, i))
  {
    var m := [ks[i]] + Drop(ks, i);
    forall a, b | 0 <= a < b < |m| ensures m[a] != m[b] {
      assert m[b] == if b <= i then ks[b - 1] else ks[b];
      assert m[a] == if a == 0 then ks[i] else if a <= i then ks[a - 1] else ks[a];
    }
  }

  lemma KeysMoved<K, V>(l: seq<Entry<K, V>>, e: Entry<K, V>, i: nat)
    requires i < |l|
    ensures Keys([e] + Drop(l, i)) == [e.key] + Drop(Keys(l), i)
  {
  }

  lemma KeysNew<K, V>(l: seq<Entry<K, V>>, e: Entry<K, V>)
    ensures Keys([e] + l) == [e.key] + Keys(l)
    ensures Keys(([e] + l)[..|l|]) == ([e.key] + Keys(l))[..|l|]
  {
  }

  lemma FitsMoved<K, V>(l: seq<Entry<K, V>>, e: Entry<K, V>, i: nat)
    requires Distinct(Keys(l)) && i < |l| && e.key == l[i].key
    ensures Distinct(Keys([e] + Drop(l, i)))
  {
    KeysMoved(l, e, i);
    DistinctMoved(Keys(l), i);
  }

  lemma FitsNew<K, V>(l: seq<Entry<K, V>>, e: Entry<K, V>, n: nat)
    requires Distinct(Keys(l)) && e.key !in Keys(l) && n <= |l| + 1
    ensures Distinct(Keys(([e] + l)[..n]))
  {
    var ks, ks' := Keys(l), Keys(([e] + l)[..n]);
    assert forall j :: 0 <= j < |ks'| ==> ks'[j] == if j == 0 then e.key else ks[j - 1];
  }

  lemma ApplyFits<K, V>(l: seq<Entry<K, V>>, capacity: int, op: Op<K, V>)
    requires Fits(l, capacity)
    ensures Fits(Apply(l, capacity, op), capacity)
  {
    var i := Find(Keys(l), op.key);
    if i < |l| {
      FitsMoved(l, if op.Put? then Entry(op.key, op.value) else l[i], i);
    } else if op.Put? {
      var e := Entry(op.key, op.value);
      FitsNew(l, e, |l|);
      FitsNew(l, e, |l| + 1);
      assert ([e] + l)[..|l| + 1] == [e] + l;
    }
  }

  // ----- The reference: the keys a trace touches, newest first -----

  /** A put always touches its key, a get only when it finds it. */
  function Touches<K(==), V>(capacity: int, ops: seq<Op<K, V>>): seq<K> {
    if ops == [] then [] else
      var op, earlier := ops[|ops| - 1], ops[..|ops| - 1];
      if op.Put? || op.key in Keys(Run(capacity, earlier)) then [op.key] + Touches(capacity, earlier)
      else Touches(capacity, earlier)
  }

  /** The distinct elements in order of first occurrence. */
  function FirstOccurrences<K(==)>(ts: seq<K>): seq<K> {
    if ts == [] then [] else
      var last, rest := ts[|ts| - 1], ts[..|ts| - 1];
      if last in rest then FirstOccurrences(rest) else FirstOccurrences(rest) + [last]
  }

  /** The value of the latest put of `k`. */
  function LatestPut<K(==), V>(ops: seq<Op<K, V>>, k: K): Option<V> {
    if ops == [] then None else
      var op := ops[|ops| - 1];
      if op.Put? && op.key == k then Some(op.value) else LatestPut(ops[..|ops| - 1], k)
  }

  function MoveToFront<K(==)>(ks: seq<K>, k: K): seq<K> {
    [k] + Drop(ks, Find(ks, k))
  }

  lemma {:induction false} FirstOccurrencesFacts<K>(ts: seq<K>)
    ensures Distinct(FirstOccurrences(ts)) && forall k :: k in FirstOccurrences(ts) <==> k in ts
  {
    if ts != [] {
      FirstOccurrencesFacts(ts[..|ts| - 1]);
      assert ts == ts[..|ts| - 1] + [ts[|ts| - 1]];
    }
  }

  lemma FindOf<K>(ks: seq<K>, i: nat)
    requires Distinct(ks) && i < |ks|
    ensures Find(ks, ks[i]) == i
  {
    assert ks[i] in ks;
  }

  lemma MoveAt<K>(ks: seq<K>, i: nat)
    requires Distinct(ks) && i < |ks|
    ensures MoveToFront(ks, ks[i]) == [ks[i]] + (ks[..i] + ks[i + 1..])
  {
    FindOf(ks, i);
  }

  lemma MoveAbsent<K>(ks: seq<K>, k: K)
    requires k !in ks
    ensures MoveToFront(ks, k) == [k] + ks
  {
  }

  lemma DistinctInit<K>(ks: seq<K>, last: K)
    requires Distinct(ks + [last])
    ensures Distinct(ks)
  {
    assert forall j :: 0 <= j < |ks| ==> (ks + [last])[j] == ks[j];
  }

  lemma MoveBeforeLast<K>(ks: seq<K>, last: K, k: K)
    requires Distinct(ks + [last]) && k != last
    ensures MoveToFront(ks + [last], k) == MoveToFront(ks, k) + [last]
  {
    var all := ks + [last];
    if k in ks {
      var i := Find(ks, k);
      DistinctInit(ks, last);
      MoveAt(all, i);
      MoveAt(ks, i);
      assert all[i + 1..] == ks[i + 1..] + [last] && all[..i] == ks[..i];
    } else {
      MoveAbsent(ks, k);
      MoveAbsent(all, k);
    }
  }

  lemma MoveLast<K>(ks: seq<K>, k: K)
    requires Distinct(ks + [k]) && k !in ks
    ensures MoveToFront(ks + [k], k) == MoveToFront(ks, k)
  {
    var all := ks + [k];
    assert all[|ks|] == k && all[..|ks|] == ks && all[|ks| + 1..] == [];
    MoveAt(all, |ks|);
    MoveAbsent(ks, k);
  }

  lemma {:induction false} TouchMovesToFront<K>(ts: seq<K>, k: K)
    ensures FirstOccurrences([k] + ts) == MoveToFront(FirstOccurrences(ts), k)
  {
    if ts == [] {
      assert ([k] + ts)[..0] == [];
    } else {
      var last, rest := ts[|ts| - 1], ts[..|ts| - 1];
      var kts, krest := [k] + ts, [k] + rest;
      assert kts[..|kts| - 1] == krest && kts[|kts| - 1] == last;
      assert last in krest <==> last == k || last in rest;
      TouchMovesToFront(rest, k);
      FirstOccurrencesFacts(rest);
      FirstOccurrencesFacts(ts);
      if last !in rest {
        if last == k {
          MoveLast(FirstOccurrences(rest), k);
        } else {
          MoveBeforeLast(FirstOccurrences(rest), last, k);
        }
      }
    }
  }

  lemma TakeOfMoved<K>(d: seq<K>, n: nat, i: nat)
    requires i < n < |d|
    ensures ([d[i]] + (d[..i] + d[i + 1..]))[..n] == [d[i]] + (d[..n][..i] + d[..n][i + 1..])
  {
  }

  lemma MoveInPrefix<K>(d: seq<K>, n: nat, k: K)
    requires Distinct(d) && k in Take(d, n)
    ensures MoveToFront(Take(d, n), k) == Take(MoveToFront(d, k), n)
  {
    if |d| > n {
      var i := Find(d[..n], k);
      assert Distinct(d[..n]) && d[..n][i] == d[i] == k;
      MoveAt(d[..n], i);
      MoveAt(d, i);
      TakeOfMoved(d, n, i);
    }
  }

  lemma MoveOutsidePrefix<K>(d: seq<K>, n: nat, k: K)
    requires Distinct(d) && k !in Take(d, n)
    ensures Take([k] + Take(d, n), n) == Take(MoveToFront(d, k), n)
  {
    assert forall i :: 0 <= i < |Take(d, n)| ==> Take(d, n)[i] == d[i];
  }

  lemma KeysOfApply<K, V>(l: seq<Entry<K, V>>, capacity: int, op: Op<K, V>)
    requires Fits(l, capacity)
    ensures Keys(Apply(l, capacity, op))
            == if op.key in Keys(l) then MoveToFront(Keys(l), op.key)
               else if op.Put? then Take([op.key] + Keys(l), Limit(capacity))
               else Keys(l)
  {
    var i := Find(Keys(l), op.key);
    if i < |l| {
      KeysMoved(l, if op.Put? then Entry(op.key, op.value) else l[i], i);
    } else if op.Put? {
      KeysNew(l, Entry(op.key, op.value));
    }
  }

  /**
   Refinement of the trace: after any trace on any capacity the list is the first `capacity` distinct
   keys of the touches, newest first.
   */
  lemma {:induction false} KeysAreMostRecent<K, V>(capacity: int, ops: seq<Op<K, V>>)
    ensures Fits(Run(capacity, ops), capacity)
    ensures Keys(Run(capacity, ops)) == Take(FirstOccurrences(Touches(capacity, ops)), Limit(capacity))
  {
    if ops != [] {
      var op, earlier := ops[|ops| - 1], ops[..|ops| - 1];
      KeysAreMostRecent(capacity, earlier);
      var l, ts := Run(capacity, earlier), Touches(capacity, earlier);
      ApplyFits(l, capacity, op);
      KeysOfApply(l, capacity, op);
      FirstOccurrencesFacts(ts);
      TouchMovesToFront(ts, op.key);
      if op.key in Keys(l) {
        MoveInPrefix(FirstOccurrences(ts), Limit(capacity), op.key);
      } else {
        MoveOutsidePrefix(FirstOccurrences(ts), Limit(capacity), op.key);
      }
    }
  }

  lemma DroppedFrom<T>(s: seq<T>, i: nat, x: T) returns (j: nat)
    requires i < |s| && x in Drop(s, i)
    ensures j < |s| && j != i && s[j] == x
  {
    j :| j < |Drop(s, i)| && Drop(s, i)[j] == x;
    if j >= i {
      j := j + 1;
    }
  }

  lemma ApplyKeepsValues<K, V>(l: seq<Entry<K, V>>, capacity: int, op: Op<K, V>, e: Entry<K, V>)
    requires Fits(l, capacity) && e in Apply(l, capacity, op)
    ensures if op.Put? && e.key == op.key then e.value == op.value else e in l
  {
    var i := Find(Keys(l), op.key);
    if op.Put? && i < |l| && e in Drop(l, i) {
      var j := DroppedFrom(l, i, e);
      assert Keys(l)[j] != Keys(l)[i];
    }
  }

  /** Every value kept is that of the latest put of its key. */
  lemma {:induction false} ValuesAreLatest<K, V>(capacity: int, ops: seq<Op<K, V>>)
    ensures forall e :: e in Run(capacity, ops) ==> LatestPut(ops, e.key) == Some(e.value)
  {
    if ops != [] {
      var op, earlier := ops[|ops| - 1], ops[..|ops| - 1];
      ValuesAreLatest(capacity, earlier);
      KeysAreMostRecent(capacity, earlier);
      forall e | e in Run(capacity, ops) ensures LatestPut(ops, e.key) == Some(e.value) {
        ApplyKeepsValues(Run(capacity, earlier), capacity, op, e);
      }
    }
  }
}
