/**
 Two caches of different capacity fed the same trace: the smaller always holds a subsequence of the
 larger, although some gets hit only the larger one and reorder it alone.
 */
module Inclusion {
  import opened Recency

  type Entries<K, V> = seq<Entry<K, V>>

  function KeySet<K(==), V>(l: Entries<K, V>): set<K> {
    set i | 0 <= i < |l| :: l[i].key
  }

  /** The entries of `l` whose keys are in `ks`, in the order of `l`. */
  function Restrict<K(==), V>(l: Entries<K, V>, ks: set<K>): Entries<K, V> {
    if l == [] then []
    else if l[0].key in ks then [l[0]] + Restrict(l[1..], ks)
    else Restrict(l[1..], ks)
  }

  /** `s` is `l` with some entries left out. */
  ghost predicate Subsequence<K, V>(s: Entries<K, V>, l: Entries<K, V>) {
    KeySet(s) <= KeySet(l) && s == Restrict(l, KeySet(s))
  }

  lemma ConsKeys<K, V>(e: Entry<K, V>, l: Entries<K, V>)
    ensures KeySet([e] + l) == {e.key} + KeySet(l)
  {
    forall k | k in KeySet(l) ensures k in KeySet([e] + l) {
      var i :| 0 <= i < |l| && l[i].key == k;
      assert ([e] + l)[i + 1].key == k;
    }
    assert ([e] + l)[0] == e;
  }

  lemma ConsRestrict<K, V>(e: Entry<K, V>, l: Entries<K, V>, ks: set<K>)
    ensures Restrict([e] + l, ks) == if e.key in ks then [e] + Restrict(l, ks) else Restrict(l, ks)
  {
    assert ([e] + l)[1..] == l;
  }

  lemma {:induction false} RestrictTwice<K, V>(l: Entries<K, V>, a: set<K>, b: set<K>)
    ensures Restrict(Restrict(l, a), b) == Restrict(l, a * b)
  {
    if l != [] {
      RestrictTwice(l[1..], a, b);
      if l[0].key in a {
        ConsRestrict(l[0], Restrict(l[1..], a), b);
      }
    }
  }

  /** Only the keys that occur matter. */
  lemma {:induction false} RestrictSame<K, V>(l: Entries<K, V>, a: set<K>, b: set<K>)
    requires a * KeySet(l) == b * KeySet(l)
    ensures Restrict(l, a) == Restrict(l, b)
  {
    if l != [] {
      assert l == [l[0]] + l[1..];
      ConsKeys(l[0], l[1..]);
      forall k | k in KeySet(l[1..]) ensures k in a <==> k in b {
        assert k in a * KeySet(l) <==> k in b * KeySet(l);
      }
      assert l[0].key in a * KeySet(l) <==> l[0].key in b * KeySet(l);
      RestrictSame(l[1..], a, b);
    }
  }

  lemma {:induction false} RestrictAll<K, V>(l: Entries<K, V>, ks: set<K>)
    requires KeySet(l) <= ks
    ensures Restrict(l, ks) == l
  {
    if l != [] {
      assert l == [l[0]] + l[1..];
      ConsKeys(l[0], l[1..]);
      RestrictAll(l[1..], ks);
    }
  }

  lemma {:induction false} RestrictKeys<K, V>(l: Entries<K, V>, ks: set<K>)
    ensures KeySet(Restrict(l, ks)) == KeySet(l) * ks
  {
    if l != [] {
      assert l == [l[0]] + l[1..];
      ConsKeys(l[0], l[1..]);
      RestrictKeys(l[1..], ks);
      if l[0].key in ks {
        ConsKeys(l[0], Restrict(l[1..], ks));
      }
    }
  }

  lemma {:induction false} RestrictAppend<K, V>(l: Entries<K, V>, m: Entries<K, V>, ks: set<K>)
    ensures Restrict(l + m, ks) == Restrict(l, ks) + Restrict(m, ks)
  {
    if l == [] {
      assert l + m == m;
    } else {
      assert (l + m)[1..] == l[1..] + m;
      RestrictAppend(l[1..], m, ks);
    }
  }

  lemma DistinctTail<K, V>(l: Entries<K, V>)
    requires Distinct(Keys(l)) && l != []
    ensures Distinct(Keys(l[1..])) && KeySet(l) == {l[0].key} + KeySet(l[1..]) && l[0].key !in KeySet(l[1..])
  {
    assert l == [l[0]] + l[1..];
    ConsKeys(l[0], l[1..]);
    forall i | 0 <= i < |l| - 1 ensures Keys(l[1..])[i] == Keys(l)[i + 1] && l[1..][i].key != l[0].key {
      assert Keys(l)[0] != Keys(l)[i + 1];
    }
  }

  lemma DropOfCons<T>(s: seq<T>, i: nat)
    requires 0 < i < |s|
    ensures Drop(s, i) == [s[0]] + Drop(s[1..], i - 1)
  {
  }

  /** With distinct keys, dropping one entry is restricting to the other keys. */
  lemma {:induction false} DropIsRestrict<K, V>(l: Entries<K, V>, i: nat)
    requires Distinct(Keys(l)) && i < |l|
    ensures Drop(l, i) == Restrict(l, KeySet(l) - {l[i].key})
  {
    DistinctTail(l);
    if i == 0 {
      RestrictAll(l[1..], KeySet(l) - {l[0].key});
    } else {
      var k, tail := l[i].key, l[1..];
      DropIsRestrict(tail, i - 1);
      DropOfCons(l, i);
      assert Keys(l)[0] != Keys(l)[i];
      assert (KeySet(tail) - {k}) * KeySet(tail) == (KeySet(l) - {k}) * KeySet(tail);
      RestrictSame(tail, KeySet(tail) - {k}, KeySet(l) - {k});
    }
  }

  lemma {:induction false} KeyCount<K, V>(l: Entries<K, V>)
    requires Distinct(Keys(l))
    ensures |KeySet(l)| == |l|
  {
    if l != [] {
      DistinctTail(l);
      KeyCount(l[1..]);
    }
  }

  lemma {:induction false} LastKept<K, V>(l: Entries<K, V>, ks: set<K>)
    requires l != [] && l[|l| - 1].key in ks
    ensures var r := Restrict(l, ks); r != [] && r[|r| - 1] == l[|l| - 1]
  {
    if |l| > 1 {
      LastKept(l[1..], ks);
    }
  }

  // ----- One step -----

  /** The smaller list is a subsequence, and as long as it has room it has every key the larger has. */
  ghost predicate Included<K, V>(s: Entries<K, V>, n: int, l: Entries<K, V>, m: int) {
    && Fits(s, n) && Fits(l, m) && Subsequence(s, l)
    && (|s| < Limit(n) ==> KeySet(s) == KeySet(l))
  }

  lemma KeySetIn<K, V>(l: Entries<K, V>, k: K)
    ensures k in KeySet(l) <==> k in Keys(l)
  {
    if k in KeySet(l) {
      var i :| 0 <= i < |l| && l[i].key == k;
      assert Keys(l)[i] == k;
    }
  }

  /** Moving an entry to the front of both lists keeps the subsequence. */
  lemma FrontOfBoth<K, V>(s: Entries<K, V>, l: Entries<K, V>, e: Entry<K, V>)
    requires Subsequence(s, l)
    ensures Subsequence([e] + Restrict(s, KeySet(s) - {e.key}), [e] + Restrict(l, KeySet(l) - {e.key}))
  {
    var a, b, k := KeySet(s), KeySet(l), {e.key};
    var s', l' := Restrict(s, a - k), Restrict(l, b - k);
    RestrictKeys(s, a - k);
    RestrictKeys(l, b - k);
    ConsKeys(e, s');
    ConsKeys(e, l');
    var a' := KeySet([e] + s');
    ConsRestrict(e, l', a');
    RestrictTwice(l, b - k, a');
    RestrictTwice(l, a, a - k);
    assert (b - k) * a' == a * (a - k);
  }

  /** Moving an entry only the larger list has to its front keeps the subsequence. */
  lemma FrontOfLarger<K, V>(s: Entries<K, V>, l: Entries<K, V>, e: Entry<K, V>)
    requires Subsequence(s, l) && e.key !in KeySet(s)
    ensures Subsequence(s, [e] + Restrict(l, KeySet(l) - {e.key}))
    ensures e.key in KeySet(l) ==> KeySet([e] + Restrict(l, KeySet(l) - {e.key})) == KeySet(l)
  {
    var a, b, k := KeySet(s), KeySet(l), {e.key};
    var l' := Restrict(l, b - k);
    RestrictKeys(l, b - k);
    ConsKeys(e, l');
    ConsRestrict(e, l', a);
    RestrictTwice(l, b - k, a);
    assert (b - k) * a == a;
  }

  /** Dropping the last entry of the smaller list, of both, or an entry of the larger the smaller lacks. */
  lemma DropLastKeeps<K, V>(s: Entries<K, V>, l: Entries<K, V>)
    requires Subsequence(s, l) && Distinct(Keys(s)) && Distinct(Keys(l)) && s != [] && l != []
    ensures Subsequence(s[..|s| - 1], l) && Subsequence(s[..|s| - 1], l[..|l| - 1])
  {
    var a, b, i, j := KeySet(s), KeySet(l), |s| - 1, |l| - 1;
    var x, y := {s[i].key}, {l[j].key};
    DropIsRestrict(s, i);
    DropIsRestrict(l, j);
    assert s[..i] == Drop(s, i) && l[..j] == Drop(l, j);
    RestrictKeys(s, a - x);
    RestrictKeys(l, b - y);
    var a' := KeySet(s[..i]);
    assert a' == a - x;
    RestrictTwice(l, a, a - x);
    assert a * (a - x) == a';
    RestrictTwice(l, b - y, a');
    if l[j].key in a {
      LastKept(l, a);
    }
    assert (b - y) * a' == a';
  }

  lemma PutKnown<K, V>(l: Entries<K, V>, capacity: int, k: K, v: V)
    requires Fits(l, capacity) && k in KeySet(l)
    ensures PutEntry(l, capacity, k, v) == [Entry(k, v)] + Restrict(l, KeySet(l) - {k})
    ensures KeySet(PutEntry(l, capacity, k, v)) == KeySet(l)
  {
    KeySetIn(l, k);
    DropIsRestrict(l, Find(Keys(l), k));
    RestrictKeys(l, KeySet(l) - {k});
    ConsKeys(Entry(k, v), Restrict(l, KeySet(l) - {k}));
  }

  lemma PutNew<K, V>(l: Entries<K, V>, capacity: int, k: K, v: V)
    requires Fits(l, capacity) && k !in KeySet(l)
    ensures Restrict(l, KeySet(l) - {k}) == l
    ensures PutEntry(l, capacity, k, v)
            == if |l| == Limit(capacity) then ([Entry(k, v)] + l)[..|l|] else [Entry(k, v)] + l
  {
    KeySetIn(l, k);
    RestrictAll(l, KeySet(l) - {k});
  }

  lemma FreshInFront<K, V>(l: Entries<K, V>, e: Entry<K, V>)
    requires Distinct(Keys(l)) && e.key !in KeySet(l)
    ensures Distinct(Keys([e] + l)) && |KeySet(l)| == |l|
  {
    KeySetIn(l, e.key);
    KeyCount(l);
    assert Keys([e] + l) == [e.key] + Keys(l);
  }

  /** A key new to the smaller list: both lists, or the smaller alone, may have to drop their last entry. */
  lemma PutFresh<K, V>(s: Entries<K, V>, n: int, l: Entries<K, V>, m: int, k: K, v: V)
    requires Included(s, n, l, m) && n <= m && k !in KeySet(s)
    ensures Subsequence(PutEntry(s, n, k, v), PutEntry(l, m, k, v))
  {
    var e := Entry(k, v);
    FrontOfBoth(s, l, e);
    PutNew(s, n, k, v);
    FreshInFront(s, e);
    if k in KeySet(l) {
      PutKnown(l, m, k, v);
      KeyCount(l);
      ApplyFits(l, m, Put(k, v));
      DropLastKeeps([e] + s, PutEntry(l, m, k, v));
    } else {
      PutNew(l, m, k, v);
      FreshInFront(l, e);
      DropLastKeeps([e] + s, [e] + l);
    }
  }

  lemma PutKeepsIncluded<K, V>(s: Entries<K, V>, n: int, l: Entries<K, V>, m: int, k: K, v: V)
    requires Included(s, n, l, m) && n <= m
    ensures Included(PutEntry(s, n, k, v), n, PutEntry(l, m, k, v), m)
  {
    ApplyFits(s, n, Put(k, v));
    ApplyFits(l, m, Put(k, v));
    if k in KeySet(s) {
      FrontOfBoth(s, l, Entry(k, v));
      PutKnown(s, n, k, v);
      PutKnown(l, m, k, v);
    } else {
      PutFresh(s, n, l, m, k, v);
      PutNew(s, n, k, v);
      KeyCount(s);
      KeyCount(l);
      if |s| < Limit(n) {
        PutNew(l, m, k, v);
        ConsKeys(Entry(k, v), s);
        ConsKeys(Entry(k, v), l);
      }
    }
  }

  lemma GetKnown<K, V>(l: Entries<K, V>, k: K) returns (e: Entry<K, V>)
    requires Distinct(Keys(l)) && k in KeySet(l)
    ensures e in l && e.key == k && GetEntry(l, k) == [e] + Restrict(l, KeySet(l) - {k})
    ensures KeySet(GetEntry(l, k)) == KeySet(l)
  {
    KeySetIn(l, k);
    var i := Find(Keys(l), k);
    e := l[i];
    DropIsRestrict(l, i);
    RestrictKeys(l, KeySet(l) - {k});
    ConsKeys(e, Restrict(l, KeySet(l) - {k}));
  }

  lemma {:induction false} RestrictIn<K, V>(l: Entries<K, V>, ks: set<K>, e: Entry<K, V>)
    requires e in Restrict(l, ks)
    ensures e in l
  {
    if l[0].key !in ks || e != l[0] {
      RestrictIn(l[1..], ks, e);
    }
  }

  lemma GetKeepsIncluded<K, V>(s: Entries<K, V>, n: int, l: Entries<K, V>, m: int, k: K)
    requires Included(s, n, l, m)
    ensures Included(GetEntry(s, k), n, GetEntry(l, k), m)
  {
    ApplyFits(s, n, Get(k));
    ApplyFits(l, m, Get(k));
    KeySetIn(s, k);
    KeySetIn(l, k);
    if k in KeySet(s) {
      var e := GetKnown(s, k);
      var e' := GetKnown(l, k);
      RestrictIn(l, KeySet(s), e);
      assert e == e' by {
        var i, j :| 0 <= i < |l| && l[i] == e && 0 <= j < |l| && l[j] == e';
        assert Keys(l)[i] == Keys(l)[j];
      }
      FrontOfBoth(s, l, e);
    } else if k in KeySet(l) {
      var e := GetKnown(l, k);
      FrontOfLarger(s, l, e);
    }
  }

  /** After any trace the smaller cache is an order-preserving subsequence of the larger, values included. */
  lemma {:induction false} SmallerIsSubsequence<K, V>(n: int, m: int, ops: seq<Op<K, V>>)
    requires n <= m
    ensures Subsequence(Run(n, ops), Run(m, ops))
    ensures Included(Run(n, ops), n, Run(m, ops), m)
  {
    if ops != [] {
      var op, earlier := ops[|ops| - 1], ops[..|ops| - 1];
      SmallerIsSubsequence(n, m, earlier);
      match op
      case Put(k, v) => PutKeepsIncluded(Run(n, earlier), n, Run(m, earlier), m, k, v);
      case Get(k) => GetKeepsIncluded(Run(n, earlier), n, Run(m, earlier), m, k);
    }
  }
}
