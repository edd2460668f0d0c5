/** The functions of Go's strings package the parsers use, on sequences of any element. */
module GoStrings {
  predicate OccursAt<T(==)>(s: seq<T>, pat: seq<T>, p: nat) {
    p <= |s| && pat <= s[p..]
  }

  /** Where `pat` first occurs, or -1; FirstOccurrence says that it is the first. */
  function Index<T(==)>(s: seq<T>, pat: seq<T>): (i: int)
    ensures i == -1 || 0 <= i <= |s| - |pat|
  {
    if pat <= s then 0
    else if s == [] then -1
    else
      var i := Index(s[1..], pat);
      if i < 0 then -1 else i + 1
  }

  lemma {:induction false} IndexOccurs<T>(s: seq<T>, pat: seq<T>)
    requires Index(s, pat) >= 0
    ensures OccursAt(s, pat, Index(s, pat))
  {
    if !(pat <= s) {
      IndexOccurs(s[1..], pat);
      assert s[1..][Index(s[1..], pat)..] == s[Index(s, pat)..];
    }
  }

  lemma {:induction false} FirstOccurrence<T>(s: seq<T>, pat: seq<T>, p: nat)
    requires OccursAt(s, pat, p)
    ensures 0 <= Index(s, pat) <= p
  {
    if p == 0 {
      assert s[0..] == s;
    } else if !(pat <= s) {
      assert s[1..][p - 1..] == s[p..];
      FirstOccurrence(s[1..], pat, p - 1);
    }
  }

  predicate Contains<T(==)>(s: seq<T>, pat: seq<T>) {
    Index(s, pat) >= 0
  }

  function TrimPrefix<T(==)>(s: seq<T>, pat: seq<T>): seq<T> {
    if pat <= s then s[|pat|..] else s
  }

  /** Removes the first occurrence of `pat`. */
  function RemoveFirst<T(==)>(s: seq<T>, pat: seq<T>): seq<T> {
    var i := Index(s, pat);
    if i < 0 then s else s[..i] + s[i + |pat|..]
  }

  function Split<T(==)>(s: seq<T>, sep: seq<T>): (parts: seq<seq<T>>)
    requires sep != []
    ensures parts != []
    decreases |s|
  {
    var i := Index(s, sep);
    if i < 0 then [s] else [s[..i]] + Split(s[i + |sep|..], sep)
  }

  function Join<T>(parts: seq<seq<T>>, sep: seq<T>): seq<T> {
    if parts == [] then [] else if |parts| == 1 then parts[0] else parts[0] + sep + Join(parts[1..], sep)
  }

  /** A prefix ends at `k` when it ends where Split cuts, or at the end. */
  predicate Boundary<T(==)>(s: seq<T>, sep: seq<T>, k: nat)
    requires sep != []
    decreases |s|
  {
    var i := Index(s, sep);
    if i < 0 then k == |s| else k == i || (k >= i + |sep| && Boundary(s[i + |sep|..], sep, k - i - |sep|))
  }

  /** The first `n` parts joined again. */
  function Lead<T(==)>(s: seq<T>, sep: seq<T>, n: nat): seq<T>
    requires sep != [] && n <= |Split(s, sep)|
  {
    Join(Split(s, sep)[..n], sep)
  }

  lemma LeadOne<T>(s: seq<T>, sep: seq<T>)
    requires sep != []
    ensures Lead(s, sep, 1) == if Index(s, sep) < 0 then s else s[..Index(s, sep)]
  {
    assert Split(s, sep)[..1] == [Split(s, sep)[0]];
  }

  /** What is left of `s` after its first separator. */
  function Rest<T(==)>(s: seq<T>, sep: seq<T>): seq<T>
    requires sep != [] && Index(s, sep) >= 0
  {
    s[Index(s, sep) + |sep|..]
  }

  lemma JoinCons<T>(first: seq<T>, parts: seq<seq<T>>, sep: seq<T>)
    requires parts != []
    ensures Join([first] + parts, sep) == first + sep + Join(parts, sep)
  {
    assert ([first] + parts)[1..] == parts;
  }

  lemma LeadMore<T>(s: seq<T>, sep: seq<T>, n: nat)
    requires sep != [] && 1 < n <= |Split(s, sep)|
    ensures Index(s, sep) >= 0 && n - 1 <= |Split(Rest(s, sep), sep)| == |Split(s, sep)| - 1
    ensures Lead(s, sep, n) == s[..Index(s, sep)] + sep + Lead(Rest(s, sep), sep, n - 1)
  {
    var first, rest := s[..Index(s, sep)], Split(Rest(s, sep), sep);
    assert Split(s, sep) == [first] + rest;
    assert Split(s, sep)[..n] == [first] + rest[..n - 1];
    JoinCons(first, rest[..n - 1], sep);
  }

  lemma CutAtIndex<T>(s: seq<T>, pat: seq<T>)
    requires Contains(s, pat)
    ensures var i := Index(s, pat); s == s[..i] + pat + s[i + |pat|..]
  {
    IndexOccurs(s, pat);
    var i := Index(s, pat);
    assert s == s[..i] + s[i..] && s[i..] == pat + s[i..][|pat|..];
  }

  lemma PrefixAfter<T>(a: seq<T>, b: seq<T>, c: seq<T>)
    requires b <= c
    ensures a + b <= a + c
  {
  }

  /** Joining undoes splitting, part by part: a lead is a prefix, and all parts together are everything. */
  lemma {:induction false} LeadIsPrefix<T>(s: seq<T>, sep: seq<T>, n: nat)
    requires sep != [] && 1 <= n <= |Split(s, sep)|
    ensures Lead(s, sep, n) <= s
    ensures n == |Split(s, sep)| ==> Lead(s, sep, n) == s
    decreases n
  {
    if n == 1 {
      LeadOne(s, sep);
    } else {
      LeadMore(s, sep, n);
      LeadIsPrefix(Rest(s, sep), sep, n - 1);
      CutAtIndex(s, sep);
      PrefixAfter(s[..Index(s, sep)] + sep, Lead(Rest(s, sep), sep, n - 1), Rest(s, sep));
    }
  }

  lemma {:induction false} LeadEndsAtBoundary<T>(s: seq<T>, sep: seq<T>, n: nat)
    requires sep != [] && 1 <= n <= |Split(s, sep)|
    ensures Boundary(s, sep, |Lead(s, sep, n)|)
    decreases n
  {
    if n == 1 {
      LeadOne(s, sep);
    } else {
      LeadMore(s, sep, n);
      LeadEndsAtBoundary(Rest(s, sep), sep, n - 1);
    }
  }

  lemma {:induction false} LeadsGrow<T>(s: seq<T>, sep: seq<T>, n: nat)
    requires sep != [] && 1 <= n < |Split(s, sep)|
    ensures |Lead(s, sep, n)| < |Lead(s, sep, n + 1)|
    decreases n
  {
    LeadMore(s, sep, n + 1);
    if n == 1 {
      LeadOne(s, sep);
    } else {
      LeadMore(s, sep, n);
      LeadsGrow(Rest(s, sep), sep, n - 1);
    }
  }

  /** Every boundary is where some lead ends. */
  lemma {:induction false} BoundaryIsLead<T>(s: seq<T>, sep: seq<T>, k: nat) returns (n: nat)
    requires sep != [] && Boundary(s, sep, k)
    ensures 1 <= n <= |Split(s, sep)| && |Lead(s, sep, n)| == k
    decreases |s|
  {
    var i := Index(s, sep);
    if i < 0 || k == i {
      n := 1;
      LeadOne(s, sep);
    } else {
      var m := BoundaryIsLead(Rest(s, sep), sep, k - i - |sep|);
      n := m + 1;
      assert |Split(s, sep)| == 1 + |Split(Rest(s, sep), sep)|;
      LeadMore(s, sep, n);
    }
  }

  /** The first element of `pat` does not come back in it, so two occurrences never overlap. */
  predicate HeadOnce<T(==)>(pat: seq<T>) {
    pat != [] && pat[0] !in pat[1..]
  }

  lemma NoOverlap<T>(s: seq<T>, pat: seq<T>, p: nat, q: nat)
    requires HeadOnce(pat) && OccursAt(s, pat, p) && OccursAt(s, pat, q) && p < q
    ensures p + |pat| <= q
  {
    assert s[q] == s[q..][0] == pat[0];
    assert forall j :: 0 < j < |pat| ==> pat[j] == pat[1..][j - 1] && pat[j] == s[p..][j] == s[p + j];
  }

  /** Every occurrence is the first one or lies in what is left after it. */
  lemma OccurrenceFirstOrLater<T>(s: seq<T>, sep: seq<T>, k: nat)
    requires HeadOnce(sep) && Index(s, sep) >= 0
    ensures var i := Index(s, sep);
            OccursAt(s, sep, k) <==> k == i || (k >= i + |sep| && OccursAt(Rest(s, sep), sep, k - i - |sep|))
  {
    var i := Index(s, sep);
    IndexOccurs(s, sep);
    if i + |sep| <= k <= |s| {
      assert Rest(s, sep)[k - i - |sep|..] == s[k..];
    }
    if OccursAt(s, sep, k) && k != i {
      FirstOccurrence(s, sep, k);
      NoOverlap(s, sep, i, k);
    }
  }

  /** For such separators the boundaries are the occurrences and the end. */
  lemma {:induction false} BoundaryIsOccurrence<T>(s: seq<T>, sep: seq<T>, k: nat)
    requires HeadOnce(sep)
    ensures Boundary(s, sep, k) <==> k == |s| || OccursAt(s, sep, k)
    decreases |s|
  {
    var i := Index(s, sep);
    if i >= 0 {
      OccurrenceFirstOrLater(s, sep, k);
      if k >= i + |sep| {
        BoundaryIsOccurrence(Rest(s, sep), sep, k - i - |sep|);
      }
    } else if OccursAt(s, sep, k) {
      FirstOccurrence(s, sep, k);
    }
  }
}
