/** The name search of functions.go: the longest leading part of a 16-rune window that names a member. */
module Names {
  import opened Common
  import opened GoStrings
  import opened Utf8

  /**
   What the text handler asks about the members of a group: whom a name finds, the lasting id (None
   when it cannot be looked up), whether it is the bot, and the names it goes by.
   */
  datatype Directory<!T> = Directory(search: Bytes -> Option<T>, idOf: T -> Option<string>, isBot: T -> bool,
                                     displayName: T -> Bytes, nickName: T -> Bytes, formatEmoji: Bytes -> Bytes)

  /** Member names have at most this many characters. */
  const LIMIT := 16

  function Window(content: Bytes): Bytes {
    var rs := Decode(content);
    TrimSpace(if |rs| > LIMIT then EncodeAll(rs[..LIMIT]) else content)
  }

  function WindowRunes(rs: Runes): Runes {
    TrimRunes(Take(rs, LIMIT))
  }

  lemma WindowAgrees(rs: Runes)
    ensures Window(EncodeAll(rs)) == EncodeAll(WindowRunes(rs))
  {
    DecodeEncodeAll(rs);
    TrimSpaceAgrees(Take(rs, LIMIT));
  }

  /** The longest of the first `n` leads that `search` accepts. */
  function LongestLead<T>(w: Bytes, sep: Bytes, search: Bytes -> Option<T>, n: nat): (Bytes, Option<T>)
    requires sep != [] && n <= |Split(w, sep)|
  {
    if n == 0 then ([], None)
    else if search(Lead(w, sep, n)).Some? then (Lead(w, sep, n), search(Lead(w, sep, n)))
    else LongestLead(w, sep, search, n - 1)
  }

  function UserIn<T>(content: Bytes, sep: Bytes, search: Bytes -> Option<T>): (Bytes, Option<T>)
    requires sep != []
  {
    var w := Window(content);
    LongestLead(w, sep, search, |Split(w, sep)|)
  }

  method GetUserFromContent<T>(content: Bytes, separator: Bytes, search: Bytes -> Option<T>)
    returns (searchName: Bytes, target: Option<T>)
    requires separator != []
    ensures (searchName, target) == UserIn(content, separator, search)
  {
    var runeContent, window := Decode(content), content;
    if |runeContent| > 16 {
      window := TrimSpace(EncodeAll(runeContent[..16]));
    } else {
      window := TrimSpace(content);
    }
    assert window == Window(content);
    var parts := Split(window, separator);
    var i := |parts|;
    while i > 0
      invariant 0 <= i <= |parts|
      invariant LongestLead(window, separator, search, |parts|) == LongestLead(window, separator, search, i)
    {
      searchName := Join(parts[..i], separator);
      assert searchName == Lead(window, separator, i);
      var t := search(searchName);
      if t.Some? {
        return searchName, t;
      }
      i := i - 1;
    }
    return [], None;
  }

  /** `name` is the longest prefix of `w` that ends at a boundary and is accepted; without one it is empty. */
  ghost predicate IsLongest<T>(w: Bytes, sep: Bytes, search: Bytes -> Option<T>, name: Bytes, target: Option<T>)
    requires sep != []
  {
    match target
    case Some(t) =>
      && name <= w && Boundary(w, sep, |name|) && search(name) == Some(t)
      && forall k :: |name| < k <= |w| && Boundary(w, sep, k) ==> search(w[..k]).None?
    case None => name == [] && forall k :: 0 <= k <= |w| && Boundary(w, sep, k) ==> search(w[..k]).None?
  }

  lemma {:induction false} LeadsOrdered<T>(s: seq<T>, sep: seq<T>, m: nat, n: nat)
    requires sep != [] && 1 <= m < n <= |Split(s, sep)|
    ensures |Lead(s, sep, m)| < |Lead(s, sep, n)|
    decreases n
  {
    LeadsGrow(s, sep, n - 1);
    if m < n - 1 {
      LeadsOrdered(s, sep, m, n - 1);
    }
  }

  lemma {:induction false} LongestLeadFound<T>(w: Bytes, sep: Bytes, search: Bytes -> Option<T>, n: nat)
    returns (m: nat)
    requires sep != [] && n <= |Split(w, sep)|
    ensures m <= n && forall j :: m < j <= n ==> search(Lead(w, sep, j)).None?
    ensures LongestLead(w, sep, search, n) == if m == 0 then ([], None) else (Lead(w, sep, m), search(Lead(w, sep, m)))
    ensures m > 0 ==> search(Lead(w, sep, m)).Some?
  {
    if n > 0 && search(Lead(w, sep, n)).None? {
      m := LongestLeadFound(w, sep, search, n - 1);
    } else {
      m := n;
    }
  }

  /** A boundary is the end of a lead; a longer lead has more parts. */
  lemma LeadAtBoundary(w: Bytes, sep: Bytes, k: nat, m: nat) returns (j: nat)
    requires sep != [] && k <= |w| && Boundary(w, sep, k) && m <= |Split(w, sep)|
    ensures 1 <= j <= |Split(w, sep)| && w[..k] == Lead(w, sep, j)
    ensures m > 0 && |Lead(w, sep, m)| < k ==> m < j
  {
    j := BoundaryIsLead(w, sep, k);
    LeadIsPrefix(w, sep, j);
    if j < m {
      LeadsOrdered(w, sep, j, m);
    }
  }

  /** The search returns the longest accepted boundary prefix of the trimmed window. */
  lemma UserIsLongest<T>(content: Bytes, sep: Bytes, search: Bytes -> Option<T>)
    requires sep != []
    ensures var (name, target) := UserIn(content, sep, search); IsLongest(Window(content), sep, search, name, target)
  {
    var w := Window(content);
    var m := LongestLeadFound(w, sep, search, |Split(w, sep)|);
    if m > 0 {
      LeadIsPrefix(w, sep, m);
      LeadEndsAtBoundary(w, sep, m);
    }
    forall k | 0 <= k <= |w| && Boundary(w, sep, k) && (m > 0 ==> |Lead(w, sep, m)| < k) ensures search(w[..k]).None? {
      var j := LeadAtBoundary(w, sep, k, m);
    }
  }

  /** There is only one such answer. */
  lemma LongestIsUnique<T>(w: Bytes, sep: Bytes, search: Bytes -> Option<T>, name: Bytes, target: Option<T>, k: nat)
    requires sep != [] && IsLongest(w, sep, search, name, target)
    requires k <= |w| && Boundary(w, sep, k) && search(w[..k]).Some?
    requires forall j :: 0 <= j <= |w| && j != k && Boundary(w, sep, j) ==> search(w[..j]).None?
    ensures name == w[..k] && target == search(w[..k])
  {
    assert w[..|name|] == name;
  }
}
