/** The mention part of the text handler in hub.go: byte searches, rune offsets. */
module Mentions {
  import opened Common
  import opened GoStrings
  import opened Utf8
  import opened Names
  import opened QuoteRoundTrip

  const AT: Rune := 0x40
  const BLANK: Rune := 0x20
  /** The mark WeChat puts after a mentioned name. */
  const MARK: Rune := 0x2005

  function Bytes1(r: Rune): Bytes {
    EncodeAll([r])
  }

  datatype At = At(uid: string, name: Bytes, bot: bool, offset: int, length: nat)

  datatype Mentioned = Mentioned(content: Bytes, at: Option<At>)

  /** The flags searched for, in this order. */
  function Flags(atName: Bytes): seq<Bytes> {
    [Bytes1(AT) + atName + Bytes1(BLANK), Bytes1(AT) + atName]
  }

  /** Rune offset and length of the first flag found; -1 and 0 when none is. */
  function Locate(msg: Bytes, flags: seq<Bytes>): (int, nat) {
    if flags == [] then (-1, 0) else
      var i := Index(msg, flags[0]);
      if i >= 0 then (|Decode(msg[..i])|, |Decode(flags[0])|) else Locate(msg, flags[1..])
  }

  method LocateMention(msg: Bytes, atName: Bytes) returns (offset: int, length: nat)
    ensures (offset, length) == Locate(msg, Flags(atName))
  {
    offset, length := -1, 0;
    var flags := [Bytes1(AT) + atName + Bytes1(BLANK), Bytes1(AT) + atName];
    for k := 0 to |flags|
      invariant offset == -1 && length == 0
      invariant Locate(msg, flags) == Locate(msg, flags[k..])
    {
      offset := Index(msg, flags[k]);
      assert flags[k..][1..] == flags[k + 1..];
      if offset != -1 {
        offset := |Decode(msg[..offset])|;
        length := |Decode(flags[k])|;
        return;
      }
    }
  }

  lemma MarkIsNotAt(tail: Bytes)
    requires Bytes1(AT) <= tail
    ensures |tail| >= 1 && Index(tail, Bytes1(MARK)) != 0
  {
    EncodeOne(AT);
    EncodeOne(MARK);
    assert tail[0..] == tail;
    if Contains(tail, Bytes1(MARK)) {
      IndexOccurs(tail, Bytes1(MARK));
    }
  }

  /** The name after an @: up to the mark if there is one, else the longest one found. */
  function NameAfterAt<T>(tail: Bytes, search: Bytes -> Option<T>): (Bytes, Option<T>)
    requires Bytes1(AT) <= tail
  {
    MarkIsNotAt(tail);
    var u := Index(tail, Bytes1(MARK));
    if u >= 0 then
      var name := TrimSpace(tail[1..u]);
      (name, search(name))
    else UserIn(tail[1..], Bytes1(BLANK), search)
  }

  /** Who is mentioned when the message is not for the bot. */
  function Addressee<T>(msg: Bytes, search: Bytes -> Option<T>): (Bytes, Option<T>) {
    if !Contains(msg, Bytes1(AT)) then ([], None) else
      IndexOccurs(msg, Bytes1(AT));
      NameAfterAt(msg[Index(msg, Bytes1(AT))..], search)
  }

  function WithoutMark(msg: Bytes): Bytes {
    RemoveFirst(msg, Bytes1(MARK))
  }

  function ShownName<T>(dir: Directory<T>, user: T): Bytes {
    dir.formatEmoji(if dir.displayName(user) != [] then dir.displayName(user) else dir.nickName(user))
  }

  /** The mention of a member, unless its id cannot be looked up. */
  function AtOf<T>(dir: Directory<T>, user: T, name: Bytes, span: (int, nat)): Option<At> {
    match dir.idOf(user)
    case None => None
    case Some(id) => Some(At(id, name, dir.isBot(user), span.0, span.1))
  }

  /** `self` is set when the message is for the bot: the member found under its user name, if any. */
  function ParseMention<T>(msg: Bytes, self: Option<Option<T>>, dir: Directory<T>): Mentioned {
    var (name, user) :=
      match self
      case Some(Some(bot)) => (ShownName(dir, bot), Some(bot))
      case Some(None) => ([], None)
      case None => Addressee(msg, dir.search);
    if user.Some? && name != [] then
      Mentioned(WithoutMark(msg), AtOf(dir, user.value, name, Locate(WithoutMark(msg), Flags(name))))
    else Mentioned(msg, None)
  }

  method FindAddressee<T>(msg: Bytes, search: Bytes -> Option<T>) returns (atName: Bytes, receiver: Option<T>)
    ensures (atName, receiver) == Addressee(msg, search)
  {
    if !Contains(msg, Bytes1(AT)) {
      return [], None;
    }
    IndexOccurs(msg, Bytes1(AT));
    var atPos := Index(msg, Bytes1(AT));
    var tail := msg[atPos..];
    MarkIsNotAt(tail);
    var u2005Pos := Index(tail, Bytes1(MARK));
    if u2005Pos >= 0 {
      atName := TrimSpace(tail[1..u2005Pos]);
      receiver := search(atName);
    } else {
      atName, receiver := GetUserFromContent(tail[1..], Bytes1(BLANK), search);
    }
  }

  method FindMention<T>(msg: Bytes, self: Option<Option<T>>, dir: Directory<T>) returns (r: Mentioned)
    ensures r == ParseMention(msg, self, dir)
  {
    var msgContent, atName, receiver: Option<T> := msg, [], None;
    if self.Some? {
      receiver := self.value;
      if receiver.Some? {
        var displayName := dir.displayName(receiver.value);
        if displayName == [] {
          displayName := dir.nickName(receiver.value);
        }
        atName := dir.formatEmoji(displayName);
      }
    } else {
      atName, receiver := FindAddressee(msgContent, dir.search);
    }
    var at: Option<At> := None;
    if receiver.Some? && atName != [] {
      if Contains(msgContent, Bytes1(MARK)) {
        msgContent := RemoveFirst(msgContent, Bytes1(MARK));
      }
      var offset, length := LocateMention(msgContent, atName);
      var id := dir.idOf(receiver.value);
      if id.Some? {
        at := Some(At(id.value, atName, dir.isBot(receiver.value), offset, length));
      }
    }
    return Mentioned(msgContent, at);
  }

  // ----- Spans in code points -----

  function LongFlag(name: Runes): Runes {
    [AT] + name + [BLANK]
  }

  function ShortFlag(name: Runes): Runes {
    [AT] + name
  }

  lemma FlagsAgree(name: Runes)
    ensures Flags(EncodeAll(name)) == [EncodeAll(LongFlag(name)), EncodeAll(ShortFlag(name))]
  {
    EncodeAllConcat([AT], name);
    EncodeAllConcat([AT] + name, [BLANK]);
  }

  /** The span of one flag in code points. */
  function Span(ts: Runes, flag: Runes): (int, nat) {
    (Index(ts, flag), |flag|)
  }

  lemma DecodePrefix(ts: Runes, k: nat)
    requires k <= |ts|
    ensures var n := |EncodeAll(ts[..k])|; n <= |EncodeAll(ts)| && Decode(EncodeAll(ts)[..n]) == ts[..k]
  {
    EncodeAllConcat(ts[..k], ts[k..]);
    assert ts == ts[..k] + ts[k..];
    assert EncodeAll(ts)[..|EncodeAll(ts[..k])|] == EncodeAll(ts[..k]);
    DecodeEncodeAll(ts[..k]);
  }

  lemma SpanAgrees(ts: Runes, flag: Runes)
    requires flag != []
    ensures var i := Index(EncodeAll(ts), EncodeAll(flag));
            if Contains(ts, flag) then
              i >= 0 && (|Decode(EncodeAll(ts)[..i])|, |Decode(EncodeAll(flag))|) == Span(ts, flag)
            else i < 0
  {
    ByteIndexIsRuneIndex(ts, flag);
    DecodeEncodeAll(flag);
    if Contains(ts, flag) {
      DecodePrefix(ts, Index(ts, flag));
    }
  }

  lemma LocateTwo(msg: Bytes, a: Bytes, b: Bytes)
    ensures Locate(msg, [a, b])
            == var i, j := Index(msg, a), Index(msg, b);
               if i >= 0 then (|Decode(msg[..i])|, |Decode(a)|)
               else if j >= 0 then (|Decode(msg[..j])|, |Decode(b)|)
               else (-1, 0)
  {
    var flags: seq<Bytes> := [a, b];
    assert flags[1..] == [b];
    assert Locate(msg, [b]) == var j := Index(msg, b); if j >= 0 then (|Decode(msg[..j])|, |Decode(b)|) else (-1, 0);
  }

  /** The span the handler stores, in code points. */
  function MentionOf(ts: Runes, name: Runes): (int, nat) {
    if Contains(ts, LongFlag(name)) then Span(ts, LongFlag(name))
    else if Contains(ts, ShortFlag(name)) then Span(ts, ShortFlag(name))
    else (-1, 0)
  }

  /**
   The stored offset and length are the code-point index and length of the first occurrence of the
   flag with a blank, else of the one without, else -1 and 0: byte search agrees with code points.
   */
  lemma MentionSpan(ts: Runes, name: Runes)
    ensures Locate(EncodeAll(ts), Flags(EncodeAll(name))) == MentionOf(ts, name)
  {
    var long, short := LongFlag(name), ShortFlag(name);
    FlagsAgree(name);
    LocateTwo(EncodeAll(ts), EncodeAll(long), EncodeAll(short));
    SpanAgrees(ts, long);
    SpanAgrees(ts, short);
  }

  /**
   The stored slice of code points is the flag, at its first occurrence; -1 and 0 are stored exactly
   when there is none.
   */
  lemma MentionSlice(ts: Runes, name: Runes)
    ensures var (offset, length) := MentionOf(ts, name);
            if Contains(ts, ShortFlag(name)) then
              var flag := if Contains(ts, LongFlag(name)) then LongFlag(name) else ShortFlag(name);
              && 0 <= offset && offset + length <= |ts| && ts[offset..offset + length] == flag
              && forall p: nat :: OccursAt(ts, flag, p) ==> offset <= p
            else offset == -1 && length == 0
  {
    var long, short := LongFlag(name), ShortFlag(name);
    assert long == short + [BLANK];
    if Contains(ts, long) {
      IndexOccurs(ts, long);
      assert short <= ts[Index(ts, long)..];
      FirstOccurrence(ts, short, Index(ts, long));
    }
    if Contains(ts, short) {
      IndexOccurs(ts, short);
      var flag := if Contains(ts, long) then long else short;
      forall p: nat | OccursAt(ts, flag, p) ensures Index(ts, flag) <= p {
        FirstOccurrence(ts, flag, p);
      }
    }
  }

  // ----- A marked mention -----

  /** The first occurrence of a single element. */
  lemma FirstOf<T>(a: seq<T>, x: T, b: seq<T>)
    requires x !in a
    ensures Index(a + [x] + b, [x]) == |a|
  {
    var s := a + [x] + b;
    assert s[|a|..] == [x] + b;
    FirstOccurrence(s, [x], |a|);
    IndexOccurs(s, [x]);
    var i := Index(s, [x]);
    assert s[i..][0] == s[i];
  }

  lemma EncodeThree(a: Runes, x: Rune, b: Runes)
    ensures EncodeAll(a + [x] + b) == EncodeAll(a) + Bytes1(x) + EncodeAll(b)
  {
    EncodeAllConcat(a + [x], b);
    EncodeAllConcat(a, [x]);
  }

  /** In text the first occurrence of a rune is found in bytes where the bytes before it end. */
  lemma FirstRune(a: Runes, x: Rune, b: Runes)
    requires x !in a
    ensures EncodeAll(a + [x] + b) == EncodeAll(a) + Bytes1(x) + EncodeAll(b)
    ensures Index(EncodeAll(a + [x] + b), Bytes1(x)) == |EncodeAll(a)|
  {
    EncodeThree(a, x, b);
    FirstOf(a, x, b);
    ByteIndexIsRuneIndex(a + [x] + b, [x]);
    assert (a + [x] + b)[..|a|] == a;
  }

  lemma RemovesFirstRune(a: Runes, x: Rune, b: Runes)
    requires x !in a
    ensures RemoveFirst(EncodeAll(a + [x] + b), Bytes1(x)) == EncodeAll(a + b)
  {
    FirstRune(a, x, b);
    EncodeAllConcat(a, b);
    var s, n := EncodeAll(a) + Bytes1(x) + EncodeAll(b), |EncodeAll(a)|;
    assert s[..n] == EncodeAll(a) && s[n + |Bytes1(x)|..] == EncodeAll(b);
  }

  lemma ContainedExactly<T>(s: seq<T>, x: T)
    ensures Contains(s, [x]) <==> x in s
  {
    if Contains(s, [x]) {
      IndexOccurs(s, [x]);
      assert s[Index(s, [x])] == s[Index(s, [x])..][0];
    }
    if i :| 0 <= i < |s| && s[i] == x {
      assert s[i..] == [x] + s[i + 1..];
      FirstOccurrence(s, [x], i);
    }
  }

  /** The text without its first mark. */
  function Unmarked(ts: Runes): Runes {
    RemoveFirst(ts, [MARK])
  }

  lemma UnmarkedNone(ts: Runes)
    requires MARK !in ts
    ensures Unmarked(ts) == ts
  {
    ContainedExactly(ts, MARK);
  }

  lemma UnmarkedAt(a: Runes, b: Runes)
    requires MARK !in a
    ensures Unmarked(a + [MARK] + b) == a + b
  {
    var s := a + [MARK] + b;
    FirstOf(a, MARK, b);
    assert s[..|a|] == a && s[|a| + 1..] == b;
  }

  lemma SplitAtMark(ts: Runes) returns (a: Runes, b: Runes)
    requires MARK in ts
    ensures ts == a + [MARK] + b && MARK !in a
  {
    var i := 0;
    while ts[i] != MARK
      invariant 0 <= i < |ts| && MARK !in ts[..i] && MARK in ts[i..]
      decreases |ts| - i
    {
      i := i + 1;
    }
    a, b := ts[..i], ts[i + 1..];
  }

  /** The mark removed is that of `a` if it has one. */
  lemma UnmarkedConcat(a: Runes, b: Runes)
    ensures Unmarked(a + b) == if MARK in a then Unmarked(a) + b else a + Unmarked(b)
  {
    if MARK in a {
      var x, y := SplitAtMark(a);
      UnmarkedAt(x, y);
      assert a + b == x + [MARK] + (y + b) && (x + y) + b == x + (y + b);
      UnmarkedAt(x, y + b);
    } else if MARK in b {
      var x, y := SplitAtMark(b);
      UnmarkedAt(x, y);
      assert a + b == (a + x) + [MARK] + y && a + (x + y) == (a + x) + y;
      UnmarkedAt(a + x, y);
    } else {
      UnmarkedNone(b);
      UnmarkedNone(a + b);
    }
  }

  lemma NoMarkInBytes(ts: Runes)
    requires MARK !in ts
    ensures !Contains(EncodeAll(ts), Bytes1(MARK))
  {
    ContainedExactly(ts, MARK);
    ByteIndexIsRuneIndex(ts, [MARK]);
  }

  lemma WithoutMarkAgrees(ts: Runes)
    ensures WithoutMark(EncodeAll(ts)) == EncodeAll(Unmarked(ts))
  {
    if MARK in ts {
      var a, b := SplitAtMark(ts);
      UnmarkedAt(a, b);
      RemovesFirstRune(a, MARK, b);
    } else {
      UnmarkedNone(ts);
      NoMarkInBytes(ts);
    }
  }

  /** Text and span stored for `name`, in code points. */
  lemma StoredMention(ts: Runes, name: Runes)
    ensures WithoutMark(EncodeAll(ts)) == EncodeAll(Unmarked(ts))
    ensures Locate(WithoutMark(EncodeAll(ts)), Flags(EncodeAll(name))) == MentionOf(Unmarked(ts), name)
  {
    WithoutMarkAgrees(ts);
    MentionSpan(Unmarked(ts), name);
  }

  /** What the handler makes of a text in which it has found `user` under `name`. */
  function StoredFor<T>(ts: Runes, name: Runes, user: Option<T>, dir: Directory<T>): Mentioned {
    if user.None? || name == [] then Mentioned(EncodeAll(ts), None)
    else
      var kept := Unmarked(ts);
      var (offset, length) := MentionOf(kept, name);
      Mentioned(EncodeAll(kept), if dir.idOf(user.value).None? then None
                                 else Some(At(dir.idOf(user.value).value, EncodeAll(name),
                                              dir.isBot(user.value), offset, length)))
  }

  lemma Associates(a: Runes, b: Runes, c: Runes)
    ensures a + b + c == a + (b + c)
  {
  }

  lemma TailAt(a: Bytes, b: Bytes)
    ensures (a + b)[|a|..] == b
  {
  }

  /** The bytes from the first @ on, and those after it. */
  lemma TailFromAt(pre: Runes, rest: Runes)
    requires AT !in pre
    ensures var msg := EncodeAll(pre + [AT] + rest); var p := Index(msg, Bytes1(AT));
            0 <= p <= |msg| && msg[p..] == EncodeAll([AT] + rest)
  {
    FirstRune(pre, AT, rest);
    Associates(pre, [AT], rest);
    EncodeAllConcat(pre, [AT] + rest);
    TailAt(EncodeAll(pre), EncodeAll([AT] + rest));
  }

  lemma AfterAt(rest: Runes)
    ensures Bytes1(AT) <= EncodeAll([AT] + rest) && EncodeAll([AT] + rest)[1..] == EncodeAll(rest)
  {
    EncodeAllConcat([AT], rest);
    EncodeOne(AT);
  }

  lemma Regroup(a: Runes, b: Runes, c: Runes, d: Runes)
    ensures a + b + c + d == a + (b + c + d)
  {
  }

  lemma MarkAt(name: Runes, post: Runes)
    requires MARK !in name
    ensures Index(EncodeAll([AT] + (name + [MARK] + post)), Bytes1(MARK)) == 1 + |EncodeAll(name)|
  {
    FirstRune([AT] + name, MARK, post);
    Regroup([AT], name, [MARK], post);
    AfterAt(name);
  }

  lemma HeadOf(s: Bytes, a: Bytes, b: Bytes)
    requires s != [] && s[1..] == a + b
    ensures 1 + |a| <= |s| && s[1..1 + |a|] == a
  {
    assert s[1..1 + |a|] == s[1..][..|a|];
  }

  lemma NameBetween(name: Runes, post: Runes)
    requires MARK !in name
    ensures var tail := EncodeAll([AT] + (name + [MARK] + post));
            Bytes1(AT) <= tail && Index(tail, Bytes1(MARK)) == 1 + |EncodeAll(name)| <= |tail|
            && tail[1..1 + |EncodeAll(name)|] == EncodeAll(name)
  {
    MarkAt(name, post);
    AfterAt(name + [MARK] + post);
    assert name + [MARK] + post == name + ([MARK] + post);
    EncodeAllConcat(name, [MARK] + post);
    HeadOf(EncodeAll([AT] + (name + [MARK] + post)), EncodeAll(name), EncodeAll([MARK] + post));
  }

  lemma CleanTrims(name: Runes)
    requires Clean(name)
    ensures TrimSpace(EncodeAll(name)) == EncodeAll(name)
  {
    TrimSpaceAgrees(name);
  }

  lemma MarkedName<T>(raw: Runes, post: Runes, search: Bytes -> Option<T>)
    requires MARK !in raw
    ensures var tail := EncodeAll([AT] + (raw + [MARK] + post)); var name := EncodeAll(TrimRunes(raw));
            Bytes1(AT) <= tail && NameAfterAt(tail, search) == (name, search(name))
  {
    NameBetween(raw, post);
    TrimSpaceAgrees(raw);
  }

  /** The addressee of a text with a mark after its first @. */
  lemma MarkedAddressee<T>(pre: Runes, raw: Runes, post: Runes, search: Bytes -> Option<T>)
    requires AT !in pre && MARK !in raw
    ensures var name := EncodeAll(TrimRunes(raw));
            Addressee(EncodeAll(pre + [AT] + (raw + [MARK] + post)), search) == (name, search(name))
  {
    TailFromAt(pre, raw + [MARK] + post);
    MarkedName(raw, post, search);
  }

  lemma StartsWithAt(pre: Runes, ts: Runes, flag: Runes)
    requires AT !in pre && pre <= ts && flag != [] && flag[0] == AT && Contains(ts, flag)
    ensures Index(ts, flag) >= |pre|
  {
    IndexOccurs(ts, flag);
    assert ts[Index(ts, flag)] == ts[Index(ts, flag)..][0] == AT;
    assert forall j :: 0 <= j < |pre| ==> ts[j] == pre[j];
  }

  /** A text whose first @ starts a short flag has its first short flag there. */
  lemma ShortFlagAt(pre: Runes, name: Runes, post: Runes)
    requires AT !in pre
    ensures var ts := pre + ShortFlag(name) + post; Contains(ts, ShortFlag(name)) && Index(ts, ShortFlag(name)) == |pre|
  {
    var ts := pre + ShortFlag(name) + post;
    assert ts[|pre|..] == ShortFlag(name) + post;
    FirstOccurrence(ts, ShortFlag(name), |pre|);
    StartsWithAt(pre, ts, ShortFlag(name));
  }

  lemma LongFlagThere(flag: Runes, post: Runes)
    ensures flag + [BLANK] <= flag + post <==> post != [] && post[0] == BLANK
  {
    if flag + [BLANK] <= flag + post {
      assert (flag + post)[|flag|] == (flag + [BLANK])[|flag|];
    }
  }

  /** Its first long flag, if any, is not before it, and there exactly when a blank follows. */
  lemma LongFlagAt(pre: Runes, name: Runes, post: Runes)
    requires AT !in pre
    ensures var ts := pre + ShortFlag(name) + post;
            && (Contains(ts, LongFlag(name)) ==> Index(ts, LongFlag(name)) >= |pre|)
            && (Index(ts, LongFlag(name)) == |pre| <==> post != [] && post[0] == BLANK)
  {
    var ts, long := pre + ShortFlag(name) + post, LongFlag(name);
    assert ts[|pre|..] == ShortFlag(name) + post && long == ShortFlag(name) + [BLANK];
    LongFlagThere(ShortFlag(name), post);
    if Contains(ts, long) {
      StartsWithAt(pre, ts, long);
      IndexOccurs(ts, long);
    }
    if OccursAt(ts, long, |pre|) {
      FirstOccurrence(ts, long, |pre|);
    }
  }

  /**
   The mention of a text whose first @ starts the name is never before that @, and there exactly
   when a blank follows the name or no later occurrence of it is followed by one.
   */
  lemma MentionAtFirstAt(pre: Runes, name: Runes, post: Runes)
    requires AT !in pre
    ensures var ts := pre + ShortFlag(name) + post; var offset := MentionOf(ts, name).0;
            && offset >= |pre|
            && (offset == |pre| <==> (post != [] && post[0] == BLANK) || !Contains(ts, LongFlag(name)))
  {
    ShortFlagAt(pre, name, post);
    LongFlagAt(pre, name, post);
  }

  // ----- From message to stored text and span -----

  /**
   A text with a mark after its first @: the trimmed name before that mark is looked up, and for a
   member the text without its first mark is stored with the span of the name in it.
   */
  lemma MarkedMention<T>(pre: Runes, raw: Runes, post: Runes, dir: Directory<T>)
    requires AT !in pre && MARK !in raw
    ensures var ts := pre + [AT] + (raw + [MARK] + post);
            ParseMention(EncodeAll(ts), None, dir)
            == StoredFor(ts, TrimRunes(raw), dir.search(EncodeAll(TrimRunes(raw))), dir)
  {
    MarkedAddressee(pre, raw, post, dir.search);
    StoredMention(pre + [AT] + (raw + [MARK] + post), TrimRunes(raw));
  }

  /** Without an @ nobody is mentioned, and the text stays as it is. */
  lemma NoMention<T>(ts: Runes, dir: Directory<T>)
    requires AT !in ts
    ensures ParseMention(EncodeAll(ts), None, dir) == Mentioned(EncodeAll(ts), None)
  {
    ContainedExactly(ts, AT);
    ByteIndexIsRuneIndex(ts, [AT]);
  }

  /** A message for the bot: the same for the name the bot is shown under, if it is a member. */
  lemma BotMention<T>(ts: Runes, name: Runes, bot: Option<T>, dir: Directory<T>)
    requires bot.Some? ==>
               EncodeAll(name) == dir.formatEmoji(if dir.displayName(bot.value) == [] then dir.nickName(bot.value)
                                                  else dir.displayName(bot.value))
    ensures ParseMention(EncodeAll(ts), Some(bot), dir) == StoredFor(ts, name, bot, dir)
  {
    StoredMention(ts, name);
  }

  lemma {:induction false} Rotated(x: Runes, m: Rune)
    requires x + [m] == [m] + x
    ensures forall i :: 0 <= i < |x| ==> x[i] == m
  {
    if x != [] {
      assert x[0] == (x + [m])[0] == m;
      assert x == [m] + x[1..];
      assert x[1..] + [m] == (x + [m])[1..] == ([m] + x)[1..] == x == [m] + x[1..];
      Rotated(x[1..], m);
    }
  }

  lemma KeptIsNot(a: Runes, x: Runes, post: Runes)
    requires AT in x
    ensures a + x + [MARK] + post != a + [MARK] + x + post
  {
    if a + x + [MARK] + post == a + [MARK] + x + post {
      var n, m := |a|, |a| + |x| + 1;
      assert (a + x + [MARK] + post)[n..m] == x + [MARK];
      assert (a + [MARK] + x + post)[n..m] == [MARK] + x;
      Rotated(x, MARK);
    }
  }

  lemma FirstMarkTaken(pre: Runes, x: Runes, post: Runes)
    requires MARK in pre && AT in x
    ensures Unmarked(pre) + x + ([MARK] + post) != pre + x + post
  {
    var a, b := SplitAtMark(pre);
    UnmarkedAt(a, b);
    KeptIsNot(a, b + x, post);
    assert (a + b) + x + ([MARK] + post) == a + (b + x) + [MARK] + post;
    assert (a + [MARK] + b) + x + post == a + [MARK] + (b + x) + post;
  }

  /**
   The mark after a mentioned name is the one removed exactly when there is no mark before its @;
   otherwise the first of those is, and the name keeps its own.
   */
  lemma RightMarkRemoved(pre: Runes, raw: Runes, post: Runes)
    requires MARK !in raw
    ensures var kept := Unmarked(pre + [AT] + (raw + [MARK] + post));
            && (kept == pre + ShortFlag(raw) + post <==> MARK !in pre)
            && (MARK in pre ==> kept == Unmarked(pre) + ShortFlag(raw) + ([MARK] + post))
  {
    var flag := ShortFlag(raw);
    Associates(pre, [AT], raw + [MARK] + post);
    Regroup([AT], raw, [MARK], post);
    UnmarkedConcat(pre, flag + [MARK] + post);
    if MARK in pre {
      Associates(flag, [MARK], post);
      Associates(Unmarked(pre), flag, [MARK] + post);
      FirstMarkTaken(pre, flag, post);
    } else {
      UnmarkedAt(flag, post);
      Associates(pre, flag, post);
    }
  }

  // ----- An unmarked mention -----

  /** What the search returns is the text of leading runes of the window. */
  lemma FoundNameIsRunes<T>(rs: Runes, search: Bytes -> Option<T>) returns (name: Runes)
    ensures var (found, target) := UserIn(EncodeAll(rs), Bytes1(BLANK), search);
            target.Some? ==> name <= WindowRunes(rs) && found == EncodeAll(name)
  {
    var w := WindowRunes(rs);
    var (found, target) := UserIn(EncodeAll(rs), Bytes1(BLANK), search);
    name := w;
    WindowAgrees(rs);
    UserIsLongest(EncodeAll(rs), Bytes1(BLANK), search);
    EncodeOne(BLANK);
    if target.Some? && |found| != |EncodeAll(w)| {
      BoundaryIsOccurrence(EncodeAll(w), Bytes1(BLANK), |found|);
      var k := OccurrenceAtRune(w, [BLANK], |found|);
      EncodeAllConcat(w[..k], w[k..]);
      assert w == w[..k] + w[k..] && EncodeAll(w)[..|found|] == found;
      name := w[..k];
    }
  }

  /** Trimming removes nothing before a rune that is not white space. */
  lemma WindowKeepsFirst(rs: Runes)
    requires rs != [] && !IsSpace(rs[0])
    ensures WindowRunes(rs) <= rs
  {
    var t := Take(rs, LIMIT);
    TrimRightIsPrefix(t);
  }

  lemma {:induction false} TrimRightIsPrefix(rs: Runes)
    ensures TrimRightRunes(rs) <= rs
  {
    if rs != [] && IsSpace(rs[|rs| - 1]) {
      TrimRightIsPrefix(rs[..|rs| - 1]);
    }
  }

  lemma {:induction false} TrimLeftStarts(rs: Runes)
    ensures TrimLeftRunes(rs) == [] || !IsSpace(TrimLeftRunes(rs)[0])
  {
    if rs != [] {
      TrimLeftStarts(rs[1..]);
    }
  }

  lemma WindowStarts(rs: Runes)
    ensures WindowRunes(rs) == [] || !IsSpace(WindowRunes(rs)[0])
  {
    var t := Take(rs, LIMIT);
    TrimLeftStarts(t);
    TrimRightIsPrefix(TrimLeftRunes(t));
  }

  /** `name` is what a trimming search finds in `rest`, the text after an @. */
  ghost predicate TrimmedFrom(rest: Runes, name: Runes) {
    rest != [] && name != [] && !IsSpace(name[0]) && (!IsSpace(rest[0]) ==> name <= rest)
  }

  /** It stands right after the @ exactly when no white space comes between. */
  lemma NameAtFirstAt(pre: Runes, rest: Runes, name: Runes)
    requires TrimmedFrom(rest, name)
    ensures OccursAt(pre + [AT] + rest, ShortFlag(name), |pre|) <==> !IsSpace(rest[0])
  {
    var ts := pre + [AT] + rest;
    assert ts[|pre|..] == [AT] + rest;
    if ShortFlag(name) <= [AT] + rest {
      assert ([AT] + rest)[1] == ShortFlag(name)[1] == name[0];
    }
  }

  lemma WindowTrims(rest: Runes, name: Runes)
    requires name != [] && name <= WindowRunes(rest)
    ensures TrimmedFrom(rest, name)
  {
    WindowStarts(rest);
    if !IsSpace(rest[0]) {
      WindowKeepsFirst(rest);
    }
  }

  lemma MarkedTrims(raw: Runes, more: Runes)
    requires TrimRunes(raw) != []
    ensures TrimmedFrom(raw + more, TrimRunes(raw))
  {
    TrimLeftStarts(raw);
    TrimRightIsPrefix(TrimLeftRunes(raw));
    assert raw <= raw + more;
  }

  ghost predicate Elsewhere(ts: Runes, flag: Runes, p: nat) {
    exists q: nat :: q != p && OccursAt(ts, flag, q)
  }

  /** The stored span is in range and its slice of code points is a flag. */
  predicate SliceIsFlag(ts: Runes, name: Runes, offset: int, length: nat) {
    && 0 <= offset && offset + length <= |ts|
    && (ts[offset..offset + length] == LongFlag(name) || ts[offset..offset + length] == ShortFlag(name))
  }

  lemma SliceIsFlagExactly(ts: Runes, name: Runes)
    ensures SliceIsFlag(ts, name, MentionOf(ts, name).0, MentionOf(ts, name).1) <==> Contains(ts, ShortFlag(name))
  {
    MentionSlice(ts, name);
  }

  lemma ContainsSomewhere(ts: Runes, flag: Runes, p: nat)
    ensures Contains(ts, flag) <==> OccursAt(ts, flag, p) || Elsewhere(ts, flag, p)
  {
    if Contains(ts, flag) {
      IndexOccurs(ts, flag);
    }
    if q: nat :| OccursAt(ts, flag, q) {
      FirstOccurrence(ts, flag, q);
    }
  }

  /** Without a mark the name is searched for after the first @. */
  lemma UnmarkedAddressee<T>(pre: Runes, rest: Runes, search: Bytes -> Option<T>)
    requires AT !in pre && MARK !in rest
    ensures Addressee(EncodeAll(pre + [AT] + rest), search) == UserIn(EncodeAll(rest), Bytes1(BLANK), search)
  {
    TailFromAt(pre, rest);
    AfterAt(rest);
    NoMarkInBytes([AT] + rest);
  }

  /**
   A name found after an @ has its span in range, with the flag as its slice, exactly when no white
   space follows that @ or the flag occurs elsewhere; otherwise the span is -1 and 0.
   */
  lemma FoundSpan(pre: Runes, rest: Runes, name: Runes)
    requires TrimmedFrom(rest, name)
    ensures var ts := pre + [AT] + rest; var (offset, length) := MentionOf(ts, name);
            SliceIsFlag(ts, name, offset, length) <==> !IsSpace(rest[0]) || Elsewhere(ts, ShortFlag(name), |pre|)
  {
    var ts := pre + [AT] + rest;
    SliceIsFlagExactly(ts, name);
    ContainsSomewhere(ts, ShortFlag(name), |pre|);
    NameAtFirstAt(pre, rest, name);
  }

  /** The span stored for a marked name, whichever mark was removed. */
  lemma MarkedSpan(pre: Runes, raw: Runes, post: Runes)
    requires MARK !in raw && TrimRunes(raw) != []
    ensures var kept, name := Unmarked(pre + [AT] + (raw + [MARK] + post)), TrimRunes(raw);
            var (offset, length) := MentionOf(kept, name);
            SliceIsFlag(kept, name, offset, length)
            <==> !IsSpace(raw[0]) || Elsewhere(kept, ShortFlag(name), |Unmarked(pre)|)
  {
    RightMarkRemoved(pre, raw, post);
    if MARK !in pre {
      UnmarkedNone(pre);
    }
    var more := if MARK in pre then [MARK] + post else post;
    MarkedTrims(raw, more);
    FoundSpan(Unmarked(pre), raw + more, TrimRunes(raw));
    assert Unmarked(pre) + [AT] + (raw + more) == Unmarked(pre) + ShortFlag(raw) + more;
  }

  /** The span stored for a name found in a text without a mark after the @. */
  lemma UnmarkedSpan(pre: Runes, rest: Runes, name: Runes)
    requires MARK !in rest && name != [] && name <= WindowRunes(rest)
    ensures var kept := Unmarked(pre + [AT] + rest); var (offset, length) := MentionOf(kept, name);
            && kept == Unmarked(pre) + [AT] + rest
            && (SliceIsFlag(kept, name, offset, length)
                <==> !IsSpace(rest[0]) || Elsewhere(kept, ShortFlag(name), |Unmarked(pre)|))
  {
    UnmarkedRest(pre, rest);
    WindowTrims(rest, name);
    FoundSpan(Unmarked(pre), rest, name);
  }

  lemma UnmarkedRest(pre: Runes, rest: Runes)
    requires MARK !in rest
    ensures Unmarked(pre + [AT] + rest) == Unmarked(pre) + [AT] + rest
  {
    UnmarkedConcat(pre, [AT] + rest);
    UnmarkedNone([AT] + rest);
    Associates(pre, [AT], rest);
    Associates(Unmarked(pre), [AT], rest);
    if MARK !in pre {
      UnmarkedNone(pre);
    }
  }

  /**
   A text without a mark after its first @: the name is the longest one found there, in code points,
   and for a member the text is stored without its first mark and with the span of the name.
   */
  lemma UnmarkedMention<T>(pre: Runes, rest: Runes, dir: Directory<T>) returns (name: Runes)
    requires AT !in pre && MARK !in rest
    ensures var ts := pre + [AT] + rest; var (found, user) := UserIn(EncodeAll(rest), Bytes1(BLANK), dir.search);
            && (user.Some? ==> found == EncodeAll(name) && name <= WindowRunes(rest))
            && ParseMention(EncodeAll(ts), None, dir) == StoredFor(ts, name, user, dir)
  {
    UnmarkedAddressee(pre, rest, dir.search);
    name := FoundNameIsRunes(rest, dir.search);
    StoredMention(pre + [AT] + rest, name);
  }
}
