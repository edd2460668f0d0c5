/** Concrete messages on which the parsers do what a reader would not expect. */
module TextWitnesses {
  import opened Common
  import opened GoStrings
  import opened Utf8
  import opened Quotes
  import opened Names
  import opened QuoteRoundTrip
  import opened Mentions

  /** A group with one member, known by one name. */
  function OneMember(name: Bytes): Directory<()> {
    Directory((b: Bytes) => if b == name then Some(()) else None, (u: ()) => Some("id"), (u: ()) => false,
              (u: ()) => name, (u: ()) => name, (b: Bytes) => b)
  }

  // ----- The quote parser panics -----

  /** The English suffix and some text. */
  function Headless(text: Runes): Runes {
    [0x22] + Ruler() + text
  }

  lemma HeadlessStarts(text: Runes)
    ensures Suffix(En) <= EncodeAll(Headless(text))
  {
    EncodeAllConcat([0x22] + Ruler(), text);
    EncodeAllConcat([0x22], Ruler());
  }

  lemma CleanAround(first: Rune, middle: Runes, text: Runes)
    requires !IsSpace(first) && Clean(text)
    ensures Clean([first] + middle + text)
  {
    assert ([first] + middle + text)[|[first] + middle + text| - 1] == text[|text| - 1];
  }

  /** Messages that the handler has trimmed already make the quote parser panic. */
  lemma HeadlessPanics(text: Runes)
    requires Clean(text)
    ensures var msg := EncodeAll(Headless(text)); TrimSpace(msg) == msg && GetQuote(msg).Panics?
  {
    HeadlessStarts(text);
    PanicsExactly(EncodeAll(Headless(text)));
    CleanAround(0x22, Ruler(), text);
    CleanTrims(Headless(text));
  }

  // ----- A quote, and names of fourteen runes -----

  lemma InConcat<T>(a: seq<T>, b: seq<T>, x: T)
    requires x in b
    ensures x in a + b
  {
  }

  lemma SuffixHasNewline(f: Form)
    ensures 0x0A in Suffix(f)
  {
    RulerBytes();
    assert EncodeAll(Ruler())[30] == 0x0A;
    InConcat(EncodeAll([Closing(f)]), EncodeAll(Ruler()), 0x0A);
  }

  lemma NotContained<T>(s: seq<T>, pat: seq<T>, x: T)
    requires x in pat && x !in s
    ensures !Contains(s, pat)
  {
    if Contains(s, pat) {
      IndexOccurs(s, pat);
      var i :| 0 <= i < |pat| && pat[i] == x;
      OccursLike(s, pat, Index(s, pat), i);
    }
  }

  lemma NewlineStays(rs: Runes)
    requires 0x0A !in rs
    ensures 0x0A !in EncodeAll(rs)
  {
    EncodeOne(0x0A);
    ByteIndexIsRuneIndex(rs, [0x0A]);
    ContainedExactly(rs, 0x0A);
    ContainedExactly(EncodeAll(rs), 0x0A);
  }

  lemma PrefixLacksNewline(f: Form, b: Bytes)
    requires 0x0A !in b
    ensures 0x0A !in Prefix(f) + b
  {
    PrefixBytes(f);
  }

  lemma NoSuffixWithin(f: Form, rs: Runes)
    requires 0x0A !in rs
    ensures !Contains(Prefix(f) + EncodeAll(rs), Suffix(f))
  {
    NewlineStays(rs);
    PrefixLacksNewline(f, EncodeAll(rs));
    SuffixHasNewline(f);
    NotContained(Prefix(f) + EncodeAll(rs), Suffix(f), 0x0A);
  }

  /** "hi" */
  const HI: Runes := [0x68, 0x69]

  lemma HiClean()
    ensures Clean(HI) && !AllSpace(HI) && Take(HI, 12) == HI
  {
    assert HI[0] == 0x68;
  }

  /** A member "hi" quoted with "hi", in either form, and any reply: the whole quote comes back. */
  lemma QuoteFound(f: Form, body: Bytes, bot: bool)
    ensures var quote := EncodeAll(HI + (SeparatorRunes(f) + HI));
            ParseQuote(Print(f, quote, body), OneMember(EncodeAll(HI)).(isBot := (u: ()) => bot))
            == Text(body, Some(Quote("id", EncodeAll(HI), bot, EncodeAll(HI))))
  {
    HiClean();
    assert 0x0A !in HI + (SeparatorRunes(f) + HI);
    NoSuffixWithin(f, HI + (SeparatorRunes(f) + HI));
    QuoteRoundTrip.QuoteRoundTrip(f, HI, HI, body, OneMember(EncodeAll(HI)).(isBot := (u: ()) => bot), ());
  }

  /** The quote of a member with such a name is lost, though the group knows the member by it. */
  lemma LongNameLost(name: Runes, text: Runes, body: Bytes)
    requires Clean(name) && 14 <= |name| <= 15 && 0x0A !in name && 0x0A !in text
    ensures var quote := EncodeAll(name + (SeparatorRunes(En) + text));
            ParseQuote(Print(En, quote, body), OneMember(EncodeAll(name))) == Text(body, None)
  {
    var rs := name + (SeparatorRunes(En) + text);
    assert 0x0A !in rs;
    NoSuffixWithin(En, rs);
    QuoteRoundTrip.QuoteRoundTrip(En, name, text, body, OneMember(EncodeAll(name)), ());
  }

  /** Fourteen times the letter a. */
  function FourteenRunes(): Runes {
    seq(14, i => 0x61)
  }

  lemma FourteenRunesLost(body: Bytes)
    ensures var name := FourteenRunes(); var quote := EncodeAll(name + (SeparatorRunes(En) + HI));
            ParseQuote(Print(En, quote, body), OneMember(EncodeAll(name))) == Text(body, None)
  {
    LongNameLost(FourteenRunes(), HI, body);
  }

  // ----- Mentions -----

  /** "bob" */
  const BOB: Runes := [0x62, 0x6F, 0x62]

  /** A text the handler may hold once it has trimmed the message. */
  lemma TrimmedText(ts: Runes)
    requires Clean(ts)
    ensures TrimSpace(EncodeAll(ts)) == EncodeAll(ts)
  {
    CleanTrims(ts);
  }

  lemma OccursLike<T>(s: seq<T>, pat: seq<T>, p: nat, j: nat)
    requires OccursAt(s, pat, p) && j < |pat|
    ensures p + j < |s| && s[p] == pat[0] && s[p + j] == pat[j]
  {
    assert s[p] == s[p..][0] && s[p + j] == s[p..][j];
  }

  lemma TwoIn<T>(s: seq<T>, pat: seq<T>, j: nat)
    requires Contains(s, pat) && j < |pat|
    ensures exists p :: 0 <= p < |s| - j && s[p] == pat[0] && s[p + j] == pat[j]
  {
    IndexOccurs(s, pat);
    OccursLike(s, pat, Index(s, pat), j);
  }

  lemma NotBefore<T>(s: seq<T>, pat: seq<T>, p: nat)
    requires p + |pat| <= |s| && s[p..p + |pat|] == pat && |pat| > 1
    ensures var i := Index(s, pat); 0 <= i <= p && s[i] == pat[0] && s[i + 1] == pat[1]
  {
    assert pat <= s[p..];
    FirstOccurrence(s, pat, p);
    IndexOccurs(s, pat);
    OccursLike(s, pat, Index(s, pat), 1);
  }

  /** The first occurrence is where nothing before looks like it. */
  lemma FoundAt<T>(s: seq<T>, pat: seq<T>, p: nat, j: nat)
    requires p + |pat| <= |s| && s[p..p + |pat|] == pat && j < |pat|
    requires forall q :: 0 <= q < p ==> s[q] != pat[0] || s[q + j] != pat[j]
    ensures Index(s, pat) == p
  {
    assert pat <= s[p..];
    FirstOccurrence(s, pat, p);
    IndexOccurs(s, pat);
    OccursLike(s, pat, Index(s, pat), j);
  }

  lemma CleanName(name: Runes)
    requires Clean(name)
    ensures TrimRunes(name) == name
  {
  }

  lemma MarkedStored<T>(pre: Runes, name: Runes, post: Runes, kept: Runes, dir: Directory<T>, user: T)
    requires AT !in pre && MARK !in name && Clean(name) && dir.search(EncodeAll(name)) == Some(user)
    requires Unmarked(pre + [AT] + (name + [MARK] + post)) == kept
    ensures ParseMention(EncodeAll(pre + [AT] + (name + [MARK] + post)), None, dir)
            == Mentioned(EncodeAll(kept), AtOf(dir, user, EncodeAll(name), MentionOf(kept, name)))
  {
    CleanName(name);
    MarkedMention(pre, name, post, dir);
  }

  /** "@bob", the mark, ",@bob hi" */
  const COMMA: Runes := [0x2C, 0x40, 0x62, 0x6F, 0x62, 0x20, 0x68, 0x69]
  const COMMA_SENT: Runes := [0x40, 0x62, 0x6F, 0x62, 0x2005, 0x2C, 0x40, 0x62, 0x6F, 0x62, 0x20, 0x68, 0x69]
  const COMMA_KEPT: Runes := [0x40, 0x62, 0x6F, 0x62, 0x2C, 0x40, 0x62, 0x6F, 0x62, 0x20, 0x68, 0x69]

  lemma CommaSpan()
    ensures MentionOf(COMMA_KEPT, BOB) == (5, 5)
  {
    var ts, long := COMMA_KEPT, LongFlag(BOB);
    assert long == [AT, 0x62, 0x6F, 0x62, BLANK] && ts[5..10] == long;
    FoundAt(ts, long, 5, 4);
  }

  lemma UnmarkedIs(ts: Runes, kept: Runes, i: nat)
    requires i < |ts| && MARK !in ts[..i] && ts[i] == MARK && kept == ts[..i] + ts[i + 1..]
    ensures Unmarked(ts) == kept
  {
    assert ts == ts[..i] + [MARK] + ts[i + 1..];
    UnmarkedAt(ts[..i], ts[i + 1..]);
  }

  lemma CommaText()
    ensures [] + [AT] + (BOB + [MARK] + COMMA) == COMMA_SENT && Unmarked(COMMA_SENT) == COMMA_KEPT
  {
    UnmarkedIs(COMMA_SENT, COMMA_KEPT, 4);
  }

  lemma CommaMention(dir: Directory<()>)
    requires dir.search(EncodeAll(BOB)) == Some(())
    ensures ParseMention(EncodeAll(COMMA_SENT), None, dir)
            == Mentioned(EncodeAll(COMMA_KEPT), AtOf(dir, (), EncodeAll(BOB), (5, 5)))
  {
    CommaText();
    MarkedStored([], BOB, COMMA, COMMA_KEPT, dir, ());
    CommaSpan();
  }

  lemma CommaTrimmed()
    ensures TrimSpace(EncodeAll(COMMA_SENT)) == EncodeAll(COMMA_SENT)
  {
    TrimmedText(COMMA_SENT);
  }

  /** Of two mentions in a row the second is located, since a blank follows it. */
  lemma LaterMention()
    ensures TrimSpace(EncodeAll(COMMA_SENT)) == EncodeAll(COMMA_SENT)
    ensures ParseMention(EncodeAll(COMMA_SENT), None, OneMember(EncodeAll(BOB)))
            == Mentioned(EncodeAll(COMMA_KEPT), Some(At("id", EncodeAll(BOB), false, 5, 5)))
  {
    CommaTrimmed();
    CommaMention(OneMember(EncodeAll(BOB)));
  }

  /** "x", the mark, "@bob", the mark, "hi" */
  const EARLY: Runes := [0x78, 0x2005, 0x40, 0x62, 0x6F, 0x62, 0x2005, 0x68, 0x69]
  const EARLY_KEPT: Runes := [0x78, 0x40, 0x62, 0x6F, 0x62, 0x2005, 0x68, 0x69]

  lemma EarlySpan()
    ensures MentionOf(EARLY_KEPT, BOB) == (1, 4)
  {
    var ts, short, long := EARLY_KEPT, ShortFlag(BOB), LongFlag(BOB);
    assert short == [AT, 0x62, 0x6F, 0x62] && ts[1..5] == short;
    assert long == [AT, 0x62, 0x6F, 0x62, BLANK];
    if Contains(ts, long) {
      TwoIn(ts, long, 4);
    }
    FoundAt(ts, short, 1, 0);
  }

  lemma EarlyText()
    ensures [0x78, MARK] + [AT] + (BOB + [MARK] + HI) == EARLY && Unmarked(EARLY) == EARLY_KEPT
  {
    UnmarkedIs(EARLY, EARLY_KEPT, 1);
  }

  lemma EarlyMention(dir: Directory<()>)
    requires dir.search(EncodeAll(BOB)) == Some(())
    ensures ParseMention(EncodeAll(EARLY), None, dir)
            == Mentioned(EncodeAll(EARLY_KEPT), AtOf(dir, (), EncodeAll(BOB), (1, 4)))
  {
    EarlyText();
    MarkedStored([0x78, MARK], BOB, HI, EARLY_KEPT, dir, ());
    EarlySpan();
  }

  /** A mark before the @ is removed instead of the one after the name, which stays in the text. */
  lemma MarkKept()
    ensures var msg := EncodeAll(EARLY);
            TrimSpace(msg) == msg
            && ParseMention(msg, None, OneMember(EncodeAll(BOB)))
               == Mentioned(EncodeAll(EARLY_KEPT), Some(At("id", EncodeAll(BOB), false, 1, 4)))
  {
    TrimmedText(EARLY);
    EarlyMention(OneMember(EncodeAll(BOB)));
  }

  /** "@a", the mark, " @bob", the mark, " hi" for the bot, whose shown name is "bob" */
  const TO_BOT: Runes := [0x40, 0x61, 0x2005, 0x20, 0x40, 0x62, 0x6F, 0x62, 0x2005, 0x20, 0x68, 0x69]
  const TO_BOT_KEPT: Runes := [0x40, 0x61, 0x20, 0x40, 0x62, 0x6F, 0x62, 0x2005, 0x20, 0x68, 0x69]

  lemma ToBotNoBlank()
    ensures !Contains(TO_BOT_KEPT, LongFlag(BOB))
  {
    var long := LongFlag(BOB);
    assert long == [AT, 0x62, 0x6F, 0x62, BLANK];
    if Contains(TO_BOT_KEPT, long) {
      TwoIn(TO_BOT_KEPT, long, 4);
    }
  }

  lemma ToBotSpan()
    ensures MentionOf(TO_BOT_KEPT, BOB) == (3, 4)
  {
    var ts, short := TO_BOT_KEPT, ShortFlag(BOB);
    ToBotNoBlank();
    assert short == [0x40, 0x62, 0x6F, 0x62];
    assert ts[3..7] == short;
    NotBefore(ts, short, 3);
    var p := Index(ts, short);
    assert p == 0 || p == 1 || p == 2 || p == 3;
  }

  lemma ToBotText()
    ensures Unmarked(TO_BOT) == TO_BOT_KEPT
  {
    UnmarkedIs(TO_BOT, TO_BOT_KEPT, 2);
  }

  lemma BotStored<T>(ts: Runes, kept: Runes, name: Runes, dir: Directory<T>, bot: T)
    requires EncodeAll(name) == dir.formatEmoji(if dir.displayName(bot) == [] then dir.nickName(bot)
                                                else dir.displayName(bot))
    requires name != [] && Unmarked(ts) == kept
    ensures ParseMention(EncodeAll(ts), Some(Some(bot)), dir)
            == Mentioned(EncodeAll(kept), AtOf(dir, bot, EncodeAll(name), MentionOf(kept, name)))
  {
    BotMention(ts, name, Some(bot), dir);
  }

  lemma ToBotMention(dir: Directory<()>)
    requires dir.formatEmoji(if dir.displayName(()) == [] then dir.nickName(()) else dir.displayName(()))
             == EncodeAll(BOB)
    ensures ParseMention(EncodeAll(TO_BOT), Some(Some(())), dir)
            == Mentioned(EncodeAll(TO_BOT_KEPT), AtOf(dir, (), EncodeAll(BOB), (3, 4)))
  {
    ToBotText();
    BotStored(TO_BOT, TO_BOT_KEPT, BOB, dir, ());
    ToBotSpan();
  }

  /** A bot with a card in the group, shown under it. */
  function BotOnly(): Directory<()> {
    OneMember([]).(isBot := (u: ()) => true, displayName := (u: ()) => EncodeAll(BOB))
  }

  /** The bot's own mark stays in the text when somebody else is mentioned before it. */
  lemma BotMarkKept()
    ensures var msg := EncodeAll(TO_BOT);
            TrimSpace(msg) == msg
            && ParseMention(msg, Some(Some(())), BotOnly())
               == Mentioned(EncodeAll(TO_BOT_KEPT), Some(At("id", EncodeAll(BOB), true, 3, 4)))
  {
    TrimmedText(TO_BOT);
    EncodeOne(0x62);
    ToBotMention(BotOnly());
  }

  /** "@ bob" */
  const APART: Runes := [0x40, 0x20, 0x62, 0x6F, 0x62]

  lemma ApartHasNoFlag()
    ensures !Contains(APART, ShortFlag(BOB))
  {
    if Contains(APART, ShortFlag(BOB)) {
      TwoIn(APART, ShortFlag(BOB), 1);
    }
  }

  lemma ApartWindow()
    ensures WindowRunes([BLANK] + BOB) == BOB
  {
    var rs := [BLANK] + BOB;
    assert rs[1..] == BOB;
    assert TrimLeftRunes(rs) == TrimLeftRunes(BOB);
  }

  lemma BobIsFound()
    ensures UserIn(EncodeAll([BLANK] + BOB), Bytes1(BLANK), OneMember(EncodeAll(BOB)).search)
            == (EncodeAll(BOB), Some(()))
  {
    var rs, name, sep := [BLANK] + BOB, EncodeAll(BOB), Bytes1(BLANK);
    ApartWindow();
    WindowAgrees(rs);
    EncodeOne(BLANK);
    BoundaryIsOccurrence(name, sep, |name|);
    FindsOnlyName(EncodeAll(rs), sep, OneMember(name).search, name, ());
  }

  lemma EncodeInjective(a: Runes, b: Runes)
    requires EncodeAll(a) == EncodeAll(b)
    ensures a == b
  {
    DecodeEncodeAll(a);
    DecodeEncodeAll(b);
  }

  lemma ApartSpan()
    ensures MentionOf(APART, BOB) == (-1, 0)
  {
    ApartHasNoFlag();
    MentionSlice(APART, BOB);
  }

  lemma ApartStored<T>(dir: Directory<T>, user: T)
    requires UserIn(EncodeAll([BLANK] + BOB), Bytes1(BLANK), dir.search) == (EncodeAll(BOB), Some(user))
    ensures ParseMention(EncodeAll(APART), None, dir)
            == Mentioned(EncodeAll(APART), AtOf(dir, user, EncodeAll(BOB), MentionOf(APART, BOB)))
  {
    var none: Runes := [];
    assert none + [AT] + ([BLANK] + BOB) == APART;
    var name := UnmarkedMention([], [BLANK] + BOB, dir);
    EncodeInjective(name, BOB);
    UnmarkedNone(APART);
  }

  /** A mention is stored that is nowhere in the text. */
  lemma MentionNowhere()
    ensures var msg := EncodeAll(APART);
            TrimSpace(msg) == msg
            && ParseMention(msg, None, OneMember(EncodeAll(BOB)))
               == Mentioned(msg, Some(At("id", EncodeAll(BOB), false, -1, 0)))
  {
    TrimmedText(APART);
    BobIsFound();
    ApartStored(OneMember(EncodeAll(BOB)), ());
    ApartSpan();
  }
}
