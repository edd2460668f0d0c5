/** The quote parser of functions.go and the part of hub.go that turns its result into a quote. */
module Quotes {
  import opened GoStrings
  import opened Utf8
  import opened Brackets

  /** The Chinese and the English form of a quoted message. */
  datatype Form = Zh | En

  /** Fourteen times a dash and a blank, then a dash. */
  function Dashes(n: nat): Runes {
    if n == 0 then [0x2D] else [0x2D, 0x20] + Dashes(n - 1)
  }

  const DASHES := Dashes(14)

  /** What follows the closing mark in the suffix. */
  function Ruler(): Runes {
    [0x0A] + DASHES + [0x0A]
  }

  function Opening(f: Form): Rune {
    if f.Zh? then 0x300C else 0x22
  }

  function Closing(f: Form): Rune {
    if f.Zh? then 0x300D else 0x22
  }

  function Prefix(f: Form): Bytes {
    EncodeAll([Opening(f)])
  }

  function Suffix(f: Form): Bytes {
    EncodeAll([Closing(f)]) + EncodeAll(Ruler())
  }

  function SeparatorRunes(f: Form): Runes {
    if f.Zh? then [0xFF1A] else [0x3A, 0x20]
  }

  function Separator(f: Form): Bytes {
    EncodeAll(SeparatorRunes(f))
  }

  /** `Panics` is a slice whose end lies before its start. */
  datatype Parsed = NotQuoted | Panics | Quoted(quote: Bytes, body: Bytes, form: Form)

  function Parse(msg: Bytes, f: Form): Parsed {
    match Cut(msg, Prefix(f), Suffix(f))
    case None => Panics
    case Some(c) => Quoted(c.inner, c.rest, f)
  }

  predicate Matches(msg: Bytes, f: Form) {
    Prefix(f) <= msg && Contains(msg, Suffix(f))
  }

  function GetQuote(msg: Bytes): Parsed {
    if Matches(msg, Zh) then Parse(msg, Zh) else if Matches(msg, En) then Parse(msg, En) else NotQuoted
  }

  /** The printed form of a quoted message. */
  function Print(f: Form, quote: Bytes, body: Bytes): Bytes {
    Enclose(Prefix(f), quote, Suffix(f), body)
  }

  // ----- The constants -----

  lemma PrefixBytes(f: Form)
    ensures Prefix(f) == if f.Zh? then [0xE3, 0x80, 0x8C] else [0x22]
  {
    EncodeOne(Opening(f));
  }

  predicate Ascii(rs: Runes) {
    forall i :: 0 <= i < |rs| ==> rs[i] < 0x80
  }

  lemma {:induction false} AsciiEncodesItself(rs: Runes)
    requires Ascii(rs)
    ensures |EncodeAll(rs)| == |rs| && forall i :: 0 <= i < |rs| ==> EncodeAll(rs)[i] == rs[i]
  {
    if rs != [] {
      AsciiEncodesItself(rs[1..]);
    }
  }

  lemma {:induction false} DashesOnly(n: nat)
    ensures Dashes(n) != [] && forall i :: 0 <= i < |Dashes(n)| ==> Dashes(n)[i] == 0x2D || Dashes(n)[i] == 0x20
  {
    if n > 0 {
      DashesOnly(n - 1);
    }
  }

  lemma RulerLacks(b: Byte)
    requires b != 0x0A && b != 0x2D && b != 0x20
    ensures b !in EncodeAll(Ruler())
  {
    DashesOnly(14);
    var rest := Ruler();
    assert forall i :: 0 <= i < |rest| ==> rest[i] == 0x0A || rest[i] == 0x2D || rest[i] == 0x20;
    AsciiEncodesItself(rest);
  }

  lemma HeadOnceOf(mark: Bytes, rest: Bytes)
    requires HeadOnce(mark) && mark[0] !in rest
    ensures HeadOnce(mark + rest) && (mark + rest)[..|mark|] == mark
  {
    assert (mark + rest)[1..] == mark[1..] + rest;
  }

  lemma MarkBytes(f: Form)
    ensures EncodeAll([Closing(f)]) == if f.Zh? then [0xE3, 0x80, 0x8D] else [0x22]
  {
    EncodeOne(Closing(f));
  }

  /** The suffix starts with its quotation mark, whose first byte does not come back in it. */
  lemma SuffixBytes(f: Form)
    ensures HeadOnce(Suffix(f))
    ensures if f.Zh? then [0xE3, 0x80, 0x8D] <= Suffix(f) else [0x22] <= Suffix(f)
  {
    MarkBytes(f);
    RulerLacks(EncodeAll([Closing(f)])[0]);
    HeadOnceOf(EncodeAll([Closing(f)]), EncodeAll(Ruler()));
  }

  lemma SeparatorBytes(f: Form)
    ensures HeadOnce(Separator(f))
    ensures Separator(f) == if f.Zh? then [0xEF, 0xBC, 0x9A] else [0x3A, 0x20]
  {
    if f.Zh? {
      EncodeOne(0xFF1A);
    } else {
      AsciiEncodesItself([0x3A, 0x20]);
    }
  }

  lemma {:induction false} DashesAlternate(n: nat)
    ensures |Dashes(n)| == 2 * n + 1
    ensures forall i :: 0 <= i < |Dashes(n)| ==> Dashes(n)[i] == if i % 2 == 0 then 0x2D else 0x20
  {
    if n > 0 {
      DashesAlternate(n - 1);
      assert forall i :: 2 <= i < |Dashes(n)| ==> Dashes(n)[i] == Dashes(n - 1)[i - 2];
    }
  }

  /** The bytes after the closing mark: a newline, fifteen dashes with a blank between any two, a newline. */
  lemma RulerBytes()
    ensures var b := EncodeAll(Ruler());
            |b| == 31
            && forall i :: 0 <= i < 31 ==> b[i] == if i % 30 == 0 then 0x0A else if i % 2 == 1 then 0x2D else 0x20
  {
    DashesAlternate(14);
    RulerOf(DASHES);
    AsciiEncodesItself(Ruler());
  }

  lemma RulerOf(dashes: Runes)
    requires |dashes| == 29 && forall i :: 0 <= i < 29 ==> dashes[i] == if i % 2 == 0 then 0x2D else 0x20
    ensures var rs := [0x0A] + dashes + [0x0A];
            |rs| == 31 && Ascii(rs)
            && forall i :: 0 <= i < 31 ==> rs[i] == if i % 30 == 0 then 0x0A else if i % 2 == 1 then 0x2D else 0x20
  {
  }

  /** A suffix is its quotation mark and that ruler. */
  lemma SuffixLiteral(f: Form)
    ensures Suffix(f) == (if f.Zh? then [0xE3, 0x80, 0x8D] else [0x22]) + EncodeAll(Ruler())
  {
    MarkBytes(f);
  }

  // ----- Decomposition -----

  /** The two prefixes differ in their first byte. */
  lemma OnePrefix(msg: Bytes)
    ensures !(Prefix(Zh) <= msg && Prefix(En) <= msg)
  {
    PrefixBytes(Zh);
    PrefixBytes(En);
  }

  lemma CloseAfterZh(msg: Bytes, s: Bytes)
    requires [0xE3, 0x80, 0x8C] <= msg && [0xE3, 0x80, 0x8D] <= s && Contains(msg, s)
    ensures Index(msg, s) >= 3
  {
    var i := Index(msg, s);
    IndexOccurs(msg, s);
    assert msg[i] == msg[i..][0] == 0xE3 && msg[i + 2] == msg[i..][2] == 0x8D;
  }

  /**
   The slice is in bounds for the Chinese form, and for the English form unless the message starts
   with the suffix.
   */
  lemma SliceInBounds(f: Form, msg: Bytes)
    requires Matches(msg, f)
    ensures Index(msg, Suffix(f)) < |Prefix(f)| <==> f.En? && Suffix(En) <= msg
  {
    var s := Suffix(f);
    PrefixBytes(f);
    SuffixBytes(f);
    IndexOccurs(msg, s);
    if f.Zh? {
      CloseAfterZh(msg, s);
    } else {
      assert msg[0..] == msg;
      if s <= msg {
        FirstOccurrence(msg, s, 0);
      }
    }
  }

  lemma ParsePanicsExactly(f: Form, msg: Bytes)
    requires Matches(msg, f)
    ensures Parse(msg, f).Panics? <==> f.En? && Suffix(En) <= msg
  {
    SliceInBounds(f, msg);
  }

  lemma SuffixMatches(msg: Bytes)
    requires Suffix(En) <= msg
    ensures Matches(msg, En)
  {
    SuffixBytes(En);
    PrefixBytes(En);
    assert msg[0..] == msg;
    FirstOccurrence(msg, Suffix(En), 0);
  }

  /** The parser panics exactly on messages that start with the English suffix. */
  lemma PanicsExactly(msg: Bytes)
    ensures GetQuote(msg).Panics? <==> Suffix(En) <= msg
  {
    OnePrefix(msg);
    if Suffix(En) <= msg {
      SuffixMatches(msg);
    }
    if Matches(msg, Zh) {
      ParsePanicsExactly(Zh, msg);
    } else if Matches(msg, En) {
      ParsePanicsExactly(En, msg);
    }
  }

  lemma ParseDecomposes(f: Form, msg: Bytes)
    requires Matches(msg, f) && Parse(msg, f).Quoted?
    ensures var q := Parse(msg, f); msg == Print(f, q.quote, q.body) && Index(msg, Suffix(f)) == |Prefix(f) + q.quote|
  {
    CutDecomposes(msg, Prefix(f), Suffix(f));
  }

  /** A parsed message is the printed form of its parts, cut at the first suffix. */
  lemma GetQuoteDecomposes(msg: Bytes)
    requires GetQuote(msg).Quoted?
    ensures var q := GetQuote(msg);
            msg == Print(q.form, q.quote, q.body) && Index(msg, Suffix(q.form)) == |Prefix(q.form) + q.quote|
  {
    if Matches(msg, Zh) {
      ParseDecomposes(Zh, msg);
    } else {
      ParseDecomposes(En, msg);
    }
  }

  lemma PrintedMatches(f: Form, quote: Bytes, body: Bytes)
    ensures GetQuote(Print(f, quote, body)) == Parse(Print(f, quote, body), f)
  {
    EncloseOpensAndCloses(Prefix(f), quote, Suffix(f), body);
    OnePrefix(Print(f, quote, body));
  }

  /** Round trip: printing and parsing gives the parts back exactly when no suffix ends within the quote. */
  lemma PrintedParsesExactly(f: Form, quote: Bytes, body: Bytes)
    ensures GetQuote(Print(f, quote, body)) == Quoted(quote, body, f) <==> !Contains(Prefix(f) + quote, Suffix(f))
  {
    PrintedMatches(f, quote, body);
    SuffixBytes(f);
    CutOfEncloseExactly(Prefix(f), quote, Suffix(f), body);
  }
}
