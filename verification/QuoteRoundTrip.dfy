/** The quote of a text message, from its printed form back to the member, the quoted text and the reply. */
module QuoteRoundTrip {
  import opened Common
  import opened GoStrings
  import opened Utf8
  import opened Quotes
  import opened Names

  datatype Quote = Quote(uid: string, name: Bytes, bot: bool, content: Bytes)

  /** `Crashed` is the panic of the quote parser. */
  datatype Text = Crashed | Text(content: Bytes, quote: Option<Quote>)

  /** The quote of a member, unless its id cannot be looked up. */
  function QuoteOf<T>(dir: Directory<T>, user: T, name: Bytes, content: Bytes): Option<Quote> {
    match dir.idOf(user)
    case None => None
    case Some(id) => Some(Quote(id, name, dir.isBot(user), content))
  }

  /** The quote of a quoted content, without the name found in it and the separator. */
  function QuoteIn<T>(content: Bytes, f: Form, dir: Directory<T>): Option<Quote> {
    var (name, user) := UserIn(content, Separator(f), dir.search);
    if user.Some? && name != [] then QuoteOf(dir, user.value, name, TrimPrefix(content, name + Separator(f)))
    else None
  }

  function ParseQuote<T>(msg: Bytes, dir: Directory<T>): Text {
    match GetQuote(msg)
    case Panics => Crashed
    case NotQuoted => Text(msg, None)
    case Quoted(content, body, f) => Text(body, QuoteIn(content, f, dir))
  }

  /** The quote part of the text handler, which replaces the message text by the reply step by step. */
  method SplitQuote<T>(msg: Bytes, dir: Directory<T>) returns (r: Text)
    ensures r == ParseQuote(msg, dir)
  {
    var msgContent, quote: Option<Quote> := msg, None;
    var parsed := GetQuote(msgContent);
    if parsed.Panics? {
      return Crashed;
    }
    if parsed.Quoted? {
      msgContent := parsed.body;
      var quoteContent, separator := parsed.quote, Separator(parsed.form);
      var username, user := GetUserFromContent(quoteContent, separator, dir.search);
      if user.Some? && username != [] {
        var id := dir.idOf(user.value);
        if id.Some? {
          quoteContent := TrimPrefix(quoteContent, username + separator);
          quote := Some(Quote(id.value, username, dir.isBot(user.value), quoteContent));
        }
      }
    }
    return Text(msgContent, quote);
  }

  // ----- Which names survive the window -----

  predicate Clean(name: Runes) {
    name != [] && !IsSpace(name[0]) && !IsSpace(name[|name| - 1])
  }

  /** The name ends at a boundary of the window. */
  predicate Named(w: Runes, sep: Runes, name: Runes) {
    w == name || name + sep <= w
  }

  /**
   The lengths at which the name keeps its separator: 1 to 16 runes for the one-rune separator; for
   ": " a name of 16 runes, or of at most 13 if the runes of text still in the window hold a non-space.
   */
  predicate LengthOk(f: Form, name: Runes, text: Runes) {
    if f.Zh? then |name| <= 16
    else |name| == 16 || (|name| <= 13 && !AllSpace(Take(text, 14 - |name|)))
  }

  lemma WindowOfClean(name: Runes, more: Runes)
    requires Clean(name)
    ensures WindowRunes(name + more) == TrimRightRunes(Take(name + more, 16))
  {
    assert Take(name + more, 16)[0] == name[0];
  }

  lemma CleanStays(a: Runes, last: Rune)
    requires !IsSpace(last)
    ensures TrimRightRunes(a + [last]) == a + [last]
  {
  }

  lemma {:induction false} TrimRightShortens(rs: Runes)
    ensures |TrimRightRunes(rs)| <= |rs|
  {
    if rs != [] && IsSpace(rs[|rs| - 1]) {
      TrimRightShortens(rs[..|rs| - 1]);
    }
  }

  /** From 16 runes on only the name itself is in the window. */
  lemma LongName(name: Runes, more: Runes, sep: Runes)
    requires Clean(name) && |name| >= 16 && sep != []
    ensures Named(WindowRunes(name + more), sep, name) <==> |name| == 16
  {
    WindowOfClean(name, more);
    var t := Take(name + more, 16);
    assert t == name[..16];
    if |name| == 16 {
      assert t == name[..15] + [name[15]];
      CleanStays(name[..15], name[15]);
    } else {
      TrimRightShortens(t);
    }
  }

  /** What the window keeps after the name and its separator. */
  lemma ShortName(name: Runes, sep: Runes, text: Runes)
    requires Clean(name) && |name| + |sep| <= 16
    ensures var t := Take(text, 16 - |name| - |sep|);
            WindowRunes(name + (sep + text))
            == if AllSpace(t) then TrimRightRunes(name + sep) else name + sep + TrimRightRunes(t)
  {
    WindowOfClean(name, sep + text);
    var t := Take(text, 16 - |name| - |sep|);
    assert Take(name + (sep + text), 16) == (name + sep) + t;
    TrimRightOfConcat(name + sep, t);
  }

  lemma ZhNames(name: Runes, text: Runes)
    requires Clean(name)
    ensures Named(WindowRunes(name + (SeparatorRunes(Zh) + text)), SeparatorRunes(Zh), name)
            <==> LengthOk(Zh, name, text)
  {
    var sep := SeparatorRunes(Zh);
    if |name| >= 16 {
      LongName(name, sep + text, sep);
    } else {
      ShortName(name, sep, text);
      CleanStays(name, 0xFF1A);
    }
  }

  /** With 15 runes the window ends after the colon. */
  lemma FifteenRunes(name: Runes, text: Runes)
    requires Clean(name) && |name| == 15
    ensures !Named(WindowRunes(name + (SeparatorRunes(En) + text)), SeparatorRunes(En), name)
  {
    var sep := SeparatorRunes(En);
    WindowOfClean(name, sep + text);
    assert Take(name + (sep + text), 16) == name + [0x3A];
    CleanStays(name, 0x3A);
  }

  lemma ColonOnly(name: Runes)
    ensures TrimRightRunes(name + SeparatorRunes(En)) == name + [0x3A]
  {
    var sep := SeparatorRunes(En);
    assert (name + sep)[..|name| + 1] == name + [0x3A];
    CleanStays(name, 0x3A);
  }

  lemma EnNames(name: Runes, text: Runes)
    requires Clean(name)
    ensures Named(WindowRunes(name + (SeparatorRunes(En) + text)), SeparatorRunes(En), name)
            <==> LengthOk(En, name, text)
  {
    var sep := SeparatorRunes(En);
    if |name| >= 16 {
      LongName(name, sep + text, sep);
    } else if |name| == 15 {
      FifteenRunes(name, text);
    } else {
      ShortName(name, sep, text);
      ColonOnly(name);
    }
  }

  lemma NamedExactly(f: Form, name: Runes, text: Runes)
    requires Clean(name)
    ensures Named(WindowRunes(name + (SeparatorRunes(f) + text)), SeparatorRunes(f), name) <==> LengthOk(f, name, text)
  {
    if f.Zh? {
      ZhNames(name, text);
    } else {
      EnNames(name, text);
    }
  }

  // ----- From bytes to runes and back -----

  /** `name` is a prefix of `w` that ends at a boundary. */
  predicate BoundaryName(w: Bytes, sep: Bytes, name: Bytes)
    requires sep != []
  {
    name <= w && Boundary(w, sep, |name|)
  }

  lemma BoundaryNameAgrees(w: Runes, f: Form, name: Runes)
    ensures BoundaryName(EncodeAll(w), Separator(f), EncodeAll(name)) <==> Named(w, SeparatorRunes(f), name)
  {
    var sep, bytes, nameBytes := SeparatorRunes(f), EncodeAll(w), EncodeAll(name);
    SeparatorBytes(f);
    BoundaryIsOccurrence(bytes, Separator(f), |nameBytes|);
    EncodeAllConcat(name, sep);
    BytePrefixIsRunePrefix(name + sep, w);
    BytePrefixIsRunePrefix(name, w);
    BytePrefixIsRunePrefix(w, name);
    PrefixThenOccurs(bytes, nameBytes, Separator(f));
  }

  lemma PrefixThenOccurs(s: Bytes, a: Bytes, b: Bytes)
    ensures a <= s && OccursAt(s, b, |a|) <==> a + b <= s
  {
    if a <= s {
      assert s == a + s[|a|..];
    }
  }

  /** `search` knows the member by `name` and by no other boundary prefix of the window. */
  ghost predicate OnlyKnownAs<T>(content: Bytes, sep: Bytes, search: Bytes -> Option<T>, name: Bytes, user: T)
    requires sep != []
  {
    var w := Window(content);
    search(name) == Some(user)
    && forall k :: 0 <= k <= |w| && Boundary(w, sep, k) && w[..k] != name ==> search(w[..k]).None?
  }

  /** The search finds the only known name exactly when it ends at a boundary of the window. */
  lemma FindsOnlyName<T>(content: Bytes, sep: Bytes, search: Bytes -> Option<T>, name: Bytes, user: T)
    requires sep != [] && OnlyKnownAs(content, sep, search, name, user)
    ensures UserIn(content, sep, search)
            == if BoundaryName(Window(content), sep, name) then (name, Some(user)) else ([], None)
  {
    var w := Window(content);
    var (found, target) := UserIn(content, sep, search);
    UserIsLongest(content, sep, search);
    if BoundaryName(w, sep, name) {
      assert w[..|name|] == name;
      assert target.Some?;
    }
    if target.Some? {
      assert w[..|found|] == found;
    }
  }

  lemma ParsedPrint<T>(f: Form, quote: Bytes, body: Bytes, dir: Directory<T>)
    requires !Contains(Prefix(f) + quote, Suffix(f))
    ensures ParseQuote(Print(f, quote, body), dir) == Text(body, QuoteIn(quote, f, dir))
  {
    PrintedParsesExactly(f, quote, body);
  }

  lemma PrintedQuote<T>(f: Form, name: Runes, text: Runes, body: Bytes, dir: Directory<T>, user: T)
    requires Clean(name)
    requires var quote := EncodeAll(name + (SeparatorRunes(f) + text));
             && !Contains(Prefix(f) + quote, Suffix(f))
             && OnlyKnownAs(quote, Separator(f), dir.search, EncodeAll(name), user)
    ensures ParseQuote(Print(f, EncodeAll(name + (SeparatorRunes(f) + text)), body), dir)
            == Text(body, if LengthOk(f, name, text) then QuoteOf(dir, user, EncodeAll(name), EncodeAll(text))
                          else None)
  {
    var rs, sep := name + (SeparatorRunes(f) + text), Separator(f);
    var quote := EncodeAll(rs);
    ParsedPrint(f, quote, body, dir);
    WindowAgrees(rs);
    NamedExactly(f, name, text);
    BoundaryNameAgrees(WindowRunes(rs), f, name);
    FindsOnlyName(quote, sep, dir.search, EncodeAll(name), user);
    NameThenText(name, SeparatorRunes(f), text);
  }

  /**
   Round trip of a quoted message: what is printed as prefix, name, separator, text, suffix and reply
   comes back as the member, the text and the reply exactly for the lengths above, and otherwise, or if
   the member's id cannot be looked up, the reply comes back without a quote.
   */
  lemma QuoteRoundTrip<T>(f: Form, name: Runes, text: Runes, body: Bytes, dir: Directory<T>, user: T)
    requires Clean(name)
    requires var quote := EncodeAll(name + (SeparatorRunes(f) + text));
             && !Contains(Prefix(f) + quote, Suffix(f))
             && OnlyKnownAs(quote, Separator(f), dir.search, EncodeAll(name), user)
    ensures ParseQuote(Print(f, EncodeAll(name + (SeparatorRunes(f) + text)), body), dir)
            == Text(body, if LengthOk(f, name, text) && dir.idOf(user).Some?
                          then Some(Quote(dir.idOf(user).value, EncodeAll(name), dir.isBot(user), EncodeAll(text)))
                          else None)
  {
    PrintedQuote(f, name, text, body, dir, user);
  }

  lemma PrefixTrimmed(a: Bytes, b: Bytes, c: Bytes)
    ensures TrimPrefix(a + (b + c), a + b) == c
  {
    assert a + (b + c) == (a + b) + c;
  }

  lemma NameThenText(name: Runes, sep: Runes, text: Runes)
    ensures TrimPrefix(EncodeAll(name + (sep + text)), EncodeAll(name) + EncodeAll(sep)) == EncodeAll(text)
  {
    EncodeAllConcat(name, sep + text);
    EncodeAllConcat(sep, text);
    PrefixTrimmed(EncodeAll(name), EncodeAll(sep), EncodeAll(text));
  }

  /** The handler panics exactly where the quote parser does. */
  lemma CrashesExactly<T>(msg: Bytes, dir: Directory<T>)
    ensures ParseQuote(msg, dir) == Crashed <==> Suffix(En) <= msg
  {
    PanicsExactly(msg);
  }

  /** A message that is no printed quote, and does not make the parser panic, is kept as it is. */
  lemma PlainMessage<T>(msg: Bytes, dir: Directory<T>)
    requires !(Suffix(En) <= msg) && forall f, quote, body :: msg != Print(f, quote, body)
    ensures ParseQuote(msg, dir) == Text(msg, None)
  {
    PanicsExactly(msg);
    if GetQuote(msg).Quoted? {
      GetQuoteDecomposes(msg);
    }
  }

  lemma TrimmedOff(s: Bytes, pat: Bytes)
    ensures if pat <= s then s == pat + TrimPrefix(s, pat) else TrimPrefix(s, pat) == s
  {
  }

  /**
   Any printed quote: if the longest name accepted in its window is not empty and the member's id can be
   looked up, the quote is that member's, with the name and its separator taken off; else there is none.
   */
  lemma QuoteOfLongest<T>(f: Form, quote: Bytes, body: Bytes, dir: Directory<T>, name: Bytes, user: Option<T>)
    requires !Contains(Prefix(f) + quote, Suffix(f))
    requires (name, user) == UserIn(quote, Separator(f), dir.search)
    ensures var r := ParseQuote(Print(f, quote, body), dir);
            && IsLongest(Window(quote), Separator(f), dir.search, name, user)
            && r.Text? && r.content == body
            && (user.None? || name == [] || dir.idOf(user.value).None? ==> r.quote == None)
            && (user.Some? && name != [] && dir.idOf(user.value).Some? ==>
                  && r.quote.Some? && r.quote.value.uid == dir.idOf(user.value).value
                  && r.quote.value.name == name && r.quote.value.bot == dir.isBot(user.value)
                  && (if name + Separator(f) <= quote then quote == name + Separator(f) + r.quote.value.content
                      else r.quote.value.content == quote))
  {
    ParsedPrint(f, quote, body, dir);
    UserIsLongest(quote, Separator(f), dir.search);
    TrimmedOff(quote, name + Separator(f));
  }
}
