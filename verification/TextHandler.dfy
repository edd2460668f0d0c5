/** The text handler of hub.go: trimming, then for a group message the quote, then the mention in the reply. */
module TextHandler {
  import opened Common
  import opened GoStrings
  import opened Utf8
  import opened Quotes
  import opened Names
  import opened QuoteRoundTrip
  import opened Mentions

  /** `Crash` is the panic of the quote parser. */
  datatype Outcome = Crash | Outcome(content: Bytes, quote: Option<Quote>, at: Option<At>)

  /** `raw` is the message with its emoji formatted; `self` as for a mention. */
  function Handle<T>(raw: Bytes, fromGroup: bool, self: Option<Option<T>>, dir: Directory<T>): Outcome {
    var msg := TrimSpace(raw);
    if !fromGroup then Outcome(msg, None, None)
    else
      match ParseQuote(msg, dir)
      case Crashed => Crash
      case Text(reply, quote) =>
        var m := ParseMention(reply, self, dir);
        Outcome(m.content, quote, m.at)
  }

  method OnText<T>(raw: Bytes, fromGroup: bool, self: Option<Option<T>>, dir: Directory<T>) returns (r: Outcome)
    ensures r == Handle(raw, fromGroup, self, dir)
  {
    var msgContent, quote: Option<Quote>, at: Option<At> := TrimSpace(raw), None, None;
    if fromGroup {
      var text := SplitQuote(msgContent, dir);
      if text.Crashed? {
        return Crash;
      }
      msgContent, quote := text.content, text.quote;
      var mentioned := FindMention(msgContent, self, dir);
      msgContent, at := mentioned.content, mentioned.at;
    }
    return Outcome(msgContent, quote, at);
  }

  /** Outside groups a text is trimmed and nothing else. */
  lemma PrivateText<T>(raw: Runes, self: Option<Option<T>>, dir: Directory<T>)
    ensures Handle(EncodeAll(raw), false, self, dir) == Outcome(EncodeAll(TrimRunes(raw)), None, None)
  {
    TrimSpaceAgrees(raw);
  }

  /** In a group a text that quotes nobody and has no @ is trimmed and nothing else. */
  lemma PlainGroupText<T>(raw: Runes, dir: Directory<T>)
    requires var msg := EncodeAll(TrimRunes(raw));
             AT !in TrimRunes(raw) && !(Suffix(En) <= msg) && forall f, quote, body :: msg != Print(f, quote, body)
    ensures Handle(EncodeAll(raw), true, None, dir) == Outcome(EncodeAll(TrimRunes(raw)), None, None)
  {
    TrimSpaceAgrees(raw);
    PlainMessage(EncodeAll(TrimRunes(raw)), dir);
    NoMention(TrimRunes(raw), dir);
  }

  /** The handler panics on a group message whose trimmed text starts with the English suffix, and on no other. */
  lemma PanicsExactly<T>(raw: Bytes, fromGroup: bool, self: Option<Option<T>>, dir: Directory<T>)
    ensures Handle(raw, fromGroup, self, dir) == Crash <==> fromGroup && Suffix(En) <= TrimSpace(raw)
  {
    CrashesExactly(TrimSpace(raw), dir);
  }

  /** A printed quote with a mention in its reply: both are stored, the mention with its span in the reply. */
  lemma QuoteAndMention<T>(raw: Bytes, f: Form, quote: Bytes, pre: Runes, name: Runes, post: Runes, dir: Directory<T>)
    requires AT !in pre && MARK !in name && !Contains(Prefix(f) + quote, Suffix(f))
    requires TrimSpace(raw) == Print(f, quote, EncodeAll(pre + [AT] + (name + [MARK] + post)))
    ensures var reply := pre + [AT] + (name + [MARK] + post);
            var m := StoredFor(reply, TrimRunes(name), dir.search(EncodeAll(TrimRunes(name))), dir);
            Handle(raw, true, None, dir) == Outcome(m.content, QuoteIn(quote, f, dir), m.at)
  {
    ParsedPrint(f, quote, EncodeAll(pre + [AT] + (name + [MARK] + post)), dir);
    MarkedMention(pre, name, post, dir);
  }

  /** A printed quote whose reply is for the bot: the mention is the bot's, under the name it is shown. */
  lemma QuoteToBot<T>(raw: Bytes, f: Form, quote: Bytes, reply: Runes, name: Runes, bot: Option<T>, dir: Directory<T>)
    requires !Contains(Prefix(f) + quote, Suffix(f)) && TrimSpace(raw) == Print(f, quote, EncodeAll(reply))
    requires bot.Some? ==>
               EncodeAll(name) == dir.formatEmoji(if dir.displayName(bot.value) == [] then dir.nickName(bot.value)
                                                  else dir.displayName(bot.value))
    ensures var m := StoredFor(reply, name, bot, dir);
            Handle(raw, true, Some(bot), dir) == Outcome(m.content, QuoteIn(quote, f, dir), m.at)
  {
    ParsedPrint(f, quote, EncodeAll(reply), dir);
    BotMention(reply, name, bot, dir);
  }
}
