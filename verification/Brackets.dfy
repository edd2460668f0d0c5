/** Cutting a text after an opening bracket and around the first closing one, for any brackets. */
module Brackets {
  import opened Common
  import opened GoStrings

  datatype Pieces<T> = Pieces(inner: seq<T>, rest: seq<T>)

  /**
   The slice from the end of `open` to the first `close`, and what follows; None when its end lies
   before its start.
   */
  function Cut<T(==)>(msg: seq<T>, open: seq<T>, close: seq<T>): Option<Pieces<T>> {
    var lo, hi := |open|, Index(msg, close);
    if !(lo <= hi <= |msg|) then None
    else Some(Pieces(msg[lo..hi], TrimPrefix(msg, open + msg[lo..hi] + close)))
  }

  function Enclose<T>(open: seq<T>, inner: seq<T>, close: seq<T>, rest: seq<T>): seq<T> {
    open + inner + close + rest
  }

  lemma CutDecomposes<T>(msg: seq<T>, open: seq<T>, close: seq<T>)
    requires open <= msg && Contains(msg, close) && Index(msg, close) >= |open|
    ensures var c := Cut(msg, open, close);
            c.Some? && msg == Enclose(open, c.value.inner, close, c.value.rest)
            && Index(msg, close) == |open + c.value.inner|
  {
    CutAtIndex(msg, close);
    var i := Index(msg, close);
    assert msg[..i] == open + msg[|open|..i];
    assert (msg[..i] + close) <= msg;
    assert msg[|msg[..i] + close|..] == msg[i + |close|..];
  }

  lemma CloseOccurs<T>(inner: seq<T>, close: seq<T>, rest: seq<T>)
    ensures var msg := inner + close + rest; Contains(msg, close) && Index(msg, close) <= |inner|
  {
    var msg := inner + close + rest;
    assert msg[|inner|..] == close + rest;
    FirstOccurrence(msg, close, |inner|);
  }

  lemma EncloseOpensAndCloses<T>(open: seq<T>, inner: seq<T>, close: seq<T>, rest: seq<T>)
    ensures var msg := Enclose(open, inner, close, rest); open <= msg && Contains(msg, close)
  {
    assert Enclose(open, inner, close, rest) == open + (inner + close + rest);
    CloseOccurs(open + inner, close, rest);
  }

  /** An occurrence before the bracket that was put in lies wholly before it. */
  lemma EarlierOccurrence<T>(inner: seq<T>, close: seq<T>, rest: seq<T>, i: nat)
    requires HeadOnce(close) && i < |inner| && OccursAt(inner + close + rest, close, i)
    ensures OccursAt(inner, close, i)
  {
    var msg := inner + close + rest;
    assert msg[|inner|..] == close + rest;
    NoOverlap(msg, close, i, |inner|);
    assert inner[i..] == msg[i..][..|inner| - i];
  }

  lemma OccurrenceStays<T>(inner: seq<T>, close: seq<T>, rest: seq<T>, i: nat)
    requires OccursAt(inner, close, i)
    ensures OccursAt(inner + close + rest, close, i)
  {
    assert (inner + close + rest)[i..] == inner[i..] + (close + rest);
  }

  /** The first closing bracket is the one put in exactly when there is none before it. */
  lemma FirstCloseExactly<T>(inner: seq<T>, close: seq<T>, rest: seq<T>)
    requires HeadOnce(close)
    ensures Index(inner + close + rest, close) == |inner| <==> !Contains(inner, close)
  {
    var msg := inner + close + rest;
    CloseOccurs(inner, close, rest);
    if Index(msg, close) < |inner| {
      IndexOccurs(msg, close);
      EarlierOccurrence(inner, close, rest, Index(msg, close));
      FirstOccurrence(inner, close, Index(msg, close));
    }
    if Contains(inner, close) {
      IndexOccurs(inner, close);
      OccurrenceStays(inner, close, rest, Index(inner, close));
      FirstOccurrence(msg, close, Index(inner, close));
    }
  }

  /** Cutting undoes enclosing exactly when no closing bracket ends within the inner text. */
  lemma CutOfEncloseExactly<T>(open: seq<T>, inner: seq<T>, close: seq<T>, rest: seq<T>)
    requires HeadOnce(close)
    ensures Cut(Enclose(open, inner, close, rest), open, close) == Some(Pieces(inner, rest))
            <==> !Contains(open + inner, close)
  {
    var msg := Enclose(open, inner, close, rest);
    FirstCloseExactly(open + inner, close, rest);
    CloseOccurs(open + inner, close, rest);
    if Contains(open + inner, close) {
      var c := Cut(msg, open, close);
      assert c.Some? ==> |c.value.inner| == Index(msg, close) - |open| < |inner|;
    } else {
      assert msg[|open|..|open + inner|] == inner;
      assert msg == (open + inner + close) + rest;
    }
  }
}
