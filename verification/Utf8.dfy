/**
 UTF-8 as in section 3 of RFC 3629, and the conversions between Go strings and runes. A string is
 any sequence of bytes; a byte that starts no valid encoding becomes the replacement character.
 */
module Utf8 {
  import opened GoStrings

  type Byte = b: int | 0 <= b < 256
  type Bytes = seq<Byte>

  /** A Unicode scalar value. */
  type Rune = r: int | 0 <= r < 0xD800 || 0xE000 <= r < 0x110000
  type Runes = seq<Rune>

  const REPLACEMENT: Rune := 0xFFFD

  function Encode(r: Rune): (b: Bytes)
    ensures 1 <= |b| <= 4
  {
    if r < 0x80 then [r]
    else if r < 0x800 then [0xC0 + r / 64, 0x80 + r % 64]
    else if r < 0x10000 then [0xE0 + r / 64 / 64, 0x80 + r / 64 % 64, 0x80 + r % 64]
    else [0xF0 + r / 64 / 64 / 64, 0x80 + r / 64 / 64 % 64, 0x80 + r / 64 % 64, 0x80 + r % 64]
  }

  predicate Continuation(b: Byte) {
    0x80 <= b < 0xC0
  }

  /** The length of the sequence a leading byte announces; 0 when it cannot lead. */
  function Announced(b: Byte): nat {
    if b < 0x80 then 1
    else if 0xC2 <= b < 0xE0 then 2
    else if 0xE0 <= b < 0xF0 then 3
    else if 0xF0 <= b < 0xF5 then 4
    else 0
  }

  /** The second byte is confined so that no value is encoded twice, no surrogate and none too large. */
  predicate SecondOk(b: Byte, second: Byte) {
    && Continuation(second)
    && (b == 0xE0 ==> second >= 0xA0) && (b == 0xED ==> second < 0xA0)
    && (b == 0xF0 ==> second >= 0x90) && (b == 0xF4 ==> second < 0x90)
  }

  predicate Leads(s: Bytes) {
    s != [] && var n := Announced(s[0]);
    && 1 <= n <= |s|
    && (n >= 2 ==> SecondOk(s[0], s[1])) && (n >= 3 ==> Continuation(s[2])) && (n >= 4 ==> Continuation(s[3]))
  }

  /** The six payload bits of a continuation byte. */
  function Bits(b: Byte): int {
    b as int - 0x80
  }

  function Value(s: Bytes): Rune
    requires Leads(s)
  {
    match Announced(s[0])
    case 1 => s[0]
    case 2 => (s[0] as int - 0xC0) * 64 + Bits(s[1])
    case 3 => ((s[0] as int - 0xE0) * 64 + Bits(s[1])) * 64 + Bits(s[2])
    case _ => (((s[0] as int - 0xF0) * 64 + Bits(s[1])) * 64 + Bits(s[2])) * 64 + Bits(s[3])
  }

  /** The first rune of a string and the bytes it takes. */
  function DecodeFirst(s: Bytes): (d: (Rune, nat))
    requires s != []
    ensures 1 <= d.1 <= |s|
  {
    if Leads(s) then (Value(s), Announced(s[0])) else (REPLACEMENT, 1)
  }

  /** `[]rune(s)`. */
  function Decode(s: Bytes): Runes {
    if s == [] then [] else
      var (r, n) := DecodeFirst(s);
      [r] + Decode(s[n..])
  }

  /** `string(rs)`. */
  function EncodeAll(rs: Runes): (b: Bytes)
    ensures |b| >= |rs|
  {
    if rs == [] then [] else Encode(rs[0]) + EncodeAll(rs[1..])
  }

  lemma EncodeShape(r: Rune)
    ensures Leads(Encode(r)) && Value(Encode(r)) == r && Announced(Encode(r)[0]) == |Encode(r)|
    ensures !Continuation(Encode(r)[0]) && forall i :: 1 <= i < |Encode(r)| ==> Continuation(Encode(r)[i])
  {
    if r < 0x80 {
    } else if r < 0x800 {
    } else if r < 0x10000 {
      var q := r / 64;
      assert r == q * 64 + r % 64 && q == q / 64 * 64 + q % 64;
    } else {
      var q := r / 64;
      var p := q / 64;
      assert r == q * 64 + r % 64 && q == p * 64 + q % 64 && p == p / 64 * 64 + p % 64;
    }
  }

  /** Bytes that lead a sequence are the encoding of its value. */
  lemma LeadsIsEncoded(s: Bytes)
    requires Leads(s)
    ensures Encode(Value(s)) == s[..Announced(s[0])]
  {
    var b0 := s[0] as int;
    match Announced(s[0])
    case 1 =>
    case 2 =>
      SixBits(b0 - 0xC0, Bits(s[1]));
    case 3 =>
      SixBits(b0 - 0xE0, Bits(s[1]));
      SixBits((b0 - 0xE0) * 64 + Bits(s[1]), Bits(s[2]));
    case _ =>
      SixBits(b0 - 0xF0, Bits(s[1]));
      SixBits((b0 - 0xF0) * 64 + Bits(s[1]), Bits(s[2]));
      SixBits(((b0 - 0xF0) * 64 + Bits(s[1])) * 64 + Bits(s[2]), Bits(s[3]));
  }

  lemma SixBits(high: int, low: int)
    requires 0 <= low < 64
    ensures (high * 64 + low) / 64 == high && (high * 64 + low) % 64 == low
  {
  }

  /** A byte with which no encoding starts becomes the replacement character U+FFFD, and decoding goes on after it. */
  lemma InvalidByte(b: Byte, rest: Bytes)
    requires forall r: Rune :: !(Encode(r) <= [b] + rest)
    ensures Decode([b] + rest) == [0xFFFD] + Decode(rest)
  {
    var s := [b] + rest;
    if Leads(s) {
      LeadsIsEncoded(s);
    }
    assert s[1..] == rest;
  }

  /** The examples of section 7 of RFC 3629: one character of each length. */
  lemma RfcExamples()
    ensures Encode(0x41) == [0x41] && Encode(0x0391) == [0xCE, 0x91]
    ensures Encode(0x2262) == [0xE2, 0x89, 0xA2] && Encode(0x65E5) == [0xE6, 0x97, 0xA5]
    ensures Encode(0x233B4) == [0xF0, 0xA3, 0x8E, 0xB4]
  {
  }

  lemma DecodeFirstOfEncode(r: Rune, rest: Bytes)
    ensures DecodeFirst(Encode(r) + rest) == (r, |Encode(r)|)
  {
    EncodeShape(r);
    var s := Encode(r) + rest;
    assert forall i :: 0 <= i < |Encode(r)| ==> s[i] == Encode(r)[i];
  }

  lemma {:induction false} DecodeEncodeAll(rs: Runes)
    ensures Decode(EncodeAll(rs)) == rs
  {
    if rs != [] {
      DecodeFirstOfEncode(rs[0], EncodeAll(rs[1..]));
      DecodeEncodeAll(rs[1..]);
      assert (Encode(rs[0]) + EncodeAll(rs[1..]))[|Encode(rs[0])|..] == EncodeAll(rs[1..]);
    }
  }

  lemma {:induction false} EncodeAllConcat(a: Runes, b: Runes)
    ensures EncodeAll(a + b) == EncodeAll(a) + EncodeAll(b)
  {
    if a == [] {
      assert a + b == b;
    } else {
      assert (a + b)[1..] == a[1..] + b;
      EncodeAllConcat(a[1..], b);
    }
  }

  lemma PeelFirst(x: Rune, xs: Runes, ts: Runes, rest: Bytes)
    requires EncodeAll(ts) == Encode(x) + (EncodeAll(xs) + rest)
    ensures ts != [] && ts[0] == x && EncodeAll(ts[1..]) == EncodeAll(xs) + rest
  {
    assert ts != [];
    DecodeFirstOfEncode(x, EncodeAll(xs) + rest);
    DecodeFirstOfEncode(ts[0], EncodeAll(ts[1..]));
    assert EncodeAll(ts)[|Encode(x)|..] == EncodeAll(xs) + rest;
    assert EncodeAll(ts)[|Encode(x)|..] == EncodeAll(ts[1..]);
  }

  lemma {:induction false} BytePrefixDecodes(xs: Runes, ts: Runes, rest: Bytes)
    requires EncodeAll(ts) == EncodeAll(xs) + rest
    ensures xs <= ts
  {
    if xs != [] {
      PeelFirst(xs[0], xs[1..], ts, rest);
      BytePrefixDecodes(xs[1..], ts[1..], rest);
      assert xs == [xs[0]] + xs[1..] && ts == [ts[0]] + ts[1..];
    }
  }

  /** No encoding is a proper prefix of another text: byte prefixes of valid text are rune prefixes. */
  lemma BytePrefixIsRunePrefix(xs: Runes, ts: Runes)
    ensures EncodeAll(xs) <= EncodeAll(ts) <==> xs <= ts
  {
    if xs <= ts {
      EncodeAllConcat(xs, ts[|xs|..]);
      assert ts == xs + ts[|xs|..];
    }
    if EncodeAll(xs) <= EncodeAll(ts) {
      var rest := EncodeAll(ts)[|EncodeAll(xs)|..];
      assert EncodeAll(ts) == EncodeAll(xs) + rest;
      BytePrefixDecodes(xs, ts, rest);
    }
  }

  /** An occurrence that does not start at the first rune starts after it. */
  lemma OccurrenceSkipsRune(ts: Runes, xs: Runes, p: nat)
    requires xs != [] && p > 0 && OccursAt(EncodeAll(ts), EncodeAll(xs), p)
    ensures ts != [] && p >= |Encode(ts[0])| && OccursAt(EncodeAll(ts[1..]), EncodeAll(xs), p - |Encode(ts[0])|)
  {
    var s := EncodeAll(ts);
    EncodeShape(ts[0]);
    EncodeShape(xs[0]);
    assert s[p] == s[p..][0] == EncodeAll(xs)[0] == Encode(xs[0])[0];
    assert forall i :: 0 <= i < |Encode(ts[0])| ==> s[i] == Encode(ts[0])[i];
    assert s[p..] == EncodeAll(ts[1..])[p - |Encode(ts[0])|..];
  }

  /** Self-synchronisation: non-empty valid text occurs in valid text only at rune boundaries. */
  lemma {:induction false} OccurrenceAtRune(ts: Runes, xs: Runes, p: nat) returns (k: nat)
    requires xs != [] && OccursAt(EncodeAll(ts), EncodeAll(xs), p)
    ensures k <= |ts| && p == |EncodeAll(ts[..k])| && OccursAt(ts, xs, k)
  {
    if p == 0 {
      k := 0;
      assert EncodeAll(ts)[0..] == EncodeAll(ts);
      BytePrefixIsRunePrefix(xs, ts);
      assert ts[0..] == ts;
    } else {
      OccurrenceSkipsRune(ts, xs, p);
      var j := OccurrenceAtRune(ts[1..], xs, p - |Encode(ts[0])|);
      k := j + 1;
      assert ts[k..] == ts[1..][j..];
      assert ts[..k][1..] == ts[1..][..j];
    }
  }

  lemma OccurrenceOfRunes(ts: Runes, xs: Runes, k: nat)
    requires OccursAt(ts, xs, k)
    ensures OccursAt(EncodeAll(ts), EncodeAll(xs), |EncodeAll(ts[..k])|)
  {
    EncodeAllConcat(ts[..k], ts[k..]);
    assert ts == ts[..k] + ts[k..];
    BytePrefixIsRunePrefix(xs, ts[k..]);
  }

  lemma LongerEncodesLonger(ts: Runes, i: nat, j: nat)
    requires i <= j <= |ts|
    ensures |EncodeAll(ts[..i])| <= |EncodeAll(ts[..j])|
  {
    EncodeAllConcat(ts[..i], ts[i..j]);
    assert ts[..j] == ts[..i] + ts[i..j];
  }

  /** Byte search agrees with code-point search. */
  lemma ByteIndexIsRuneIndex(ts: Runes, xs: Runes)
    requires xs != []
    ensures Index(EncodeAll(ts), EncodeAll(xs)) == if Index(ts, xs) < 0 then -1 else |EncodeAll(ts[..Index(ts, xs)])|
    ensures Index(ts, xs) >= 0 ==> OccursAt(ts, xs, Index(ts, xs))
  {
    var i, p := Index(ts, xs), Index(EncodeAll(ts), EncodeAll(xs));
    if i >= 0 {
      IndexOccurs(ts, xs);
      OccurrenceOfRunes(ts, xs, i);
      FirstOccurrence(EncodeAll(ts), EncodeAll(xs), |EncodeAll(ts[..i])|);
    }
    if p >= 0 {
      IndexOccurs(EncodeAll(ts), EncodeAll(xs));
      var k := OccurrenceAtRune(ts, xs, p);
      FirstOccurrence(ts, xs, k);
      LongerEncodesLonger(ts, i, k);
    }
  }

  // ----- Trimming -----

  /** Unicode white space, as unicode.IsSpace has it. */
  predicate IsSpace(r: Rune) {
    0x09 <= r <= 0x0D || r == 0x20 || r == 0x85 || r == 0xA0 || r == 0x1680 || 0x2000 <= r <= 0x200A
    || r == 0x2028 || r == 0x2029 || r == 0x202F || r == 0x205F || r == 0x3000
  }

  /** The code points with Unicode's White_Space property. */
  lemma WhiteSpace(r: Rune)
    ensures IsSpace(r)
            <==> r in {0x09, 0x0A, 0x0B, 0x0C, 0x0D, 0x20, 0x85, 0xA0, 0x1680, 0x2000, 0x2001, 0x2002, 0x2003, 0x2004,
                       0x2005, 0x2006, 0x2007, 0x2008, 0x2009, 0x200A, 0x2028, 0x2029, 0x202F, 0x205F, 0x3000}
  {
  }

  function TrimLeft(s: Bytes): Bytes {
    if s != [] && IsSpace(DecodeFirst(s).0) then TrimLeft(s[DecodeFirst(s).1..]) else s
  }

  /** The last `n` bytes are one white space rune. */
  predicate EndsInSpace(s: Bytes, n: nat) {
    1 <= n <= |s| && DecodeFirst(s[|s| - n..]).1 == n && IsSpace(DecodeFirst(s[|s| - n..]).0)
  }

  /** White space takes at most three bytes. */
  function TrailingSpace(s: Bytes): (n: nat)
    ensures n <= |s|
  {
    if EndsInSpace(s, 1) then 1 else if EndsInSpace(s, 2) then 2 else if EndsInSpace(s, 3) then 3 else 0
  }

  function TrimRight(s: Bytes): Bytes {
    var n := TrailingSpace(s);
    if n > 0 then TrimRight(s[..|s| - n]) else s
  }

  function TrimSpace(s: Bytes): Bytes {
    TrimRight(TrimLeft(s))
  }

  function TrimLeftRunes(rs: Runes): Runes {
    if rs != [] && IsSpace(rs[0]) then TrimLeftRunes(rs[1..]) else rs
  }

  function TrimRightRunes(rs: Runes): Runes {
    if rs != [] && IsSpace(rs[|rs| - 1]) then TrimRightRunes(rs[..|rs| - 1]) else rs
  }

  function TrimRunes(rs: Runes): Runes {
    TrimRightRunes(TrimLeftRunes(rs))
  }

  lemma {:induction false} TrimLeftAgrees(rs: Runes)
    ensures TrimLeft(EncodeAll(rs)) == EncodeAll(TrimLeftRunes(rs))
  {
    if rs != [] {
      DecodeFirstOfEncode(rs[0], EncodeAll(rs[1..]));
      assert EncodeAll(rs)[|Encode(rs[0])|..] == EncodeAll(rs[1..]);
      TrimLeftAgrees(rs[1..]);
    }
  }

  /** Valid text ends in white space exactly when its last rune is white space, over that rune's bytes. */
  lemma EndsInLastRune(s: Bytes, r: Rune, n: nat)
    ensures EndsInSpace(s + Encode(r), n) <==> n == |Encode(r)| && IsSpace(r)
  {
    var e := Encode(r);
    var t := s + e;
    EncodeShape(r);
    if 1 <= n <= |t| {
      var tail := t[|t| - n..];
      if n == |e| {
        DecodeFirstOfEncode(r, []);
        assert tail == e == e + [];
      } else if n < |e| {
        assert tail[0] == e[|e| - n];
      } else {
        assert tail[n - |e|] == e[0];
      }
    }
  }

  lemma SpaceIsShort(r: Rune)
    requires IsSpace(r)
    ensures |Encode(r)| <= 3
  {
  }

  lemma TrailingSpaceOf(s: Bytes, r: Rune)
    ensures TrailingSpace(s + Encode(r)) == if IsSpace(r) then |Encode(r)| else 0
  {
    EndsInLastRune(s, r, 1);
    EndsInLastRune(s, r, 2);
    EndsInLastRune(s, r, 3);
    if IsSpace(r) {
      SpaceIsShort(r);
    }
  }

  lemma EncodeOne(r: Rune)
    ensures EncodeAll([r]) == Encode(r)
  {
    assert [r][1..] == [];
  }

  lemma EncodeLast(rs: Runes)
    requires rs != []
    ensures EncodeAll(rs) == EncodeAll(rs[..|rs| - 1]) + Encode(rs[|rs| - 1])
  {
    var init, last := rs[..|rs| - 1], rs[|rs| - 1];
    assert rs == init + [last];
    EncodeAllConcat(init, [last]);
    EncodeOne(last);
  }

  lemma {:induction false} TrimRightAgrees(rs: Runes)
    ensures TrimRight(EncodeAll(rs)) == EncodeAll(TrimRightRunes(rs))
  {
    if rs != [] {
      var s, last := EncodeAll(rs[..|rs| - 1]), rs[|rs| - 1];
      EncodeLast(rs);
      TrailingSpaceOf(s, last);
      if IsSpace(last) {
        assert EncodeAll(rs)[..|EncodeAll(rs)| - |Encode(last)|] == s;
        TrimRightAgrees(rs[..|rs| - 1]);
      }
    }
  }

  /** Trimming bytes agrees with trimming code points. */
  lemma TrimSpaceAgrees(rs: Runes)
    ensures TrimSpace(EncodeAll(rs)) == EncodeAll(TrimRunes(rs))
  {
    TrimLeftAgrees(rs);
    TrimRightAgrees(TrimLeftRunes(rs));
  }

  predicate AllSpace(rs: Runes) {
    forall i :: 0 <= i < |rs| ==> IsSpace(rs[i])
  }

  lemma {:induction false} TrimRightOfConcat(a: Runes, b: Runes)
    ensures TrimRightRunes(a + b) == if AllSpace(b) then TrimRightRunes(a) else a + TrimRightRunes(b)
    ensures !AllSpace(b) ==> TrimRightRunes(b) != []
  {
    if b == [] {
      assert a + b == a;
    } else {
      var init, last := b[..|b| - 1], b[|b| - 1];
      assert (a + b)[..|a + b| - 1] == a + init && (a + b)[|a + b| - 1] == last;
      if IsSpace(last) {
        TrimRightOfConcat(a, init);
        assert AllSpace(b) <==> AllSpace(init);
      }
    }
  }
}
