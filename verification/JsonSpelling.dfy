/** The strings of section 7 of RFC 8259, as a relation between texts and what they spell, written down by character
    codes and apart from the reader of lib/json/jsoncpp.cpp; and the reader held against it. */
module JsonSpelling {
  import opened Sealing
  import opened JsonText
  import opened JsonDecode

  // ---------- what spells what ----------

  /** The short escapes: the code of the letter behind the backslash and of the character meant. */
  predicate ShortEscape(letter: int, code: int) {
    (letter == 0x22 && code == 0x22) || (letter == 0x5C && code == 0x5C) || (letter == 0x2F && code == 0x2F) ||
    (letter == 0x62 && code == 0x08) || (letter == 0x66 && code == 0x0C) || (letter == 0x6E && code == 0x0A) ||
    (letter == 0x72 && code == 0x0D) || (letter == 0x74 && code == 0x09)
  }

  /** A hexadecimal digit in either case. */
  predicate HexDigitOf(code: int, d: int) {
    (0x30 <= code <= 0x39 && d == code - 0x30) || (0x41 <= code <= 0x46 && d == code - 0x41 + 10) ||
    (0x61 <= code <= 0x66 && d == code - 0x61 + 10)
  }

  /** Four digits behind `\u`. */
  predicate FourDigits(t: string, ds: seq<int>) {
    |t| == 6 && |ds| == 4 && forall k :: 0 <= k < 4 ==> HexDigitOf(t[k + 2] as int, ds[k])
  }

  /** `\uXXXX` for the number n. */
  ghost predicate UnicodeEscape(t: string, n: int) {
    |t| == 6 && t[0] as int == 0x5C && t[1] as int == 0x75 &&
    exists ds :: FourDigits(t, ds) && n == ds[0] * 0x1000 + ds[1] * 0x100 + ds[2] * 0x10 + ds[3]
  }

  /** The code point for a high surrogate and its partner. The reader takes any escape for the partner and looks only at
      its last ten bits. */
  predicate Joins(h: int, l: int, cp: int) {
    0xD800 <= h <= 0xDBFF && 0 <= l <= 0xFFFF &&
    cp == 0x10000 + (h - 0xD800) * 0x400 + if 0xDC00 <= l <= 0xDFFF then l - 0xDC00 else l % 0x400
  }

  /** The text t, taken as one, spells the bytes s: a character that stands for itself, a short escape, or the UTF-8
      form of a code point written as one escape or as a pair of surrogates. */
  ghost predicate Piece(t: string, s: string) {
    (|t| == 1 && s == t && t[0] as int != 0x22 && t[0] as int != 0x5C) ||
    (|t| == 2 && t[0] as int == 0x5C && |s| == 1 && ShortEscape(t[1] as int, s[0] as int)) ||
    (exists n :: UnicodeEscape(t, n) && !(0xD800 <= n <= 0xDBFF) && FromUtf8(s) == Some(n)) ||
    (|t| == 12 && exists h, l, cp ::
       UnicodeEscape(t[..6], h) && UnicodeEscape(t[6..], l) && Joins(h, l, cp) && FromUtf8(s) == Some(cp))
  }

  datatype Spelling = Spelling(text: string, meant: string)

  ghost predicate AllPieces(ps: seq<Spelling>) {
    forall k :: 0 <= k < |ps| ==> Piece(ps[k].text, ps[k].meant)
  }

  function Joined(ps: seq<Spelling>): string {
    if ps == [] then "" else ps[0].text + Joined(ps[1..])
  }

  function Meant(ps: seq<Spelling>): string {
    if ps == [] then "" else ps[0].meant + Meant(ps[1..])
  }

  /** The text is such pieces one after the other, and together they mean s. */
  ghost predicate Spells(text: string, s: string) {
    exists ps :: AllPieces(ps) && Joined(ps) == text && Meant(ps) == s
  }

  // ---------- the reader on one piece ----------

  lemma HexIsDigit(c: char, d: int)
    ensures HexDigitOf(c as int, d) <==> d >= 0 && HexValue(c) == Some(d)
  {
  }

  lemma ShortIsEscape(c: char, d: char)
    ensures ShortEscape(c as int, d as int) <==> Unescaped(c) == Some(d)
  {
  }

  /** No two byte strings are the UTF-8 form of one code point. */
  lemma Utf8Once(s: string, cp: nat)
    requires FromUtf8(s) == Some(cp)
    ensures s == Utf8(cp)
  {
    if |s| == 2 {
      TwoParts(s[0] as int - 0xC0, s[1] as int - 0x80, cp);
    } else if |s| == 3 {
      TwoParts((s[0] as int - 0xE0) * 64 + (s[1] as int - 0x80), s[2] as int - 0x80, cp);
      TwoParts(s[0] as int - 0xE0, s[1] as int - 0x80, cp / 64);
      assert cp / 64 / 64 == cp / 4096;
    } else if |s| == 4 {
      FourParts(s[0] as int - 0xF0, s[1] as int - 0x80, s[2] as int - 0x80, s[3] as int - 0x80, cp);
    }
  }

  lemma TwoParts(a: int, b: int, n: int)
    requires 0 <= b < 64 && n == a * 64 + b
    ensures n / 64 == a && n % 64 == b
  {
  }

  lemma FourParts(a: int, b: int, c: int, d: int, n: int)
    requires 0 <= b < 64 && 0 <= c < 64 && 0 <= d < 64 && n == a * 262144 + b * 4096 + c * 64 + d
    ensures n / 262144 == a && n / 4096 % 64 == b && n / 64 % 64 == c && n % 64 == d
  {
    TwoParts(a * 4096 + b * 64 + c, d, n);
    TwoParts(a * 64 + b, c, n / 64);
    TwoParts(a, b, n / 64 / 64);
    assert n / 64 / 64 == n / 4096 && n / 4096 / 64 == n / 262144;
  }

  /** Four digits are read as the number they are. */
  lemma ReadsHex(t: string, n: int)
    requires |t| >= 6 && UnicodeEscape(t[..6], n)
    ensures t[0] == '\\' && t[1] == 'u' && 0 <= n <= 0xFFFF && FromHex4(t[2..]) == Some(n)
  {
    var u := t[..6];
    var ds :| FourDigits(u, ds) && n == ds[0] * 0x1000 + ds[1] * 0x100 + ds[2] * 0x10 + ds[3];
    forall k | 0 <= k < 4 ensures 0 <= ds[k] < 16 && HexValue(t[2..][k]) == Some(ds[k]) {
      HexIsDigit(u[k + 2], ds[k]);
      assert u[k + 2] == t[2..][k];
    }
  }

  lemma HexReads(t: string)
    requires |t| >= 6 && t[0] == '\\' && t[1] == 'u' && FromHex4(t[2..]).Some?
    ensures UnicodeEscape(t[..6], FromHex4(t[2..]).value)
  {
    var u := t[..6];
    var ds := [HexValue(u[2]).value, HexValue(u[3]).value, HexValue(u[4]).value, HexValue(u[5]).value];
    forall k | 0 <= k < 4 ensures HexDigitOf(u[k + 2] as int, ds[k]) { HexIsDigit(u[k + 2], ds[k]); }
    assert FourDigits(u, ds);
  }

  datatype Taken = Taken(spelled: string, length: nat)

  /** What the reader makes of the start of a text, and how far it then is. */
  function Head(t: string): Option<Taken>
    requires t != ""
  {
    if t[0] != '\\' then Some(Taken([t[0]], 1))
    else if |t| == 1 then None
    else if t[1] == 'u' then
      match CodePoint(t[2..]) case Some((cp, n)) => Some(Taken(Utf8(cp), 2 + n)) case None => None
    else
      match Unescaped(t[1]) case Some(c) => Some(Taken([c], 2)) case None => None
  }

  lemma HeadFirst(t: string)
    requires t != "" && t[0] != '"'
    ensures Head(t).None? ==> Unescape(t) == None
    ensures Head(t).Some? ==> 0 < Head(t).value.length <= |t|
    ensures Head(t).Some? ==> Unescape(t) == Then(Head(t).value.spelled, Unescape(t[Head(t).value.length..]))
  {
  }

  lemma OneEscape(t: string, n: int, s: string)
    requires |t| >= 6 && UnicodeEscape(t[..6], n) && !(0xD800 <= n <= 0xDBFF) && FromUtf8(s) == Some(n)
    ensures Head(t) == Some(Taken(s, 6))
  {
    ReadsHex(t, n);
    Utf8Once(s, n);
  }

  lemma TwoEscapes(t: string, h: int, l: int, cp: int, s: string)
    requires |t| >= 12 && UnicodeEscape(t[..6], h) && UnicodeEscape(t[6..12], l) && Joins(h, l, cp)
    requires FromUtf8(s) == Some(cp)
    ensures Head(t) == Some(Taken(s, 12))
  {
    ReadsHex(t, h);
    assert t[6..][..6] == t[6..12];
    ReadsHex(t[6..], l);
    assert t[6..][2..] == t[8..] == t[2..][6..];
    JoinsBits(h, l, cp);
    Utf8Once(s, cp);
  }

  lemma JoinsBits(h: int, l: int, cp: int)
    requires 0xD800 <= h <= 0xDBFF && 0 <= l <= 0xFFFF
    ensures Joins(h, l, cp) <==> cp == 0x10000 + h % 1024 * 1024 + l % 1024
    ensures 0x10000 <= 0x10000 + h % 1024 * 1024 + l % 1024 <= 0x10FFFF
  {
  }

  /** A piece at the start of a text is what the reader takes from it. */
  lemma PieceIsHead(t: string, i: nat, s: string)
    requires 0 < i <= |t| && Piece(t[..i], s)
    ensures Head(t) == Some(Taken(s, i))
  {
    var u := t[..i];
    if i == 1 {
      assert s == [t[0]];
    } else if i == 2 {
      ShortIsEscape(t[1], s[0]);
      assert s == [s[0]];
      assert Unescaped('u') == None;
    } else if i == 6 {
      var n :| UnicodeEscape(u, n) && !(0xD800 <= n <= 0xDBFF) && FromUtf8(s) == Some(n);
      OneEscape(t, n, s);
    } else {
      var h, l, cp :| UnicodeEscape(u[..6], h) && UnicodeEscape(u[6..], l) && Joins(h, l, cp) &&
          FromUtf8(s) == Some(cp);
      assert u[..6] == t[..6] && u[6..] == t[6..12];
      TwoEscapes(t, h, l, cp, s);
    }
  }

  lemma FoundEscape(t: string)
    requires |t| >= 2 && t[0] == '\\' && t[1] == 'u' && CodePoint(t[2..]).Some?
    ensures 2 + CodePoint(t[2..]).value.1 <= |t|
    ensures Piece(t[..2 + CodePoint(t[2..]).value.1], Utf8(CodePoint(t[2..]).value.0))
  {
    var h := FromHex4(t[2..]).value;
    HexReads(t);
    if 0xD800 <= h <= 0xDBFF {
      var l := FromHex4(t[8..]).value;
      assert t[2..][6..] == t[8..] == t[6..][2..] && t[6] == '\\' && t[7] == 'u';
      HexReads(t[6..]);
      HexBound(t[2..]);
      HexBound(t[8..]);
      var cp := 0x10000 + h % 1024 * 1024 + l % 1024;
      JoinsBits(h, l, cp);
      Utf8RoundTrip(cp);
      assert t[..12][..6] == t[..6] && t[..12][6..] == t[6..][..6];
    } else {
      HexBound(t[2..]);
      Utf8RoundTrip(h);
    }
  }

  lemma HexBound(t: string)
    requires FromHex4(t).Some?
    ensures FromHex4(t).value <= 0xFFFF
  {
  }

  lemma HeadIsPiece(t: string)
    requires t != "" && t[0] != '"' && Head(t).Some?
    ensures 0 < Head(t).value.length <= |t| && Piece(t[..Head(t).value.length], Head(t).value.spelled)
  {
    if t[0] != '\\' {
      assert t[..1] == [t[0]];
    } else if t[1] == 'u' {
      FoundEscape(t);
    } else {
      ShortIsEscape(t[1], Unescaped(t[1]).value);
    }
  }

  // ---------- the reader on whole texts ----------

  lemma NoQuote(t: string, s: string)
    requires Piece(t, s)
    ensures t != "" && t[0] != '"'
  {
    if |t| == 12 { assert t[..6][0] == t[0]; }
  }

  lemma PieceIsRead(t: string, s: string, rest: string)
    requires Piece(t, s)
    ensures Unescape(t + rest) == Then(s, Unescape(rest))
  {
    var text := t + rest;
    NoQuote(t, s);
    assert text[..|t|] == t && text[|t|..] == rest;
    PieceIsHead(text, |t|, s);
    HeadFirst(text);
  }

  lemma ThenTwice(a: string, b: string, r: Option<string>)
    ensures Then(a, Then(b, r)) == Then(a + b, r)
  {
    if r.Some? { assert a + (b + r.value) == a + b + r.value; }
  }

  /** Pieces are read as what they mean, whatever follows. */
  lemma {:induction false} PiecesAreRead(ps: seq<Spelling>, rest: string)
    requires AllPieces(ps)
    ensures Unescape(Joined(ps) + rest) == Then(Meant(ps), Unescape(rest))
  {
    if ps == [] {
      assert Joined(ps) + rest == rest;
      if Unescape(rest).Some? { assert "" + Unescape(rest).value == Unescape(rest).value; }
    } else {
      PiecesAreRead(ps[1..], rest);
      PieceIsRead(ps[0].text, ps[0].meant, Joined(ps[1..]) + rest);
      assert Joined(ps) + rest == ps[0].text + (Joined(ps[1..]) + rest);
      ThenTwice(ps[0].meant, Meant(ps[1..]), Unescape(rest));
    }
  }

  /** No piece stands at the start of the text. */
  ghost predicate NoPiece(t: string) {
    forall u: string, s :: u <= t ==> !Piece(u, s)
  }

  /** Where pieces cannot be continued: at the end, at a quotation mark, or at an escape that is not allowed. */
  ghost predicate Stops(rest: string) {
    rest == "" || rest[0] == '"' || (rest[0] == '\\' && NoPiece(rest))
  }

  lemma HeadOrStop(t: string)
    requires t != "" && t[0] != '"' && Head(t).None?
    ensures t[0] == '\\' && NoPiece(t)
  {
    forall u: string, s | u <= t ensures !Piece(u, s) {
      if Piece(u, s) {
        NoQuote(u, s);
        assert t[..|u|] == u;
        PieceIsHead(t, |u|, s);
      }
    }
  }

  /** Every text is pieces up to where they stop. */
  lemma {:induction false} Dissect(text: string) returns (ps: seq<Spelling>, rest: string)
    ensures AllPieces(ps) && text == Joined(ps) + rest && Stops(rest)
    decreases |text|
  {
    if text == "" || text[0] == '"' {
      ps, rest := [], text;
    } else if Head(text).None? {
      HeadOrStop(text);
      ps, rest := [], text;
    } else {
      HeadFirst(text);
      HeadIsPiece(text);
      var i := Head(text).value.length;
      ps, rest := Dissect(text[i..]);
      ps := Prepend(text, i, Head(text).value.spelled, ps, rest);
    }
  }

  lemma Prepend(text: string, i: nat, s: string, ps: seq<Spelling>, rest: string) returns (more: seq<Spelling>)
    requires i <= |text| && Piece(text[..i], s) && AllPieces(ps) && text[i..] == Joined(ps) + rest
    ensures AllPieces(more) && text == Joined(more) + rest
  {
    more := [Spelling(text[..i], s)] + ps;
    assert more[1..] == ps;
    assert text == text[..i] + text[i..];
    assert text[..i] + (Joined(ps) + rest) == text[..i] + Joined(ps) + rest;
  }

  lemma StopIsRead(rest: string)
    requires Stops(rest)
    ensures Unescape(rest) == if rest == "" || rest[0] == '"' then Some("") else None
  {
    if rest != "" && rest[0] != '"' {
      HeadFirst(rest);
      HeadIsNoStop(rest);
    }
  }

  lemma HeadIsNoStop(t: string)
    requires t != "" && t[0] != '"'
    ensures Head(t).Some? ==> !NoPiece(t)
  {
    if Head(t).Some? {
      HeadIsPiece(t);
      assert t[..Head(t).value.length] <= t;
    }
  }

  /** The text spells s, up to its end or to a quotation mark that is not escaped. */
  ghost predicate SpellsUpTo(text: string, s: string) {
    exists body, rest :: text == body + rest && Spells(body, s) && (rest == "" || rest[0] == '"')
  }

  /** Behind something that can be read, a backslash begins no escape that is allowed. */
  ghost predicate EscapeRefused(text: string) {
    exists body, rest, s :: text == body + rest && Spells(body, s) && rest != "" && rest[0] == '\\' && NoPiece(rest)
  }

  lemma SpelledIsRead(body: string, s: string, rest: string)
    requires Spells(body, s)
    ensures Unescape(body + rest) == Then(s, Unescape(rest))
  {
    var ps :| AllPieces(ps) && Joined(ps) == body && Meant(ps) == s;
    PiecesAreRead(ps, rest);
  }

  /** The characters between the quotes are read as s exactly when they spell s, and refused exactly when an escape that
      is not allowed follows something that can be read. */
  lemma ReadExactly(text: string)
    ensures forall s :: Unescape(text) == Some(s) <==> SpellsUpTo(text, s)
    ensures Unescape(text) == None <==> EscapeRefused(text)
  {
    var ps, rest := Dissect(text);
    PiecesAreRead(ps, rest);
    StopIsRead(rest);
    assert Spells(Joined(ps), Meant(ps));
    if rest == "" || rest[0] == '"' {
      assert Meant(ps) + "" == Meant(ps);
      assert SpellsUpTo(text, Meant(ps));
    }
    forall s | SpellsUpTo(text, s) ensures Unescape(text) == Some(s) { SpelledUpTo(text, s); }
    if EscapeRefused(text) { BadIsRefused(text); }
  }

  lemma SpelledUpTo(text: string, s: string)
    requires SpellsUpTo(text, s)
    ensures Unescape(text) == Some(s)
  {
    var body, rest :| text == body + rest && Spells(body, s) && (rest == "" || rest[0] == '"');
    SpelledIsRead(body, s, rest);
    assert s + "" == s;
  }

  lemma BadIsRefused(text: string)
    requires EscapeRefused(text)
    ensures Unescape(text) == None
  {
    var body, rest, s :| text == body + rest && Spells(body, s) && rest != "" && rest[0] == '\\' && NoPiece(rest);
    SpelledIsRead(body, s, rest);
    StopIsRead(rest);
  }

  /** The text spells `decoded` if `ok`, and otherwise has an escape that is not allowed. */
  ghost predicate Judged(text: string, ok: bool, decoded: string) {
    forall k :: Seal(Squeezes, k) ==> if ok then SpellsUpTo(text, decoded) else EscapeRefused(text)
  }

  lemma MeansExactly(text: string, ok: bool, decoded: string)
    requires Means(text, ok, decoded)
    ensures Judged(text, ok, decoded)
  {
    assert Seal(Readings, 0);
    ReadExactly(text);
  }
}
