/** How lib/json/jsoncpp.cpp spells strings and numbers, and how its reader understands them. Text is bytes. */
module JsonText {
  import opened Arithmetic
  import opened Numerals

  datatype Option<T> = None | Some(value: T)

  // ---------- UTF-8 ----------

  function Byte(n: nat): char
    requires n < 256
  {
    n as char
  }

  /** The source's `codePointToUTF8`. */
  function Utf8(cp: nat): string {
    if cp <= 0x7F then [Byte(cp)]
    else if cp <= 0x7FF then [Byte(0xC0 + cp / 64), Byte(0x80 + cp % 64)]
    else if cp <= 0xFFFF then [Byte(0xE0 + cp / 4096), Byte(0x80 + cp / 64 % 64), Byte(0x80 + cp % 64)]
    else if cp <= 0x10FFFF then
      [Byte(0xF0 + cp / 262144), Byte(0x80 + cp / 4096 % 64), Byte(0x80 + cp / 64 % 64), Byte(0x80 + cp % 64)]
    else ""
  }

  predicate IsContinuation(c: char) {
    0x80 <= c as int < 0xC0
  }

  /** The code point a UTF-8 sequence encodes (section 3 of RFC 3629); None for anything ill-formed. */
  function FromUtf8(s: string): Option<nat> {
    if |s| == 1 && s[0] as int < 0x80 then Some(s[0] as int)
    else if |s| == 2 && 0xC2 <= s[0] as int < 0xE0 && IsContinuation(s[1]) then
      Some((s[0] as int - 0xC0) * 64 + (s[1] as int - 0x80))
    else if |s| == 3 && 0xE0 <= s[0] as int < 0xF0 && IsContinuation(s[1]) && IsContinuation(s[2]) then
      var cp := (s[0] as int - 0xE0) * 4096 + (s[1] as int - 0x80) * 64 + (s[2] as int - 0x80);
      if cp >= 0x800 then Some(cp) else None
    else if |s| == 4 && 0xF0 <= s[0] as int < 0xF5 && IsContinuation(s[1]) && IsContinuation(s[2]) &&
        IsContinuation(s[3]) then
      var cp := (s[0] as int - 0xF0) * 262144 + (s[1] as int - 0x80) * 4096 + (s[2] as int - 0x80) * 64 +
          (s[3] as int - 0x80);
      if 0x10000 <= cp <= 0x10FFFF then Some(cp) else None
    else None
  }

  lemma Sixths(cp: nat)
    ensures cp == cp / 64 * 64 + cp % 64
    ensures cp == cp / 4096 * 4096 + cp / 64 % 64 * 64 + cp % 64
    ensures cp == cp / 262144 * 262144 + cp / 4096 % 64 * 4096 + cp / 64 % 64 * 64 + cp % 64
  {
    var a := cp / 64;
    var b := a / 64;
    assert cp / 4096 == b && cp / 262144 == b / 64;
  }

  lemma Utf8Two(cp: nat)
    requires 0x80 <= cp <= 0x7FF
    ensures FromUtf8(Utf8(cp)) == Some(cp)
  {
    var s := Utf8(cp);
    assert s[0] as int == 0xC0 + cp / 64 && s[1] as int == 0x80 + cp % 64;
  }

  lemma Utf8Three(cp: nat)
    requires 0x800 <= cp <= 0xFFFF
    ensures FromUtf8(Utf8(cp)) == Some(cp)
  {
    var s := Utf8(cp);
    Sixths(cp);
    assert s[0] as int == 0xE0 + cp / 4096 && s[1] as int == 0x80 + cp / 64 % 64 && s[2] as int == 0x80 + cp % 64;
  }

  lemma Utf8Four(cp: nat)
    requires 0x10000 <= cp <= 0x10FFFF
    ensures FromUtf8(Utf8(cp)) == Some(cp)
  {
    var s := Utf8(cp);
    Sixths(cp);
    assert s[0] as int == 0xF0 + cp / 262144 && s[1] as int == 0x80 + cp / 4096 % 64;
    assert s[2] as int == 0x80 + cp / 64 % 64 && s[3] as int == 0x80 + cp % 64;
  }

  /** Every code point is encoded in its shortest form and decodes to itself. */
  lemma Utf8RoundTrip(cp: nat)
    requires cp <= 0x10FFFF
    ensures FromUtf8(Utf8(cp)) == Some(cp)
  {
    if cp >= 0x10000 { Utf8Four(cp); } else if cp >= 0x800 { Utf8Three(cp); } else if cp >= 0x80 { Utf8Two(cp); }
  }

  // ---------- escapes ----------

  predicate IsControl(c: char) {
    0 < c as int <= 0x1F
  }

  function HexDigit(d: nat): char
    requires d < 16
  {
    if d < 10 then ('0' as int + d) as char else ('A' as int + d - 10) as char
  }

  function HexValue(c: char): Option<nat> {
    if '0' <= c <= '9' then Some(c as int - '0' as int)
    else if 'a' <= c <= 'f' then Some(c as int - 'a' as int + 10)
    else if 'A' <= c <= 'F' then Some(c as int - 'A' as int + 10)
    else None
  }

  /** Four hexadecimal digits, as `setw(4)` and `setfill('0')` print them. */
  function Hex4(n: nat): (s: string)
    requires n < 0x10000
    ensures |s| == 4
  {
    [HexDigit(n / 4096), HexDigit(n / 256 % 16), HexDigit(n / 16 % 16), HexDigit(n % 16)]
  }

  /** How one character is written inside quotes. */
  function Escape(c: char): (s: string)
    ensures |s| >= 1
  {
    if c == '"' then "\\\""
    else if c == '\\' then "\\\\"
    else if c as int == 8 then "\\b"
    else if c as int == 12 then "\\f"
    else if c == '\n' then "\\n"
    else if c == '\r' then "\\r"
    else if c == '\t' then "\\t"
    else if IsControl(c) then "\\u" + Hex4(c as int)
    else [c]
  }

  function Escaped(s: string): string {
    if s == "" then "" else Escape(s[0]) + Escaped(s[1..])
  }

  function Quoted(s: string): string {
    "\"" + Escaped(s) + "\""
  }

  predicate NeedsEscape(c: char) {
    c == '"' || c == '\\' || c as int == 8 || c as int == 12 || c == '\n' || c == '\r' || c == '\t' || IsControl(c)
  }

  lemma {:induction false} NothingToEscape(s: string)
    requires forall i :: 0 <= i < |s| ==> !NeedsEscape(s[i])
    ensures Escaped(s) == s
  {
    if s != "" {
      NothingToEscape(s[1..]);
      assert s == [s[0]] + s[1..];
    }
  }

  /** The first two tests of `valueToQuotedString`: nothing that needs escaping. */
  method IsPlain(s: string) returns (plain: bool)
    ensures plain <==> forall i :: 0 <= i < |s| ==> !NeedsEscape(s[i])
  {
    for i := 0 to |s|
      invariant forall j :: 0 <= j < i ==> !NeedsEscape(s[j])
    {
      if NeedsEscape(s[i]) {
        return false;
      }
    }
    return true;
  }

  lemma {:induction false} EscapedSnoc(s: string, c: char)
    ensures Escaped(s + [c]) == Escaped(s) + Escape(c)
  {
    if s == "" {
      assert "" + [c] == [c] && [c][1..] == "";
    } else {
      EscapedSnoc(s[1..], c);
      assert (s + [c])[1..] == s[1..] + [c];
      assert Escape(s[0]) + Escaped(s[1..]) + Escape(c) == Escape(s[0]) + (Escaped(s[1..]) + Escape(c));
    }
  }

  /** The source's `valueToQuotedString`: the short way for plain strings spells the same as the long one. */
  method QuotedString(s: string) returns (result: string)
    ensures result == Quoted(s)
  {
    var plain := IsPlain(s);
    if plain {
      NothingToEscape(s);
      return "\"" + s + "\"";
    }
    var body := EscapeAll(s);
    return "\"" + body + "\"";
  }

  /** The loop of `valueToQuotedString`. */
  method EscapeAll(s: string) returns (result: string)
    ensures result == Escaped(s)
  {
    result := "";
    for i := 0 to |s|
      invariant result == Escaped(s[..i])
    {
      EscapedSnoc(s[..i], s[i]);
      assert s[..i + 1] == s[..i] + [s[i]];
      var c := Escape(s[i]);
      result := result + c;
    }
    assert s[..|s|] == s;
  }

  // ---------- reading escapes ----------

  /** The number four hexadecimal digits at the start of s spell. */
  function FromHex4(s: string): Option<nat> {
    if |s| < 4 then None
    else match (HexValue(s[0]), HexValue(s[1]), HexValue(s[2]), HexValue(s[3]))
      case (Some(a), Some(b), Some(c), Some(d)) => Some(((a * 16 + b) * 16 + c) * 16 + d)
      case _ => None
  }

  /** A code point after `\\u`, and how many characters it takes: four digits, or a surrogate pair of two escapes. */
  function CodePoint(s: string): (r: Option<(nat, nat)>)
    ensures r.Some? ==> 4 <= r.value.1 <= |s|
  {
    match FromHex4(s)
    case None => None
    case Some(h) =>
      if 0xD800 <= h <= 0xDBFF then
        if |s| < 10 || s[4] != '\\' || s[5] != 'u' then None
        else match FromHex4(s[6..])
          case None => None
          case Some(l) => Some((0x10000 + h % 1024 * 1024 + l % 1024, 10))
      else Some((h, 4))
  }

  function Unescaped(c: char): Option<char> {
    match c
    case '"' => Some('"')
    case '/' => Some('/')
    case '\\' => Some('\\')
    case 'b' => Some(8 as char)
    case 'f' => Some(12 as char)
    case 'n' => Some('\n')
    case 'r' => Some('\r')
    case 't' => Some('\t')
    case _ => None
  }

  function Then(d: string, r: Option<string>): Option<string> {
    match r case Some(x) => Some(d + x) case None => None
  }

  /** What the characters between the quotes stand for; None for a bad escape. */
  function Unescape(s: string): Option<string>
    decreases |s|
  {
    if s == "" || s[0] == '"' then Some("")
    else if s[0] != '\\' then Then([s[0]], Unescape(s[1..]))
    else if |s| == 1 then None
    else if s[1] == 'u' then
      match CodePoint(s[2..])
      case Some((cp, n)) => Then(Utf8(cp), Unescape(s[2 + n..]))
      case None => None
    else
      match Unescaped(s[1])
      case Some(c) => Then([c], Unescape(s[2..]))
      case None => None
  }

  lemma HexRoundTrip(d: nat)
    requires d < 16
    ensures HexValue(HexDigit(d)) == Some(d)
  {
  }

  lemma Hex4RoundTrip(n: nat, rest: string)
    requires n < 0x10000
    ensures FromHex4(Hex4(n) + rest) == Some(n)
  {
    HexRoundTrip(n / 4096);
    HexRoundTrip(n / 256 % 16);
    HexRoundTrip(n / 16 % 16);
    HexRoundTrip(n % 16);
    var s := Hex4(n) + rest;
    assert s[0] == HexDigit(n / 4096) && s[1] == HexDigit(n / 256 % 16) && s[2] == HexDigit(n / 16 % 16) &&
        s[3] == HexDigit(n % 16);
    Sixteenths(n);
  }

  lemma Sixteenths(n: nat)
    requires n < 0x10000
    ensures ((n / 4096 * 16 + n / 256 % 16) * 16 + n / 16 % 16) * 16 + n % 16 == n
  {
    var a := n / 16;
    var b := a / 16;
    assert b == n / 256 && b / 16 == n / 4096;
  }

  /** Reading one written character back. */
  lemma UnescapeOne(c: char, rest: string)
    requires 0 < c as int < 256
    ensures Unescape(Escape(c) + rest) == Then([c], Unescape(rest))
  {
    var s := Escape(c) + rest;
    if IsControl(c) && c as int !in {8, 9, 10, 12, 13} {
      assert s[2..] == Hex4(c as int) + rest;
      Hex4RoundTrip(c as int, rest);
      assert s[6..] == rest;
      assert Utf8(c as int) == [c];
    } else if NeedsEscape(c) {
      assert s[2..] == rest;
    } else {
      assert s[1..] == rest;
    }
  }

  predicate NulFree(s: string) {
    forall i :: 0 <= i < |s| ==> 0 < s[i] as int < 256
  }

  /** Reading a written string back. */
  lemma {:induction false} UnescapeEscaped(s: string)
    requires NulFree(s)
    ensures Unescape(Escaped(s)) == Some(s)
  {
    if s != "" {
      UnescapeEscaped(s[1..]);
      UnescapeOne(s[0], Escaped(s[1..]));
      assert [s[0]] + s[1..] == s;
    }
  }

  lemma PairCodePoint(v: nat, h: nat, l: nat, s: string)
    requires v < 0x100000 && h == 0xD800 + v / 1024 && l == 0xDC00 + v % 1024
    requires |s| >= 10 && FromHex4(s) == Some(h) && s[4] == '\\' && s[5] == 'u' && FromHex4(s[6..]) == Some(l)
    ensures CodePoint(s).Some? && CodePoint(s).value == (0x10000 + v, 10)
  {
    assert h % 1024 == v / 1024 && l % 1024 == v % 1024;
  }

  lemma UnescapeCodePoint(s: string, cp: nat, n: nat)
    requires |s| >= 2 && s[0] == '\\' && s[1] == 'u' && CodePoint(s[2..]).Some? && CodePoint(s[2..]).value == (cp, n)
    ensures Unescape(s) == Then(Utf8(cp), Unescape(s[2 + n..]))
  {
  }

  lemma PairText(hs: string, ls: string, rest: string, s: string)
    requires |hs| == 4 && |ls| == 4 && s == "\\u" + (hs + ("\\u" + (ls + rest)))
    ensures s[0] == '\\' && s[1] == 'u' && s[2..] == hs + ("\\u" + (ls + rest)) && s[12..] == rest
    ensures s[2..][4] == '\\' && s[2..][5] == 'u' && s[2..][6..] == ls + rest
  {
  }

  /** A surrogate pair stands for the code point beyond the basic plane that it splits (section 7 of RFC 8259). */
  lemma SurrogatePair(v: nat, s: string, rest: string)
    requires v < 0x100000
    requires s == "\\u" + (Hex4(0xD800 + v / 1024) + ("\\u" + (Hex4(0xDC00 + v % 1024) + rest)))
    ensures Unescape(s) == Then(Utf8(0x10000 + v), Unescape(rest))
  {
    var h, l := 0xD800 + v / 1024, 0xDC00 + v % 1024;
    Hex4RoundTrip(h, "\\u" + (Hex4(l) + rest));
    Hex4RoundTrip(l, rest);
    PairText(Hex4(h), Hex4(l), rest, s);
    PairCodePoint(v, h, l, s[2..]);
    UnescapeCodePoint(s, 0x10000 + v, 10);
  }
}
