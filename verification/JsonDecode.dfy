/** Lemmas behind the decoding loops of the JSON reader: integers digit by digit against a threshold, strings escape by
    escape. */
module JsonDecode {
  import opened Sealing
  import opened Numerals
  import opened JsonText
  import opened JsonGrammar

  // ---------- integers ----------

  predicate NumberChars(text: string) {
    forall i :: 0 <= i < |text| ==> InNumber(text[i])
  }

  lemma {:induction false} NumberPastComments(doc: string, i: nat)
    requires i <= |doc| && SkipComments(doc, i).kind == NumberToken
    ensures var t := SkipComments(doc, i); NumberChars(doc[t.start..t.end])
    decreases |doc| - i
  {
    if ReadToken(doc, i).kind == Comment {
      NumberPastComments(doc, ReadToken(doc, i).end);
    } else {
      NumberTokenChars(doc, i);
    }
  }

  /** A number token has no other characters. */
  lemma NumberTokenChars(doc: string, i: nat)
    requires i <= |doc| && ReadToken(doc, i).kind == NumberToken
    ensures var t := ReadToken(doc, i); NumberChars(doc[t.start..t.end])
  {
    var t := ReadToken(doc, i);
    NumberEndChars(doc, t.start + 1);
    var text := doc[t.start..t.end];
    forall k | 0 <= k < |text| ensures InNumber(text[k]) {
      assert text[k] == doc[t.start + k];
    }
  }

  lemma {:induction false} NumberEndChars(doc: string, i: nat)
    requires i <= |doc|
    ensures forall k :: i <= k < NumberEnd(doc, i) ==> InNumber(doc[k])
    decreases |doc| - i
  {
    if i < |doc| && InNumber(doc[i]) { NumberEndChars(doc, i + 1); }
  }

  /** More digits never make a number smaller. */
  lemma {:induction false} ValueGrows(s: string, k: nat)
    requires k <= |s|
    ensures ValueOf(s, 10) >= ValueOf(s[..k], 10)
    decreases |s|
  {
    if k < |s| {
      var p := s[..|s| - 1];
      assert p[..k] == s[..k];
      ValueGrows(p, k);
    } else {
      assert s[..k] == s;
    }
  }

  lemma DigitMatters(value: nat, digit: nat, max: nat, next: nat)
    requires digit < 10 && next == value * 10 + digit
    ensures value < max / 10 ==> next <= max
    ensures value == max / 10 && digit <= max % 10 ==> next <= max
    ensures value == max / 10 && digit > max % 10 ==> next > max
    ensures value > max / 10 ==> next > max
  {
  }

  lemma OneMore(value: nat, digit: nat, more: nat, max: nat)
    requires max >= 100 && value >= max / 10
    ensures (value * 10 + digit) * 10 + more > max
  {
  }

  /** What the threshold test finds out: the digits read so far fit, and whether the next one settles that the number
      does not. */
  lemma Threshold(digits: string, k: nat, max: nat)
    requires AllDigits(digits) && k < |digits| && max >= 100 && ValueOf(digits[..k], 10) <= max
    ensures var value, digit := ValueOf(digits[..k], 10), digits[k] as int - '0' as int;
            var over := value >= max / 10 && (value > max / 10 || k + 1 != |digits| || digit > max % 10);
            0 <= digit < 10 && ValueOf(digits[..k + 1], 10) == value * 10 + digit &&
            if over then ValueOf(digits, 10) > max else value * 10 + digit <= max
  {
    var value: nat, digit: int := ValueOf(digits[..k], 10), digits[k] as int - '0' as int;
    assert IsDecimalDigit(digits[k]);
    assert digits[..k + 1] == digits[..k] + [digits[k]];
    ValueSnoc(digits[..k], digits[k], 10);
    DigitMatters(value, digit, max, value * 10 + digit);
    ValueGrows(digits, k + 1);
    if value == max / 10 && k + 1 != |digits| {
      SecondDigit(digits, k, value, digit, max);
    } else if k + 1 == |digits| {
      assert digits[..k + 1] == digits;
    }
  }

  lemma SecondDigit(digits: string, k: nat, value: nat, digit: nat, max: nat)
    requires AllDigits(digits) && k + 1 < |digits| && max >= 100 && value >= max / 10
    requires ValueOf(digits[..k + 1], 10) == value * 10 + digit
    ensures ValueOf(digits, 10) > max
  {
    var more := DigitValue(digits[k + 1]);
    assert digits[..k + 2] == digits[..k + 1] + [digits[k + 1]];
    ValueSnoc(digits[..k + 1], digits[k + 1], 10);
    OneMore(value, digit, more, max);
    ValueGrows(digits, k + 2);
  }

  // ---------- strings ----------

  /** The first k hexadecimal digits. */
  function HexPrefix(s: string, k: nat): Option<nat>
    requires k <= |s|
  {
    if k == 0 then Some(0)
    else match (HexPrefix(s, k - 1), HexValue(s[k - 1]))
      case (Some(a), Some(d)) => Some(a * 16 + d)
      case _ => None
  }

  lemma HexPrefixFour(s: string)
    requires |s| >= 4
    ensures FromHex4(s) == HexPrefix(s, 4)
  {
    var (a, b, c, d) := (HexValue(s[0]), HexValue(s[1]), HexValue(s[2]), HexValue(s[3]));
    assert HexPrefix(s, 0) == Some(0);
    assert HexPrefix(s, 1) == a;
    assert HexPrefix(s, 2) == if a.Some? && b.Some? then Some(a.value * 16 + b.value) else None;
    assert HexPrefix(s, 3) == if a.Some? && b.Some? && c.Some? then Some((a.value * 16 + b.value) * 16 + c.value)
        else None;
  }

  lemma {:induction false} HexPrefixFails(s: string, k: nat, n: nat)
    requires k <= n <= |s| && HexPrefix(s, k).None?
    ensures HexPrefix(s, n).None?
    decreases n
  {
    if k < n { HexPrefixFails(s, k, n - 1); }
  }

  /** All of `text` means `decoded` and then what `rest` means. */
  ghost predicate MeansThen(text: string, decoded: string, rest: string) {
    forall k :: Seal(Readings, k) ==> Unescape(text) == Then(decoded, Unescape(rest))
  }

  lemma ThenThen(a: string, b: string, r: Option<string>)
    ensures Then(a, Then(b, r)) == Then(a + b, r)
  {
    if r.Some? { assert a + (b + r.value) == (a + b) + r.value; }
  }

  lemma MeansFirst(text: string)
    ensures MeansThen(text, "", text)
  {
    var r := Unescape(text);
    if r.Some? { assert "" + r.value == r.value; }
  }

  /** The text means `decoded` if `ok`, and nothing otherwise. */
  ghost predicate Means(text: string, ok: bool, decoded: string) {
    forall k :: Seal(Readings, k) ==> Unescape(text) == if ok then Some(decoded) else None
  }

  lemma MeansEnd(text: string, decoded: string, rest: string)
    requires MeansThen(text, decoded, rest) && (rest == "" || rest[0] == '"')
    ensures Means(text, true, decoded)
  {
    assert Seal(Readings, 0);
    assert decoded + "" == decoded;
  }

  lemma MeansPlain(text: string, decoded: string, rest: string)
    requires MeansThen(text, decoded, rest) && rest != "" && rest[0] != '"' && rest[0] != '\\'
    ensures MeansThen(text, decoded + [rest[0]], rest[1..])
  {
    assert Seal(Readings, 0);
    ThenThen(decoded, [rest[0]], Unescape(rest[1..]));
  }

  lemma MeansEscape(text: string, decoded: string, rest: string)
    requires MeansThen(text, decoded, rest) && rest != "" && rest[0] == '\\' && (|rest| == 1 || rest[1] != 'u')
    ensures if |rest| == 1 || Unescaped(rest[1]).None? then forall d :: Means(text, false, d)
            else MeansThen(text, decoded + [Unescaped(rest[1]).value], rest[2..])
  {
    assert Seal(Readings, 0);
    if |rest| > 1 && Unescaped(rest[1]).Some? { ThenThen(decoded, [Unescaped(rest[1]).value], Unescape(rest[2..])); }
  }

  lemma MeansUnicode(text: string, decoded: string, rest: string)
    requires MeansThen(text, decoded, rest) && |rest| >= 2 && rest[0] == '\\' && rest[1] == 'u'
    ensures match CodePoint(rest[2..])
            case None => forall d :: Means(text, false, d)
            case Some((cp, n)) => MeansThen(text, decoded + Utf8(cp), rest[2 + n..])
  {
    assert Seal(Readings, 0);
    match CodePoint(rest[2..])
    case None =>
    case Some((cp, n)) => ThenThen(decoded, Utf8(cp), Unescape(rest[2 + n..]));
  }
}
