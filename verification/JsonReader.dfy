/** The reader of lib/json/jsoncpp.cpp: a cursor over the document, a stack of values under construction and a list of
    errors. It returns what the grammar says, leaves the stack as it found it, and fails exactly when it has recorded an
    error. */
module JsonReader {
  import opened Sealing
  import opened Numerals
  import opened JsonText
  import opened JsonGrammar
  import opened JsonDecode
  import opened JsonSpelling

  // ---------- the grammar, one step at a time ----------

  ghost predicate ValueGives(cfg: Config, doc: string, i: nat, r: Parse) {
    forall k :: Seal(Parses, k) ==> i <= |doc| && ParseValue(cfg, doc, i) == r
  }

  ghost predicate ItemsGive(cfg: Config, doc: string, i: nat, items: seq<Value>, r: Parse) {
    forall k :: Seal(Parses, k) ==> i <= |doc| && ParseItems(cfg, doc, i, items) == r
  }

  ghost predicate MembersGive(cfg: Config, doc: string, i: nat, ms: seq<Member>, nameEmpty: bool, r: Parse) {
    forall k :: Seal(Parses, k) ==> i <= |doc| && ParseMembers(cfg, doc, i, ms, nameEmpty) == r
  }

  ghost predicate RestGives(cfg: Config, doc: string, i: nat, ms: seq<Member>, nameEmpty: bool, r: Parse) {
    forall k :: Seal(Parses, k) ==> i <= |doc| && ParseRest(cfg, doc, i, ms, nameEmpty) == r
  }

  ghost predicate TokenShape(doc: string, i: nat, t: Token) {
    i <= t.start <= t.end <= |doc| && (t.kind != EndOfStream ==> t.start < t.end) &&
    (t.kind == StringToken ==> t.start + 2 <= t.end)
  }

  /** The next token. */
  ghost predicate NextToken(doc: string, i: nat, t: Token) {
    TokenShape(doc, i, t) && forall k :: Seal(Tokens, k) ==> i <= |doc| && t == ReadToken(doc, i)
  }

  /** The next token that is not a comment. */
  ghost predicate NextPastComments(doc: string, i: nat, t: Token) {
    TokenShape(doc, i, t) && t.kind != Comment && forall k :: Seal(Tokens, k) ==>
        i <= |doc| && t == SkipComments(doc, i)
  }

  /** The name a token gives to a member, None for none. */
  ghost predicate NameIs(cfg: Config, doc: string, t: Token, name: Option<string>) {
    t.start <= t.end <= |doc| && (t.kind == StringToken ==> t.start + 2 <= t.end) &&
    forall k :: Seal(Readings, k) ==> MemberName(cfg, doc, t) == name
  }

  lemma StartItems(cfg: Config, doc: string, i: nat) returns (r: Parse)
    requires i <= |doc|
    ensures ItemsGive(cfg, doc, i, [], r)
  {
    r := ParseItems(cfg, doc, i, []);
  }

  lemma StartMembers(cfg: Config, doc: string, i: nat) returns (r: Parse)
    requires i <= |doc|
    ensures MembersGive(cfg, doc, i, [], true, r)
  {
    r := ParseMembers(cfg, doc, i, [], true);
  }

  lemma ItemStep(cfg: Config, doc: string, i: nat, items: seq<Value>, r: Parse, v: Parse)
    requires ItemsGive(cfg, doc, i, items, r) && ValueGives(cfg, doc, i, v)
    ensures v.Fail? ==> r.Fail?
    ensures v.Done? ==> i <= v.pos <= |doc|
  {
    assert Seal(Parses, 0);
  }

  lemma ItemMark(cfg: Config, doc: string, i: nat, items: seq<Value>, r: Parse, v: Parse, t: Token)
    requires ItemsGive(cfg, doc, i, items, r) && ValueGives(cfg, doc, i, v) && v.Done?
    requires NextPastComments(doc, v.pos, t)
    ensures if t.kind == ArraySeparator then ItemsGive(cfg, doc, t.end, items + [v.value], r)
            else if t.kind == ArrayEnd then r == Done(Arr(items + [v.value]), t.end)
            else r.Fail?
  {
    assert Seal(Parses, 0) && Seal(Tokens, 0);
  }

  lemma BraceStep(cfg: Config, doc: string, i: nat, ms: seq<Member>, r: Parse, t: Token)
    requires MembersGive(cfg, doc, i, ms, true, r) && NextPastComments(doc, i, t) && t.kind == ObjectEnd
    ensures r == Done(Obj(ms), t.end)
  {
    assert Seal(Parses, 0) && Seal(Tokens, 0);
  }

  /** Where a member's name should be. */
  lemma NameStep(cfg: Config, doc: string, i: nat, ms: seq<Member>, nameEmpty: bool, r: Parse, t: Token)
    requires MembersGive(cfg, doc, i, ms, nameEmpty, r) && NextPastComments(doc, i, t)
    requires !(t.kind == ObjectEnd && nameEmpty)
    ensures NameIs(cfg, doc, t, None) ==> r.Fail?
  {
    assert Seal(Parses, 0) && Seal(Tokens, 0) && Seal(Readings, 0);
  }

  lemma ColonStep(cfg: Config, doc: string, i: nat, ms: seq<Member>, nameEmpty: bool, r: Parse, t: Token, name: string,
                  colon: Token)
    requires MembersGive(cfg, doc, i, ms, nameEmpty, r) && NextPastComments(doc, i, t) && NextToken(doc, t.end, colon)
    requires !(t.kind == ObjectEnd && nameEmpty) && NameIs(cfg, doc, t, Some(name))
    ensures colon.kind != MemberSeparator ==> r.Fail?
  {
    assert Seal(Parses, 0) && Seal(Tokens, 0) && Seal(Readings, 0);
  }

  lemma MemberStep(cfg: Config, doc: string, i: nat, ms: seq<Member>, nameEmpty: bool, r: Parse, t: Token, name: string,
                   colon: Token, v: Parse)
    requires MembersGive(cfg, doc, i, ms, nameEmpty, r) && NextPastComments(doc, i, t) && NextToken(doc, t.end, colon)
    requires !(t.kind == ObjectEnd && nameEmpty) && NameIs(cfg, doc, t, Some(name))
    requires colon.kind == MemberSeparator && ValueGives(cfg, doc, colon.end, v)
    ensures if v.Fail? then r.Fail?
            else
              colon.end <= v.pos <= |doc| && RestGives(cfg, doc, v.pos, Insert(ms, CStr(name), v.value), name == "", r)
  {
    assert Seal(Parses, 0) && Seal(Tokens, 0) && Seal(Readings, 0);
  }

  lemma RestStep(cfg: Config, doc: string, i: nat, ms: seq<Member>, nameEmpty: bool, r: Parse, t: Token)
    requires RestGives(cfg, doc, i, ms, nameEmpty, r) && NextToken(doc, i, t)
    ensures if t.kind == ObjectEnd then r == Done(Obj(ms), t.end)
            else if t.kind == ArraySeparator then MembersGive(cfg, doc, t.end, ms, nameEmpty, r)
            else t.kind != Comment ==> r.Fail?
  {
    assert Seal(Parses, 0) && Seal(Tokens, 0);
  }

  lemma CommentStep(cfg: Config, doc: string, i: nat, ms: seq<Member>, nameEmpty: bool, r: Parse, t: Token, u: Token)
    requires RestGives(cfg, doc, i, ms, nameEmpty, r) && NextToken(doc, i, t) && t.kind == Comment
    requires NextPastComments(doc, t.end, u)
    ensures if u.kind == ObjectEnd then r == Done(Obj(ms), u.end) else MembersGive(cfg, doc, u.end, ms, nameEmpty, r)
  {
    assert Seal(Parses, 0) && Seal(Tokens, 0);
  }

  lemma ScalarStep(cfg: Config, doc: string, i: nat, t: Token)
    requires i <= |doc| && t == ValueToken(cfg, doc, i) && t.kind != ArrayBegin && t.kind != ObjectBegin
    ensures ValueGives(cfg, doc, i, ParseScalar(cfg, doc, t))
  {
  }

  lemma ArrayStep(cfg: Config, doc: string, i: nat, t: Token, r: Parse)
    requires i <= |doc| && t == ValueToken(cfg, doc, i) && t.kind == ArrayBegin && ArrayGives(cfg, doc, t.end, r)
    ensures ValueGives(cfg, doc, i, r)
  {
    assert Seal(Parses, 0);
  }

  lemma ObjectStep(cfg: Config, doc: string, i: nat, t: Token, r: Parse)
    requires i <= |doc| && t == ValueToken(cfg, doc, i) && t.kind == ObjectBegin
    requires MembersGive(cfg, doc, t.end, [], true, r)
    ensures ValueGives(cfg, doc, i, r)
  {
    assert Seal(Parses, 0);
  }

  /** Behind an opening bracket. */
  ghost predicate ArrayGives(cfg: Config, doc: string, i: nat, r: Parse) {
    i <= |doc| &&
    var j := SkipSpaces(doc, i);
    if j < |doc| && doc[j] == ']' then r == Done(Arr([]), j + 1) else ItemsGive(cfg, doc, j, [], r)
  }

  /** A number token that does not look like a real is an optional sign and digits. */
  lemma IntegerChars(text: string)
    requires text != "" && NumberChars(text) && !LooksReal(text)
    ensures AllDigits(if text[0] == '-' then text[1..] else text)
  {
    forall i | 0 <= i < |text| ensures IsDecimalDigit(text[i]) || (i == 0 && text[0] == '-') {
      assert InNumber(text[i]);
    }
  }

  // ---------- members of an object under construction ----------

  /** The value of a member, None if there is no such member. */
  function Existing(ms: seq<Member>, key: string): Option<Value> {
    if ms == [] || (ms[0].key != key && Less(key, ms[0].key)) then None
    else if ms[0].key == key then Some(ms[0].value)
    else Existing(ms[1..], key)
  }

  /** Making room for a member first does not matter. */
  lemma {:induction false} InsertTwice(ms: seq<Member>, key: string, w: Value, v: Value)
    ensures Insert(Insert(ms, key, w), key, v) == Insert(ms, key, v)
  {
    if ms != [] && ms[0].key != key && !Less(key, ms[0].key) {
      InsertTwice(ms[1..], key, w, v);
      assert ([ms[0]] + Insert(ms[1..], key, w))[1..] == Insert(ms[1..], key, w);
    }
  }

  function WithItem(items: seq<Value>, v: Parse): Parse {
    if v.Done? then Done(Arr(items + [v.value]), v.pos) else Fail
  }

  function WithMember(ms: seq<Member>, key: string, v: Parse): Parse {
    if v.Done? then Done(Obj(Insert(ms, key, v.value)), v.pos) else Fail
  }

  lemma NumberName(doc: string, i: nat, t: Token)
    requires NextPastComments(doc, i, t)
    ensures t.kind == NumberToken ==> NumberChars(doc[t.start..t.end])
  {
    assert Seal(Tokens, 0);
    if t.kind == NumberToken { NumberPastComments(doc, i); }
  }

  // ---------- the reader ----------

  datatype NameOutcome = Named | Undecodable | NotAName

  datatype Complaint =
    | ValueExpected | MissingColon | MissingCommaOrBrace | MissingBraceOrName | MissingCommaOrBracket | NotANumber
    | EmptyEscape | BadEscape | PairTooShort | PairExpected | FourDigitsExpected | HexDigitExpected | BadRoot

  datatype ErrorInfo = ErrorInfo(complaint: Complaint, token: Token, extra: Option<nat>)

  /** What a step of the reader leaves behind, against what the grammar gives: on success the value in place of the top
      of the stack and no new error, on failure at least one. The rest of the stack is as it was. */
  ghost predicate Outcome(r: Parse, ok: bool, nodes0: seq<Value>, nodes1: seq<Value>, errors0: seq<ErrorInfo>,
                          errors1: seq<ErrorInfo>,
                          current: nat)
  {
    && ok == r.Done?
    && 0 < |nodes0| == |nodes1| && nodes1[..|nodes0| - 1] == nodes0[..|nodes0| - 1]
    && (ok ==> nodes1[|nodes0| - 1] == r.value && current == r.pos && errors1 == errors0)
    && (!ok ==> errors0 < errors1)
  }

  /** The end of the first token of that kind, or of the document. */
  function Recovered(doc: string, i: nat, until: Kind): (j: nat)
    requires i <= |doc|
    ensures i <= j <= |doc|
    decreases |doc| - i
  {
    var t := ReadToken(doc, i);
    if t.kind == until || t.kind == EndOfStream then t.end else Recovered(doc, t.end, until)
  }

  class Reader {
    const cfg: Config
    var doc: string
    var current: nat
    var nodes: seq<Value>
    var errors: seq<ErrorInfo>

    ghost predicate Valid()
      reads this
    {
      current <= |doc|
    }

    constructor (cfg: Config)
      ensures this.cfg == cfg && Valid()
    {
      this.cfg := cfg;
      doc, current, nodes, errors := "", 0, [], [];
    }

    // ---------- characters ----------

    method SkipSpaces()
      requires Valid()
      modifies this`current
      ensures Valid() && current == JsonGrammar.SkipSpaces(doc, old(current))
    {
      while current != |doc|
        invariant current <= |doc| && JsonGrammar.SkipSpaces(doc, current) == JsonGrammar.SkipSpaces(doc, old(current))
        decreases |doc| - current
      {
        var c := doc[current];
        if c == ' ' || c == '\t' || c == '\r' || c == '\n' {
          current := current + 1;
        } else {
          break;
        }
      }
    }

    method GetNextChar() returns (c: char)
      requires Valid()
      modifies this`current
      ensures Valid()
      ensures if old(current) == |doc| then current == old(current) && c as int == 0
          else current == old(current) + 1 && c == doc[old(current)]
    {
      if current == |doc| {
        return 0 as char;
      }
      c := doc[current];
      current := current + 1;
    }

    /** The pattern is compared from its end. */
    method Match(pattern: string) returns (ok: bool)
      requires Valid()
      modifies this`current
      ensures Valid() && ok == MatchAt(doc, old(current), pattern)
      ensures current == old(current) + if ok then |pattern| else 0
    {
      if |doc| - current < |pattern| {
        return false;
      }
      var index := |pattern|;
      while index != 0
        invariant 0 <= index <= |pattern| && forall k :: index <= k < |pattern| ==> doc[current + k] == pattern[k]
      {
        index := index - 1;
        if doc[current + index] != pattern[index] {
          assert doc[current..current + |pattern|][index] != pattern[index];
          return false;
        }
      }
      assert doc[current..current + |pattern|] == pattern;
      current := current + |pattern|;
      ok := true;
    }

    method ReadString() returns (ok: bool)
      requires Valid()
      modifies this`current
      ensures Valid() && (ok, current) == ScanString(doc, old(current))
    {
      var c := 0 as char;
      while current != |doc|
        invariant current <= |doc| && ScanString(doc, current) == ScanString(doc, old(current)) && c != '"'
        decreases |doc| - current
      {
        c := GetNextChar();
        if c == '\\' {
          var _ := GetNextChar();
        } else if c == '"' {
          break;
        }
      }
      ok := c == '"';
    }

    method ReadNumber()
      requires Valid()
      modifies this`current
      ensures Valid() && current == NumberEnd(doc, old(current))
    {
      while current != |doc|
        invariant current <= |doc| && NumberEnd(doc, current) == NumberEnd(doc, old(current))
        decreases |doc| - current
      {
        if !InNumber(doc[current]) {
          break;
        }
        current := current + 1;
      }
    }

    method ReadCStyleComment() returns (ok: bool)
      requires Valid()
      modifies this`current
      ensures Valid() && (ok, current) == CStyleEnd(doc, old(current))
    {
      while current != |doc|
        invariant current <= |doc| && CStyleEnd(doc, current) == CStyleEnd(doc, old(current))
        decreases |doc| - current
      {
        var c := GetNextChar();
        if c == '*' && current < |doc| && doc[current] == '/' {
          assert CStyleEnd(doc, current - 1) == (true, current + 1);
          break;
        }
      }
      var c := GetNextChar();
      ok := c == '/';
    }

    method ReadCppStyleComment() returns (ok: bool)
      requires Valid()
      modifies this`current
      ensures Valid() && ok && current == LineEnd(doc, old(current))
    {
      while current != |doc|
        invariant current <= |doc| && LineEnd(doc, current) == LineEnd(doc, old(current))
        decreases |doc| - current
      {
        var c := GetNextChar();
        if c == '\r' || c == '\n' {
          break;
        }
      }
      ok := true;
    }

    method ReadComment() returns (ok: bool)
      requires Valid() && current > 0
      modifies this`current
      ensures Valid() && (ok, current) == CommentEnd(doc, old(current) - 1)
    {
      var c := GetNextChar();
      ok := false;
      if c == '*' {
        ok := ReadCStyleComment();
      } else if c == '/' {
        ok := ReadCppStyleComment();
      }
    }

    // ---------- tokens ----------

    method ReadToken() returns (token: Token)
      requires Valid()
      modifies this`current
      ensures Valid() && NextToken(doc, old(current), token) && current == token.end
    {
      SkipSpaces();
      var start := current;
      var c := GetNextChar();
      if start == |doc| {
        token := Token(EndOfStream, start, current);
      } else {
        token := ReadTokenFrom(c, start);
      }
    }

    /** The switch of `readToken`, behind its first character. */
    method ReadTokenFrom(c: char, start: nat) returns (token: Token)
      requires Valid() && current == start + 1 && c == doc[start]
      modifies this`current
      ensures Valid() && token == TokenFrom(doc, start) && current == token.end
    {
      var ok, kind := true, Error;
      if c == '{' { kind := ObjectBegin; }
      else if c == '}' { kind := ObjectEnd; }
      else if c == '[' { kind := ArrayBegin; }
      else if c == ']' { kind := ArrayEnd; }
      else if c == '"' { kind := StringToken; ok := ReadString(); }
      else if c == '/' { kind := Comment; ok := ReadComment(); }
      else if IsDecimalDigit(c) || c == '-' { kind := NumberToken; ReadNumber(); }
      else if c == 't' { kind := TrueToken; ok := Match("rue"); }
      else if c == 'f' { kind := FalseToken; ok := Match("alse"); }
      else if c == 'n' { kind := NullToken; ok := Match("ull"); }
      else if c == ',' { kind := ArraySeparator; }
      else if c == ':' { kind := MemberSeparator; }
      else if c as int == 0 { kind := EndOfStream; }
      else { ok := false; }
      token := Token(if ok then kind else Error, start, current);
    }

    /** Tokens up to the first that is not a comment. */
    method ReadPastComments() returns (token: Token)
      requires Valid()
      modifies this`current
      ensures Valid() && NextPastComments(doc, old(current), token) && current == token.end
    {
      token := ReadToken();
      assert Seal(Tokens, 0);
      while token.kind == Comment
        invariant current == token.end && TokenShape(doc, old(current), token)
        invariant SkipComments(doc, old(current)) == if token.kind == Comment then SkipComments(doc, current) else token
        decreases |doc| - current, token.kind == Comment
      {
        token := ReadToken();
      }
    }

    method SkipCommentTokens() returns (token: Token)
      requires Valid()
      modifies this`current
      ensures Valid() && token == ValueToken(cfg, doc, old(current)) && current == token.end
    {
      if cfg.allowComments {
        token := ReadPastComments();
      } else {
        token := ReadToken();
      }
      assert Seal(Tokens, 0);
    }

    // ---------- errors ----------

    method AddError(complaint: Complaint, token: Token, extra: Option<nat>) returns (ok: bool)
      modifies this`errors
      ensures !ok && errors == old(errors) + [ErrorInfo(complaint, token, extra)]
    {
      errors := errors + [ErrorInfo(complaint, token, extra)];
      ok := false;
    }

    /** Skips to the given token; whatever is found on the way is not reported. */
    method RecoverFromError(skipUntil: Kind) returns (ok: bool)
      requires Valid()
      modifies this`current
      ensures Valid() && !ok && current == Recovered(doc, old(current), skipUntil)
    {
      while true
        invariant current <= |doc| && Recovered(doc, current, skipUntil) == Recovered(doc, old(current), skipUntil)
        decreases |doc| - current
      {
        var skip := ReadToken();
        assert Seal(Tokens, 0);
        if skip.kind == skipUntil || skip.kind == EndOfStream {
          break;
        }
      }
      ok := false;
    }

    method AddErrorAndRecover(complaint: Complaint, token: Token, skipUntil: Kind) returns (ok: bool)
      requires Valid()
      modifies this`current, this`errors
      ensures Valid() && !ok && current == Recovered(doc, old(current), skipUntil)
      ensures errors == old(errors) + [ErrorInfo(complaint, token, None)]
    {
      var _ := AddError(complaint, token, None);
      ok := RecoverFromError(skipUntil);
    }

    // ---------- decoding numbers ----------

    /** `sscanf` is the given function. */
    method DecodeDouble(token: Token) returns (ok: bool, decoded: Value)
      requires token.start <= token.end <= |doc|
      modifies this`errors
      ensures ok == cfg.scan(doc[token.start..token.end]).Some?
      ensures if ok then decoded == Real(cfg.scan(doc[token.start..token.end]).value) && errors == old(errors)
          else old(errors) < errors
    {
      decoded := Null;
      match cfg.scan(doc[token.start..token.end])
      case None => ok := AddError(NotANumber, token, None);
      case Some(value) => ok, decoded := true, Real(value);
    }

    /** Whether the number looks like a real. */
    method InspectNumber(text: string) returns (isDouble: bool)
      ensures isDouble == LooksReal(text)
    {
      isDouble := false;
      for inspect := 0 to |text|
        invariant isDouble ==
                  exists i :: 0 <= i < inspect && (text[i] in {'.', 'e', 'E', '+'} || (text[i] == '-' && i > 0))
      {
        isDouble := isDouble || text[inspect] in {'.', 'e', 'E', '+'} || (text[inspect] == '-' && inspect != 0);
      }
    }

    /** The integer loop: reads digits until one would not fit, in which case the value is exactly too large. */
    method ReadDigits(digits: string, max: nat) returns (allDigits: bool, fits: bool, value: nat)
      requires max >= 100
      ensures AllDigits(digits) ==>
          allDigits && fits == (ValueOf(digits, 10) <= max) && (fits ==> value == ValueOf(digits, 10))
      ensures allDigits && fits ==> AllDigits(digits) && value <= max
    {
      var threshold := max / 10;
      var current := 0;
      value := 0;
      while current < |digits|
        invariant current <= |digits| && value <= max && (AllDigits(digits) ==> value == ValueOf(digits[..current], 10))
        invariant forall k :: 0 <= k < current ==> IsDecimalDigit(digits[k])
      {
        var c := digits[current];
        current := current + 1;
        if c < '0' || c > '9' {
          return false, false, value;
        }
        if AllDigits(digits) { Threshold(digits, current - 1, max); }
        var digit: nat := c as int - '0' as int;
        if value >= threshold {
          if value > threshold || current != |digits| || digit > max % 10 {
            return true, false, value;
          }
        }
        DigitMatters(value, digit, max, value * 10 + digit);
        value := value * 10 + digit;
      }
      assert digits[..|digits|] == digits;
      allDigits, fits := true, true;
    }

    method DecodeNumber(token: Token) returns (ok: bool, decoded: Value)
      requires token.start < token.end <= |doc|
      modifies this`errors
      ensures var r := JsonGrammar.DecodeNumber(cfg.scan, doc[token.start..token.end]);
              NumberChars(doc[token.start..token.end]) ==> ok == r.Some? && (ok ==> decoded == r.value)
      ensures if ok then errors == old(errors) else old(errors) < errors
    {
      var text := doc[token.start..token.end];
      var isDouble := InspectNumber(text);
      if isDouble {
        ok, decoded := DecodeDouble(token);
        return;
      }
      var isNegative := text[0] == '-';
      var digits := if isNegative then text[1..] else text;
      var allDigits, fits, value := ReadDigits(digits, if isNegative then MAX_NEGATIVE else MAX_UINT64);
      if NumberChars(text) { IntegerChars(text); }
      if !allDigits {
        decoded := Null;
        ok := AddError(NotANumber, token, None);
      } else if !fits {
        ok, decoded := DecodeDouble(token);
      } else if isNegative {
        ok, decoded := true, Int(-(value as int));
      } else if value <= MAX_INT {
        ok, decoded := true, Int(value);
      } else {
        ok, decoded := true, UInt(value);
      }
    }

    // ---------- decoding strings ----------

    method DecodeUnicodeEscapeSequence(token: Token, from: nat, end: nat) returns (ok: bool, current: nat, unicode: nat)
      requires from <= end <= |doc|
      modifies this`errors
      ensures ok == FromHex4(doc[from..end]).Some?
      ensures if ok then current == from + 4 <= end && Some(unicode) == FromHex4(doc[from..end]) &&
          errors == old(errors) else old(errors) < errors
    {
      if end - from < 4 {
        current, unicode := from, 0;
        ok := AddError(FourDigitsExpected, token, Some(current));
        return;
      }
      HexPrefixFour(doc[from..end]);
      ok, current, unicode := DecodeHexDigits(token, from, end);
    }

    /** The loop over the four digits. */
    method DecodeHexDigits(token: Token, from: nat, end: nat) returns (ok: bool, current: nat, unicode: nat)
      requires from + 4 <= end <= |doc|
      modifies this`errors
      ensures HexPrefix(doc[from..end], 4) == if ok then Some(unicode) else None
      ensures if ok then current == from + 4 && errors == old(errors) else old(errors) < errors
    {
      ghost var s := doc[from..end];
      current, unicode := from, 0;
      for index := 0 to 4
        invariant current == from + index && HexPrefix(s, index) == Some(unicode) && errors == old(errors)
      {
        var c := doc[current];
        assert c == s[index];
        current := current + 1;
        unicode := unicode * 16;
        if '0' <= c <= '9' {
          unicode := unicode + (c as int - '0' as int);
        } else if 'a' <= c <= 'f' {
          unicode := unicode + (c as int - 'a' as int + 10);
        } else if 'A' <= c <= 'F' {
          unicode := unicode + (c as int - 'A' as int + 10);
        } else {
          HexPrefixFails(s, index + 1, 4);
          ok := AddError(HexDigitExpected, token, Some(current));
          return;
        }
      }
      ok := true;
    }

    method DecodeUnicodeCodePoint(token: Token, from: nat, end: nat) returns (ok: bool, current: nat, unicode: nat)
      requires from <= end <= |doc|
      modifies this`errors
      ensures var r := CodePoint(doc[from..end]);
              ok == r.Some? && (ok ==> unicode == r.value.0 && current == from + r.value.1 <= end)
      ensures if ok then errors == old(errors) else old(errors) < errors
    {
      ok, current, unicode := DecodeUnicodeEscapeSequence(token, from, end);
      if !ok {
        return;
      }
      if 0xD800 <= unicode <= 0xDBFF {
        if end - current < 6 {
          ok := AddError(PairTooShort, token, Some(current));
          return;
        }
        var backslash := doc[current];
        current := current + 1;
        assert backslash == doc[from..end][4] && doc[current] == doc[from..end][5] &&
            doc[current + 1..end] == doc[from..end][6..];
        if backslash == '\\' && doc[current] == 'u' {
          var pair;
          ok, current, pair := DecodeUnicodeEscapeSequence(token, current + 1, end);
          if ok {
            unicode := 0x10000 + unicode % 1024 * 1024 + pair % 1024;
          }
        } else {
          ok := AddError(PairExpected, token, Some(current));
        }
      }
    }

    /** The characters between the quotes are decoded exactly as they spell, or refused. */
    method DecodeString(token: Token) returns (ok: bool, decoded: string)
      requires token.start + 2 <= token.end <= |doc|
      modifies this`errors
      ensures Means(doc[token.start + 1..token.end - 1], ok, decoded)
      ensures Judged(doc[token.start + 1..token.end - 1], ok, decoded)
      ensures if ok then errors == old(errors) else old(errors) < errors
    {
      ok, decoded := DecodeLiteral(token);
      MeansExactly(doc[token.start + 1..token.end - 1], ok, decoded);
    }

    method DecodeLiteral(token: Token) returns (ok: bool, decoded: string)
      requires token.start + 2 <= token.end <= |doc|
      modifies this`errors
      ensures Means(doc[token.start + 1..token.end - 1], ok, decoded)
      ensures if ok then errors == old(errors) else old(errors) < errors
    {
      var current, end := token.start + 1, token.end - 1;
      ghost var text := doc[current..end];
      decoded := "";
      MeansFirst(text);
      while current != end
        invariant token.start + 1 <= current <= end && MeansThen(text, decoded, doc[current..end])
        invariant errors == old(errors)
        decreases end - current
      {
        ghost var rest := doc[current..end];
        var c := doc[current];
        current := current + 1;
        if c == '"' {
          MeansEnd(text, decoded, rest);
          return true, decoded;
        } else if c == '\\' {
          ok, current, decoded := DecodeEscape(token, current, end, decoded, text);
          if !ok {
            return;
          }
        } else {
          MeansPlain(text, decoded, rest);
          assert rest[1..] == doc[current..end];
          decoded := decoded + [c];
        }
      }
      MeansEnd(text, decoded, "");
      ok := true;
    }

    /** The part of the loop behind a backslash. */
    method DecodeEscape(token: Token, from: nat, end: nat, sofar: string, ghost text: string)
      returns (ok: bool, current: nat, decoded: string)
      requires 0 < from <= end <= |doc| && doc[from - 1] == '\\' && MeansThen(text, sofar, doc[from - 1..end])
      modifies this`errors
      ensures if ok then from < current <= end && MeansThen(text, decoded, doc[current..end]) && errors == old(errors)
              else Means(text, false, decoded) && old(errors) < errors
    {
      ghost var rest := doc[from - 1..end];
      current, decoded := from, sofar;
      if current == end {
        MeansEscape(text, sofar, rest);
        ok := AddError(EmptyEscape, token, Some(current));
        return;
      }
      var escape := doc[current];
      assert escape == rest[1];
      current := current + 1;
      if escape == 'u' {
        MeansUnicode(text, sofar, rest);
        assert rest[2..] == doc[current..end];
        var unicode;
        ok, current, unicode := DecodeUnicodeCodePoint(token, current, end);
        if ok {
          decoded := sofar + Utf8(unicode);
          assert rest[2 + (current - from - 1)..] == doc[current..end];
        }
      } else {
        MeansEscape(text, sofar, rest);
        assert rest[2..] == doc[current..end];
        match Unescaped(escape)
        case None => ok := AddError(BadEscape, token, Some(current));
        case Some(d) => ok, decoded := true, sofar + [d];
      }
    }

    // ---------- values ----------

    method SetCurrentValue(v: Value)
      requires nodes != []
      modifies this`nodes
      ensures nodes == old(nodes)[..|old(nodes)| - 1] + [v]
    {
      nodes := nodes[..|nodes| - 1] + [v];
    }

    /** A new element at the end of the array on top, and on the stack. */
    method PushItem()
      requires nodes != [] && nodes[|nodes| - 1].Arr?
      modifies this`nodes
      ensures var n := |old(nodes)|; nodes == old(nodes)[..n - 1] + [Arr(old(nodes)[n - 1].items + [Null]), Null]
    {
      nodes := nodes[..|nodes| - 1] + [Arr(nodes[|nodes| - 1].items + [Null]), Null];
    }

    /** The element read takes its place in the array. */
    method PopItem(index: nat)
      requires |nodes| >= 2 && nodes[|nodes| - 2].Arr? && index < |nodes[|nodes| - 2].items|
      modifies this`nodes
      ensures var n := |old(nodes)|;
              nodes == old(nodes)[..n - 2] + [Arr(old(nodes)[n - 2].items[index := old(nodes)[n - 1]])]
    {
      nodes := nodes[..|nodes| - 2] + [Arr(nodes[|nodes| - 2].items[index := nodes[|nodes| - 1]])];
    }

    method ReadScalar(token: Token) returns (ok: bool)
      requires Valid() && nodes != [] && current == token.end && token.start <= token.end && token.kind != ArrayBegin
      requires token.kind != ObjectBegin
      requires token.kind != EndOfStream ==> token.start < token.end
      requires token.kind == StringToken ==> token.start + 2 <= token.end
      requires token.kind == NumberToken ==> NumberChars(doc[token.start..token.end])
      modifies this`current, this`nodes, this`errors
      ensures Valid() && Outcome(ParseScalar(cfg, doc, token), ok, old(nodes), nodes, old(errors), errors, current)
    {
      ok := true;
      if token.kind == NumberToken {
        var decoded;
        ok, decoded := DecodeNumber(token);
        if ok { SetCurrentValue(decoded); }
      } else if token.kind == StringToken {
        ok := ReadStringValue(token);
      } else if token.kind == TrueToken {
        SetCurrentValue(Bool(true));
      } else if token.kind == FalseToken {
        SetCurrentValue(Bool(false));
      } else if token.kind == NullToken {
        SetCurrentValue(Null);
      } else if token.kind == ArraySeparator && cfg.allowDropped {
        current := current - 1;
        SetCurrentValue(Null);
      } else {
        ok := AddError(ValueExpected, token, None);
      }
    }

    /** The one-argument `decodeString`. */
    method ReadStringValue(token: Token) returns (ok: bool)
      requires nodes != [] && token.start + 2 <= token.end <= |doc| && current == token.end
      modifies this`nodes, this`errors
      ensures Outcome(StringParse(doc[token.start + 1..token.end - 1], token.end), ok, old(nodes), nodes, old(errors),
          errors, current)
    {
      var decoded;
      ok, decoded := DecodeString(token);
      if ok { SetCurrentValue(Str(CStr(decoded))); }
      assert Seal(Readings, 0);
    }

    method ReadValue() returns (ok: bool, ghost r: Parse)
      requires Valid() && nodes != []
      modifies this`current, this`nodes, this`errors
      ensures Valid() && ValueGives(cfg, doc, old(current), r)
      ensures Outcome(r, ok, old(nodes), nodes, old(errors), errors, current)
      decreases |doc| - current, 2
    {
      var token := SkipCommentTokens();
      if token.kind == ObjectBegin {
        ok, r := ReadObject();
        ObjectStep(cfg, doc, old(current), token, r);
      } else if token.kind == ArrayBegin {
        ok, r := ReadArray();
        ArrayStep(cfg, doc, old(current), token, r);
      } else {
        if token.kind == NumberToken {
          if cfg.allowComments { NumberPastComments(doc, old(current)); } else { NumberTokenChars(doc, old(current)); }
        }
        ok := ReadScalar(token);
        r := ParseScalar(cfg, doc, token);
        ScalarStep(cfg, doc, old(current), token);
      }
    }

    /** Reads one element into the array on top. */
    method ReadItem(index: nat) returns (ok: bool, ghost v: Parse)
      requires Valid() && nodes != [] && nodes[|nodes| - 1].Arr? && |nodes[|nodes| - 1].items| == index
      modifies this`current, this`nodes, this`errors
      ensures Valid() && ValueGives(cfg, doc, old(current), v)
      ensures Outcome(WithItem(old(nodes)[|old(nodes)| - 1].items, v), ok, old(nodes), nodes, old(errors), errors,
          current)
      decreases |doc| - current, 3
    {
      ghost var items := nodes[|nodes| - 1].items;
      PushItem();
      ok, v := ReadValue();
      PopItem(index);
      assert ok ==> (items + [Null])[index := v.value] == items + [v.value];
    }

    method ReadArray() returns (ok: bool, ghost r: Parse)
      requires Valid() && nodes != []
      modifies this`current, this`nodes, this`errors
      ensures Valid() && ArrayGives(cfg, doc, old(current), r)
      ensures Outcome(r, ok, old(nodes), nodes, old(errors), errors, current)
      decreases |doc| - current, 6
    {
      SetCurrentValue(Arr([]));
      SkipSpaces();
      if current < |doc| && doc[current] == ']' {
        r := Done(Arr([]), current + 1);
        ok := SkipBracket();
      } else {
        r := StartItems(cfg, doc, current);
        ok := ReadItems(r);
      }
    }

    /** Past the bracket of an empty array. */
    method SkipBracket() returns (ok: bool)
      requires Valid() && current < |doc| && doc[current] == ']'
      modifies this`current
      ensures Valid() && ok && current == old(current) + 1
    {
      var _ := ReadToken();
      assert Seal(Tokens, 0);
      ok := true;
    }

    /** The loop of `readArray`. */
    method ReadItems(ghost r: Parse) returns (ok: bool)
      requires Valid() && nodes != [] && nodes[|nodes| - 1] == Arr([]) && ItemsGive(cfg, doc, current, [], r)
      modifies this`current, this`nodes, this`errors
      ensures Valid() && Outcome(r, ok, old(nodes), nodes, old(errors), errors, current)
      decreases |doc| - current, 5
    {
      var index := 0;
      var more;
      more, ok := true, true;
      while more
        invariant Valid() && (more ==> old(current) <= current && errors == old(errors))
        invariant more ==> |nodes| == |old(nodes)| && nodes[..|nodes| - 1] == old(nodes)[..|nodes| - 1]
        invariant more ==> nodes[|nodes| - 1].Arr? && |nodes[|nodes| - 1].items| == index
        invariant more ==> ItemsGive(cfg, doc, current, nodes[|nodes| - 1].items, r)
        invariant !more ==> Outcome(r, ok, old(nodes), nodes, old(errors), errors, current)
        decreases more, |doc| - current
      {
        more, ok := ReadOneItem(index, r);
        index := index + 1;
      }
    }

    /** One element and the token behind it. */
    method ReadOneItem(index: nat, ghost r: Parse) returns (more: bool, ok: bool)
      requires Valid() && nodes != [] && nodes[|nodes| - 1].Arr? && |nodes[|nodes| - 1].items| == index
      requires ItemsGive(cfg, doc, current, nodes[|nodes| - 1].items, r)
      modifies this`current, this`nodes, this`errors
      ensures Valid() && (more ==> old(current) < current && errors == old(errors))
      ensures more ==> |nodes| == |old(nodes)| && nodes[..|nodes| - 1] == old(nodes)[..|nodes| - 1]
      ensures more ==> nodes[|nodes| - 1].Arr? && |nodes[|nodes| - 1].items| == index + 1
      ensures more ==> ItemsGive(cfg, doc, current, nodes[|nodes| - 1].items, r)
      ensures !more ==> Outcome(r, ok, old(nodes), nodes, old(errors), errors, current)
      decreases |doc| - current, 4
    {
      ghost var items, from := nodes[|nodes| - 1].items, current;
      more := false;
      ghost var v;
      ok, v := ReadItem(index);
      ItemStep(cfg, doc, from, items, r, v);
      if !ok {
        ok := RecoverFromError(ArrayEnd);
        return;
      }
      var token := ReadPastComments();
      ItemMark(cfg, doc, from, items, r, v, token);
      if token.kind != ArraySeparator && token.kind != ArrayEnd {
        ok := AddErrorAndRecover(MissingCommaOrBracket, token, ArrayEnd);
        return;
      }
      more := token.kind == ArraySeparator;
      ok := true;
    }

    /** The member of the object on top, made if need be, goes on the stack. */
    method PushMember(key: string)
      requires nodes != [] && nodes[|nodes| - 1].Obj?
      modifies this`nodes
      ensures var n := |old(nodes)|; var ms := old(nodes)[n - 1].members;
              nodes == old(nodes)[..n - 1] +
                  (match Existing(ms, key) case Some(v) => [Obj(ms), v] case None => [Obj(Insert(ms, key, Null)), Null])
    {
      var ms := nodes[|nodes| - 1].members;
      match Existing(ms, key)
      case Some(v) => nodes := nodes[..|nodes| - 1] + [Obj(ms), v];
      case None => nodes := nodes[..|nodes| - 1] + [Obj(Insert(ms, key, Null)), Null];
    }

    method PopMember(key: string)
      requires |nodes| >= 2 && nodes[|nodes| - 2].Obj?
      modifies this`nodes
      ensures var n := |old(nodes)|;
              nodes == old(nodes)[..n - 2] + [Obj(Insert(old(nodes)[n - 2].members, key, old(nodes)[n - 1]))]
    {
      nodes := nodes[..|nodes| - 2] + [Obj(Insert(nodes[|nodes| - 2].members, key, nodes[|nodes| - 1]))];
    }

    /** Reads the value of a member into the object on top. */
    method ReadMember(key: string) returns (ok: bool, ghost v: Parse)
      requires Valid() && nodes != [] && nodes[|nodes| - 1].Obj?
      modifies this`current, this`nodes, this`errors
      ensures Valid() && ValueGives(cfg, doc, old(current), v)
      ensures Outcome(WithMember(old(nodes)[|old(nodes)| - 1].members, key, v), ok, old(nodes), nodes, old(errors),
          errors, current)
      decreases |doc| - current, 3
    {
      ghost var ms := nodes[|nodes| - 1].members;
      PushMember(key);
      ghost var room := nodes[|nodes| - 2].members;
      ok, v := ReadValue();
      assert nodes[|nodes| - 2] == Obj(room);
      PopMember(key);
      if ok {
        InsertTwice(ms, key, Null, v.value);
        assert nodes[|nodes| - 1] == Obj(Insert(room, key, v.value)) == Obj(Insert(ms, key, v.value));
      }
    }

    /** The name of a member, if the token is one and can be decoded. */
    method ReadMemberName(token: Token) returns (outcome: NameOutcome, name: string)
      requires token.start <= token.end <= |doc| && (token.kind != EndOfStream ==> token.start < token.end)
      requires token.kind == StringToken ==> token.start + 2 <= token.end
      requires token.kind == NumberToken ==> NumberChars(doc[token.start..token.end])
      modifies this`errors
      ensures NameIs(cfg, doc, token, if outcome == Named then Some(name) else None)
      ensures if outcome == Undecodable then old(errors) < errors else errors == old(errors)
    {
      name := "";
      var ok;
      assert Seal(Readings, 0);
      if token.kind == StringToken {
        ok, name := DecodeString(token);
        outcome := if ok then Named else Undecodable;
      } else if token.kind == NumberToken && cfg.allowNumericKeys {
        var number;
        ok, number := DecodeNumber(token);
        if ok { name := NumberText(cfg, number); }
        outcome := if ok then Named else Undecodable;
      } else {
        outcome := NotAName;
      }
    }

    method ReadObject() returns (ok: bool, ghost r: Parse)
      requires Valid() && nodes != []
      modifies this`current, this`nodes, this`errors
      ensures Valid() && MembersGive(cfg, doc, old(current), [], true, r)
      ensures Outcome(r, ok, old(nodes), nodes, old(errors), errors, current)
      decreases |doc| - current, 7
    {
      SetCurrentValue(Obj([]));
      r := StartMembers(cfg, doc, current);
      ok := ReadMembers(r);
    }

    /** A member from its name to its value. */
    method ReadNamedMember(token: Token, ghost from: nat, ghost nameEmpty: bool, ghost r: Parse)
      returns (ok: bool, name: string, ghost ms: seq<Member>)
      requires Valid() && nodes != [] && nodes[|nodes| - 1].Obj? && current == token.end
      requires NextPastComments(doc, from, token)
      requires MembersGive(cfg, doc, from, nodes[|nodes| - 1].members, nameEmpty, r)
      requires !(token.kind == ObjectEnd && nameEmpty)
      modifies this`current, this`nodes, this`errors
      ensures Valid() && |nodes| == |old(nodes)| && nodes[..|nodes| - 1] == old(nodes)[..|nodes| - 1]
      ensures ok ==> old(current) < current && errors == old(errors) && nodes[|nodes| - 1] == Obj(ms)
      ensures ok ==> RestGives(cfg, doc, current, ms, name == "", r)
      ensures !ok ==> r.Fail? && old(errors) < errors
      decreases |doc| - current, 4
    {
      ms := nodes[|nodes| - 1].members;
      NameStep(cfg, doc, from, ms, nameEmpty, r, token);
      NumberName(doc, from, token);
      var outcome;
      outcome, name := ReadMemberName(token);
      if outcome == Undecodable {
        ok := RecoverFromError(ObjectEnd);
        return;
      } else if outcome == NotAName {
        ok := AddErrorAndRecover(MissingBraceOrName, token, ObjectEnd);
        return;
      }
      var colon := ReadToken();
      ColonStep(cfg, doc, from, ms, nameEmpty, r, token, name, colon);
      if colon.kind != MemberSeparator {
        ok := AddErrorAndRecover(MissingColon, colon, ObjectEnd);
        return;
      }
      ghost var v;
      ok, v := ReadMember(CStr(name));
      MemberStep(cfg, doc, from, ms, nameEmpty, r, token, name, colon, v);
      if ok {
        ms := Insert(ms, CStr(name), v.value);
      } else {
        ok := RecoverFromError(ObjectEnd);
      }
    }

    /** The loop of `readObject`. */
    method ReadMembers(ghost r: Parse) returns (ok: bool)
      requires Valid() && nodes != [] && nodes[|nodes| - 1] == Obj([]) && MembersGive(cfg, doc, current, [], true, r)
      modifies this`current, this`nodes, this`errors
      ensures Valid() && Outcome(r, ok, old(nodes), nodes, old(errors), errors, current)
      decreases |doc| - current, 6
    {
      var name, more := "", true;
      ok := false;
      while more
        invariant Valid() && |nodes| == |old(nodes)| && nodes[..|nodes| - 1] == old(nodes)[..|nodes| - 1]
        invariant more ==> old(current) <= current && errors == old(errors) && nodes[|nodes| - 1].Obj?
        invariant more ==> MembersGive(cfg, doc, current, nodes[|nodes| - 1].members, name == "", r)
        invariant !more ==> Outcome(r, ok, old(nodes), nodes, old(errors), errors, current)
        decreases more, |doc| - current
      {
        ok, more, name := ReadOneMember(name, r);
      }
    }

    /** One round of it. */
    method ReadOneMember(last: string, ghost r: Parse) returns (ok: bool, more: bool, name: string)
      requires Valid() && nodes != [] && nodes[|nodes| - 1].Obj?
      requires MembersGive(cfg, doc, current, nodes[|nodes| - 1].members, last == "", r)
      modifies this`current, this`nodes, this`errors
      ensures Valid() && |nodes| == |old(nodes)| && nodes[..|nodes| - 1] == old(nodes)[..|nodes| - 1]
      ensures more ==> old(current) < current && errors == old(errors) && nodes[|nodes| - 1].Obj?
      ensures more ==> MembersGive(cfg, doc, current, nodes[|nodes| - 1].members, name == "", r)
      ensures !more ==> Outcome(r, ok, old(nodes), nodes, old(errors), errors, current)
      decreases |doc| - current, 5
    {
      ghost var ms := nodes[|nodes| - 1].members;
      var token := ReadPastComments();
      if token.kind == ObjectEnd && last == "" {
        BraceStep(cfg, doc, old(current), ms, r, token);
        return true, false, last;
      }
      ok, name, ms := ReadNamedMember(token, old(current), last == "", r);
      more := ok;
      if ok {
        ok, more := ReadComma(ms, name == "", r);
      }
    }

    /** Behind a member: the closing brace, or something taken for a comma, or an error. */
    method ReadComma(ghost ms: seq<Member>, ghost nameEmpty: bool, ghost r: Parse) returns (ok: bool, more: bool)
      requires Valid() && RestGives(cfg, doc, current, ms, nameEmpty, r)
      modifies this`current, this`errors
      ensures Valid()
      ensures more ==> current > old(current) && errors == old(errors)
      ensures more ==> MembersGive(cfg, doc, current, ms, nameEmpty, r)
      ensures !more && ok ==> r == Done(Obj(ms), current) && errors == old(errors)
      ensures !more && !ok ==> r.Fail? && old(errors) < errors
    {
      var comma := ReadToken();
      RestStep(cfg, doc, old(current), ms, nameEmpty, r, comma);
      if comma.kind != ObjectEnd && comma.kind != ArraySeparator && comma.kind != Comment {
        ok := AddErrorAndRecover(MissingCommaOrBrace, comma, ObjectEnd);
        return ok, false;
      }
      if comma.kind == Comment {
        ghost var first := comma;
        comma := ReadPastComments();
        CommentStep(cfg, doc, old(current), ms, nameEmpty, r, first, comma);
      }
      return comma.kind == ObjectEnd, comma.kind != ObjectEnd;
    }

    /** Every document is read to an end. The answer is yes exactly when no error was recorded, and then the value is
        the one the grammar gives. */
    method Parse(text: string, root: Value) returns (ok: bool, value: Value)
      modifies this
      ensures ok == ParseDocument(cfg, text).Done? && (ok <==> errors == [])
      ensures (ok ==> value == ParseDocument(cfg, text).value)
      ensures nodes == [value]
    {
      doc, current, errors := text, 0, [];
      nodes := [root];
      ghost var r;
      ok, r := ReadValue();
      assert ParseValue(cfg, text, 0) == r by { assert Seal(Parses, 0); }
      var _ := SkipCommentTokens();
      value := nodes[0];
      assert nodes == [value];
      if cfg.strictRoot && !value.Arr? && !value.Obj? {
        ok := AddError(BadRoot, Token(Error, 0, |doc|), None);
      }
    }
  }
}
