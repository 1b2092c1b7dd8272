/** The tokens a JSON value is written with, documents that lay them out with any white space between them,
    and the theorem that the reader understands every such document. */
module JsonLayout {
  import opened Sealing
  import opened Numerals
  import opened JsonText
  import opened JsonGrammar

  // ---------- the tokens of a value ----------

  function IntText(i: int): string {
    if i < 0 then "-" + Numeral(-i, 10) else Numeral(i, 10)
  }

  function Width(v: Value): nat {
    match v case Arr(items) => |items| + 1 case Obj(ms) => |ms| + 1 case _ => 0
  }

  function TokensOf(v: Value, show: real -> string): seq<string>
    decreases v, Width(v)
  {
    match v
    case Null => ["null"]
    case Int(i) => [IntText(i)]
    case UInt(u) => [Numeral(u, 10)]
    case Real(r) => [show(r)]
    case Str(s) => [Quoted(s)]
    case Bool(b) => [if b then "true" else "false"]
    case Arr(items) => ["["] + (if items == [] then ["]"] else ItemTokens(v, 0, show))
    case Obj(ms) => ["{"] + (if ms == [] then ["}"] else MemberTokens(v, 0, show))
  }

  /** Elements from k on, with what follows each. */
  function ItemTokens(v: Value, k: nat, show: real -> string): seq<string>
    requires v.Arr? && k < |v.items|
    decreases v, |v.items| - k
  {
    TokensOf(v.items[k], show) + if k + 1 < |v.items| then [","] + ItemTokens(v, k + 1, show) else ["]"]
  }

  function MemberTokens(v: Value, k: nat, show: real -> string): seq<string>
    requires v.Obj? && k < |v.members|
    decreases v, |v.members| - k
  {
    [Quoted(v.members[k].key), ":"] + TokensOf(v.members[k].value, show) +
    if k + 1 < |v.members| then [","] + MemberTokens(v, k + 1, show) else ["}"]
  }

  /** Text the tokenizer takes for one number. */
  predicate IsNumberText(t: string) {
    t != "" && (IsDecimalDigit(t[0]) || t[0] == '-') && forall k :: 0 <= k < |t| ==> InNumber(t[k])
  }

  /** Values that can be written and read back: no zero bytes, keys in order, integers in range, and of the reals
      those whose text is a number. */
  predicate Printable(cfg: Config, v: Value)
    decreases v
  {
    match v
    case Int(i) => -0x8000_0000_0000_0000 < i < 0x8000_0000_0000_0000
    case UInt(u) => u <= MAX_UINT64
    case Real(r) => IsNumberText(cfg.show(r)) && DecodeNumber(cfg.scan, cfg.show(r)).Some?
    case Str(s) => NulFree(s)
    case Arr(items) => forall k :: 0 <= k < |items| ==> Printable(cfg, items[k])
    case Obj(ms) =>
      (forall k :: 0 <= k < |ms| ==> NulFree(ms[k].key) && Printable(cfg, ms[k].value)) &&
      (forall j, k :: 0 <= j < k < |ms| ==> Less(ms[j].key, ms[k].key))
    case _ => true
  }

  /** The same tree with the tags the reader gives to numbers. */
  function Normal(cfg: Config, v: Value): Value
    requires Printable(cfg, v)
    decreases v
  {
    match v
    case Int(i) => if i <= MAX_INT then v else UInt(i)
    case UInt(u) => if u <= MAX_INT then Int(u) else v
    case Real(r) => DecodeNumber(cfg.scan, cfg.show(r)).value
    case Arr(items) => Arr(seq(|items|, k requires 0 <= k < |items| => Normal(cfg, items[k])))
    case Obj(ms) => Obj(seq(|ms|, k requires 0 <= k < |ms| => Member(ms[k].key, Normal(cfg, ms[k].value))))
    case _ => v
  }

  // ---------- documents that lay out tokens ----------

  /** From i to j the document holds these tokens, with white space only before each. */
  predicate Lays(doc: string, i: nat, tokens: seq<string>, j: nat)
    decreases |tokens|
  {
    i <= |doc| &&
    if tokens == [] then i == j
    else
      var p := SkipSpaces(doc, i);
      MatchAt(doc, p, tokens[0]) && Lays(doc, p + |tokens[0]|, tokens[1..], j)
  }

  /** The same, to be unfolded on demand. */
  ghost predicate Spans(doc: string, i: nat, tokens: seq<string>, j: nat) {
    forall k :: Seal(Layouts, k) ==> Lays(doc, i, tokens, j)
  }

  lemma SpansNothing(doc: string, i: nat, j: nat)
    requires Spans(doc, i, [], j)
    ensures i == j
  {
    assert Seal(Layouts, 0);
  }

  lemma SpansFirst(doc: string, i: nat, ts: seq<string>, j: nat) returns (p: nat)
    requires Spans(doc, i, ts, j) && ts != []
    ensures i <= p <= |doc| && p == SkipSpaces(doc, i) && Holds(doc, p, ts[0]) && Spans(doc, p + |ts[0]|, ts[1..], j)
  {
    assert Seal(Layouts, 0);
    p := SkipSpaces(doc, i);
  }

  lemma SpansCons(doc: string, i: nat, p: nat, ts: seq<string>, j: nat)
    requires ts != [] && i <= |doc| && p == SkipSpaces(doc, i) && Holds(doc, p, ts[0])
    requires Spans(doc, p + |ts[0]|, ts[1..], j)
    ensures Spans(doc, i, ts, j)
  {
    assert Seal(Layouts, 0) && Seal(Lines, 0);
  }

  lemma {:induction false} SpansSplit(doc: string, i: nat, a: seq<string>, b: seq<string>, j: nat) returns (p: nat)
    requires Spans(doc, i, a + b, j)
    ensures Spans(doc, i, a, p) && Spans(doc, p, b, j)
    decreases |a|
  {
    if a == [] {
      p := i;
      assert a + b == b;
      SpansBound(doc, i, b, j);
    } else {
      var q := SpansFirst(doc, i, a + b, j);
      assert (a + b)[1..] == a[1..] + b;
      p := SpansSplit(doc, q + |a[0]|, a[1..], b, j);
      SpansCons(doc, i, q, a, p);
    }
  }

  lemma SpansBound(doc: string, i: nat, ts: seq<string>, j: nat)
    requires Spans(doc, i, ts, j)
    ensures i <= |doc| && Spans(doc, i, [], i)
  {
    assert Seal(Layouts, 0);
  }

  lemma {:induction false} SpansJoin(doc: string, i: nat, a: seq<string>, p: nat, b: seq<string>, j: nat)
    requires Spans(doc, i, a, p) && Spans(doc, p, b, j)
    ensures Spans(doc, i, a + b, j)
    decreases |a|
  {
    if a == [] {
      SpansNothing(doc, i, p);
      assert a + b == b;
    } else {
      var q := SpansFirst(doc, i, a, p);
      SpansJoin(doc, q + |a[0]|, a[1..], p, b, j);
      assert (a + b)[1..] == a[1..] + b;
      SpansCons(doc, i, q, a + b, j);
    }
  }

  /** White space, then the token. */
  lemma SpansOne(doc: string, i: nat, t: string, j: nat) returns (p: nat)
    requires Spans(doc, i, [t], j)
    ensures i <= p <= j <= |doc| && p == SkipSpaces(doc, i) && Holds(doc, p, t) && j == p + |t|
  {
    p := SpansFirst(doc, i, [t], j);
    SpansNothing(doc, p + |t|, j);
  }

  lemma SpansFromSpace(doc: string, i: nat, t: string, ts: seq<string>, j: nat) returns (p: nat)
    requires Spans(doc, i, [t] + ts, j)
    ensures i <= p <= |doc| && p == SkipSpaces(doc, i) && Holds(doc, p, t) && Spans(doc, p, [t] + ts, j)
  {
    p := SpansFirst(doc, i, [t] + ts, j);
    assert SkipSpaces(doc, p) == p;
    SpansCons(doc, p, p, [t] + ts, j);
  }

  /** Nothing here could prolong a number. */
  predicate Ends(doc: string, i: nat) {
    i >= |doc| || !InNumber(doc[i])
  }

  lemma MarkEnds(doc: string, i: nat, t: string, j: nat)
    requires Spans(doc, i, [t], j) && t in {",", "]", "}"}
    ensures Ends(doc, i)
  {
    var p := SpansOne(doc, i, t, j);
    SliceAt(doc, p, t, 0);
  }

  /** The text stands there. */
  ghost predicate Holds(doc: string, i: nat, t: string) {
    i + |t| <= |doc| && forall k :: Seal(Lines, k) ==> doc[i..i + |t|] == t
  }

  lemma SliceAt(doc: string, j: nat, t: string, k: nat)
    requires Holds(doc, j, t) && k < |t|
    ensures doc[j + k] == t[k]
  {
    assert Seal(Lines, 0);
    assert doc[j..j + |t|][k] == doc[j + k];
  }

  // ---------- each token is read ----------

  /** The token at i is of that kind, is no comment, and ends at j. */
  ghost predicate TokenAt(doc: string, i: nat, kind: Kind, j: nat) {
    forall k :: Seal(Tokens, k) ==>
        i <= |doc| && SkipComments(doc, i) == ReadToken(doc, i) && ReadToken(doc, i).kind == kind &&
                                    ReadToken(doc, i).end == j
  }

  function MarkKind(t: string): Kind {
    if t == "{" then ObjectBegin else if t == "}" then ObjectEnd else if t == "[" then ArrayBegin
    else if t == "]" then ArrayEnd else if t == "," then ArraySeparator else MemberSeparator
  }

  lemma ReadsMark(doc: string, i: nat, t: string, j: nat)
    requires Spans(doc, i, [t], j) && t in {"{", "}", "[", "]", ",", ":"}
    ensures TokenAt(doc, i, MarkKind(t), j)
  {
    var p := SpansOne(doc, i, t, j);
    SliceAt(doc, p, t, 0);
  }

  function KeywordKind(t: string): Kind {
    if t == "null" then NullToken else if t == "true" then TrueToken else FalseToken
  }

  lemma ReadsKeyword(doc: string, i: nat, t: string, j: nat)
    requires Spans(doc, i, [t], j) && t in {"null", "true", "false"}
    ensures TokenAt(doc, i, KeywordKind(t), j)
  {
    var p := SpansOne(doc, i, t, j);
    SliceAt(doc, p, t, 0);
    KeywordRest(doc, p, t, if t == "null" then "ull" else if t == "true" then "rue" else "alse");
  }

  lemma KeywordRest(doc: string, j: nat, t: string, rest: string)
    requires Holds(doc, j, t) && t != "" && t[1..] == rest
    ensures MatchAt(doc, j + 1, rest)
  {
    assert Seal(Lines, 0);
    assert doc[j + 1..j + |t|] == doc[j..j + |t|][1..];
  }

  lemma ScanPlain(doc: string, i: nat)
    requires i < |doc| && doc[i] != '\\' && doc[i] != '"'
    ensures ScanString(doc, i) == ScanString(doc, i + 1)
  {
  }

  lemma ScanBackslash(doc: string, i: nat)
    requires i + 1 < |doc| && doc[i] == '\\'
    ensures ScanString(doc, i) == ScanString(doc, i + 2)
  {
  }

  /** Scanning passes over an escaped character. */
  lemma ScanOne(doc: string, i: nat, c: char)
    requires Holds(doc, i, Escape(c))
    ensures ScanString(doc, i) == ScanString(doc, i + |Escape(c)|)
  {
    var e := Escape(c);
    SliceAt(doc, i, e, 0);
    if |e| == 1 {
      ScanPlain(doc, i);
    } else {
      ScanBackslash(doc, i);
      if |e| > 2 {
        MatchSplits(doc, i, "\\u", Hex4(c as int));
        ScanHex(doc, i + 2, c as int);
      }
    }
  }

  lemma ScanHex(doc: string, i: nat, n: nat)
    requires n < 0x10000 && Holds(doc, i, Hex4(n))
    ensures ScanString(doc, i) == ScanString(doc, i + 4)
  {
    var h := Hex4(n);
    SliceAt(doc, i, h, 0);
    SliceAt(doc, i, h, 1);
    SliceAt(doc, i, h, 2);
    SliceAt(doc, i, h, 3);
    ScanPlain(doc, i);
    ScanPlain(doc, i + 1);
    ScanPlain(doc, i + 2);
    ScanPlain(doc, i + 3);
  }

  /** Scanning goes from i to the same end as from j. */
  ghost predicate ScansOn(doc: string, i: nat, j: nat) {
    forall k :: Seal(Tokens, k) ==> i <= |doc| && j <= |doc| && ScanString(doc, i) == ScanString(doc, j)
  }

  lemma ScansStep(doc: string, i: nat, s: string) returns (n: nat)
    requires s != "" && Holds(doc, i, Escaped(s))
    ensures |Escaped(s)| == n + |Escaped(s[1..])| && Holds(doc, i + n, Escaped(s[1..])) && ScansOn(doc, i, i + n)
  {
    n := |Escape(s[0])|;
    MatchSplits(doc, i, Escape(s[0]), Escaped(s[1..]));
    ScanOne(doc, i, s[0]);
  }

  lemma ScansNone(doc: string, i: nat)
    requires i <= |doc|
    ensures ScansOn(doc, i, i)
  {
  }

  lemma ScansTwice(doc: string, i: nat, j: nat, l: nat)
    requires ScansOn(doc, i, j) && ScansOn(doc, j, l)
    ensures ScansOn(doc, i, l)
  {
    assert Seal(Tokens, 0);
  }

  lemma {:induction false} ScanEscaped(doc: string, i: nat, s: string)
    requires Holds(doc, i, Escaped(s))
    ensures ScansOn(doc, i, i + |Escaped(s)|)
    decreases |s|
  {
    if s == "" {
      ScansNone(doc, i);
    } else {
      var n := ScansStep(doc, i, s);
      var rest := |Escaped(s[1..])|;
      ScanEscaped(doc, i + n, s[1..]);
      ScansTwice(doc, i, i + n, i + n + rest);
    }
  }

  lemma MatchSplits(doc: string, i: nat, e: string, r: string)
    requires Holds(doc, i, e + r)
    ensures Holds(doc, i, e) && Holds(doc, i + |e|, r)
  {
    assert Seal(Lines, 0);
    var t := doc[i..i + |e + r|];
    assert doc[i..i + |e|] == t[..|e|] && doc[i + |e|..i + |e| + |r|] == t[|e|..];
  }

  lemma QuotedAt(doc: string, j: nat, s: string)
    requires Holds(doc, j, Quoted(s))
    ensures Holds(doc, j, "\"") && Holds(doc, j + 1, Escaped(s)) && Holds(doc, j + 1 + |Escaped(s)|, "\"")
  {
    var e := Escaped(s);
    assert Quoted(s) == "\"" + (e + "\"");
    MatchSplits(doc, j, "\"", e + "\"");
    MatchSplits(doc, j + 1, e, "\"");
  }

  /** A string token, and what is between its quotes. */
  ghost predicate StringAt(doc: string, i: nat, text: string, j: nat) {
    forall k :: Seal(Tokens, k) ==>
        i <= |doc| && SkipComments(doc, i) == ReadToken(doc, i) && ReadToken(doc, i).kind == StringToken &&
                                    ReadToken(doc, i).end == j && doc[ReadToken(doc, i).start + 1..j - 1] == text
  }

  lemma ReadsQuoted(doc: string, i: nat, s: string, j: nat)
    requires Spans(doc, i, [Quoted(s)], j)
    ensures StringAt(doc, i, Escaped(s), j)
  {
    var p := SpansOne(doc, i, Quoted(s), j);
    QuotedAt(doc, p, s);
    QuotedSize(s);
    ReadsEscaped(doc, i, p, s, Escaped(s), j);
  }

  lemma QuotedSize(s: string)
    ensures |Quoted(s)| == |Escaped(s)| + 2
  {
  }

  lemma ReadsEscaped(doc: string, i: nat, p: nat, s: string, text: string, j: nat)
    requires i <= |doc| && p == SkipSpaces(doc, i) && j == p + |text| + 2 && text == Escaped(s)
    requires Holds(doc, p, "\"") && Holds(doc, p + 1, text) && Holds(doc, p + 1 + |text|, "\"")
    ensures StringAt(doc, i, text, j)
  {
    ScanEscaped(doc, p + 1, s);
    ReadsString(doc, i, p, text, j);
  }

  lemma ReadsString(doc: string, i: nat, p: nat, text: string, j: nat)
    requires i <= |doc| && p == SkipSpaces(doc, i) && j == p + |text| + 2
    requires Holds(doc, p, "\"") && Holds(doc, p + 1, text) && Holds(doc, p + 1 + |text|, "\"")
    requires ScansOn(doc, p + 1, p + 1 + |text|)
    ensures StringAt(doc, i, text, j)
  {
    SliceAt(doc, p, "\"", 0);
    SliceAt(doc, p + 1 + |text|, "\"", 0);
    ClosedString(doc, i, p, j);
    assert Seal(Lines, 0);
  }

  lemma ClosedString(doc: string, i: nat, p: nat, j: nat)
    requires i <= |doc| && p == SkipSpaces(doc, i) && p + 1 < j <= |doc| && doc[p] == '"' && doc[j - 1] == '"'
    requires ScansOn(doc, p + 1, j - 1)
    ensures ReadToken(doc, i) == Token(StringToken, p, j)
  {
    assert Seal(Tokens, 0);
  }

  lemma {:induction false} NumberRuns(doc: string, i: nat, j: nat)
    requires i <= j <= |doc| && (forall k :: i <= k < j ==> InNumber(doc[k])) && Ends(doc, j)
    ensures NumberEnd(doc, i) == j
    decreases j - i
  {
    if i < j { NumberRuns(doc, i + 1, j); }
  }

  lemma NumberAt(doc: string, j: nat, t: string)
    requires Holds(doc, j, t) && IsNumberText(t) && Ends(doc, j + |t|)
    ensures doc[j] == t[0] && NumberEnd(doc, j + 1) == j + |t|
  {
    forall k | j <= k < j + |t| ensures doc[k] == t[k - j] && InNumber(doc[k]) {
      SliceAt(doc, j, t, k - j);
    }
    NumberRuns(doc, j + 1, j + |t|);
  }

  ghost predicate NumberTokenAt(doc: string, i: nat, text: string, j: nat) {
    forall k :: Seal(Tokens, k) ==>
        i <= |doc| && SkipComments(doc, i) == ReadToken(doc, i) && ReadToken(doc, i).kind == NumberToken &&
                                    ReadToken(doc, i).end == j && doc[ReadToken(doc, i).start..j] == text
  }

  lemma ReadsNumber(doc: string, i: nat, t: string, j: nat)
    requires IsNumberText(t) && Spans(doc, i, [t], j) && Ends(doc, j)
    ensures NumberTokenAt(doc, i, t, j)
  {
    var p := SpansOne(doc, i, t, j);
    NumberAt(doc, p, t);
    assert Seal(Lines, 0);
  }

  /** The text of an integer: a sign, perhaps, and digits. */
  predicate IsIntText(t: string) {
    t != "" && (IsDecimalDigit(t[0]) || t[0] == '-') && forall k :: 1 <= k < |t| ==> IsDecimalDigit(t[k])
  }

  // ---------- numbers ----------

  lemma NumeralDigits(n: nat)
    ensures AllDigits(Numeral(n, 10))
    decreases n
  {
    if n < 10 { DecimalDigit(n); } else { NumeralDigits(n / 10); DecimalDigit(n % 10); }
  }

  lemma DigitsNotReal(t: string)
    requires IsIntText(t)
    ensures !LooksReal(t)
  {
    forall i | 0 <= i < |t| ensures !(t[i] in {'.', 'e', 'E', '+'} || (t[i] == '-' && i > 0)) {
      if i > 0 { assert IsDecimalDigit(t[i]); }
    }
  }

  /** The reader gives every number in range back, with the tag it prefers. */
  lemma DecodesNatural(scan: string -> Option<real>, n: nat)
    requires n <= MAX_UINT64
    ensures IsIntText(Numeral(n, 10))
    ensures DecodeNumber(scan, Numeral(n, 10)) == Some(if n <= MAX_INT then Int(n) else UInt(n))
  {
    NumeralDigits(n);
    NumeralReadsBack(n, 10);
    assert IsIntText(Numeral(n, 10));
    DigitsNotReal(Numeral(n, 10));
  }

  lemma DecodesNegative(scan: string -> Option<real>, n: nat)
    requires n <= MAX_NEGATIVE
    ensures IsIntText("-" + Numeral(n, 10)) && DecodeNumber(scan, "-" + Numeral(n, 10)) == Some(Int(-(n as int)))
  {
    var t := "-" + Numeral(n, 10);
    NumeralDigits(n);
    NumeralReadsBack(n, 10);
    assert t[1..] == Numeral(n, 10);
    forall k | 1 <= k < |t| ensures IsDecimalDigit(t[k]) { assert t[k] == Numeral(n, 10)[k - 1]; }
    DigitsNotReal(t);
  }

  lemma DecodesInt(cfg: Config, v: Value)
    requires Printable(cfg, v) && (v.Int? || v.UInt? || v.Real?)
    ensures var t := NumberText(cfg, v);
            TokensOf(v, cfg.show) == [t] && IsNumberText(t) && DecodeNumber(cfg.scan, t) == Some(Normal(cfg, v))
  {
    if v.Int? {
      DecodesSigned(cfg, v);
    } else if v.UInt? {
      DecodesNatural(cfg.scan, v.u);
    }
  }

  lemma DecodesSigned(cfg: Config, v: Value)
    requires Printable(cfg, v) && v.Int?
    ensures var t := NumberText(cfg, v);
            TokensOf(v, cfg.show) == [t] && IsNumberText(t) && DecodeNumber(cfg.scan, t) == Some(Normal(cfg, v))
  {
    if v.i < 0 {
      DecodesNegative(cfg.scan, -v.i);
    } else {
      DecodesNatural(cfg.scan, v.i);
    }
  }

  // ---------- keys ----------

  lemma {:induction false} CStrWhole(s: string)
    requires NulFree(s)
    ensures CStr(s) == s
  {
    if s != "" { CStrWhole(s[1..]); }
  }

  lemma {:induction false} LessIrreflexive(a: string)
    ensures !Less(a, a)
  {
    if a != "" { LessIrreflexive(a[1..]); }
  }

  lemma {:induction false} LessAsymmetric(a: string, b: string)
    requires Less(a, b)
    ensures !Less(b, a) && a != b
    decreases |a|
  {
    LessIrreflexive(a);
    if a != "" && a[0] == b[0] { LessAsymmetric(a[1..], b[1..]); }
  }

  /** A key beyond all others goes last. */
  lemma {:induction false} InsertLast(ms: seq<Member>, key: string, v: Value)
    requires forall k :: 0 <= k < |ms| ==> Less(ms[k].key, key)
    ensures Insert(ms, key, v) == ms + [Member(key, v)]
  {
    if ms != [] {
      LessAsymmetric(ms[0].key, key);
      InsertLast(ms[1..], key, v);
    }
  }

  // ---------- what the grammar makes of the tokens ----------

  /** The reader, set at i, finds v and stops at j. */
  ghost predicate ValueAt(cfg: Config, doc: string, i: nat, v: Value, j: nat) {
    forall k :: Seal(Parses, k) ==> i <= |doc| && ParseValue(cfg, doc, i) == Done(v, j)
  }

  /** The same inside an array, behind these elements. */
  ghost predicate ItemsAt(cfg: Config, doc: string, i: nat, items: seq<Value>, v: Value, j: nat) {
    forall k :: Seal(Parses, k) ==> i <= |doc| && ParseItems(cfg, doc, i, items) == Done(v, j)
  }

  /** The same inside an object, behind these members. */
  ghost predicate MembersAt(cfg: Config, doc: string, i: nat, ms: seq<Member>, nameEmpty: bool, v: Value, j: nat) {
    forall k :: Seal(Parses, k) ==> i <= |doc| && ParseMembers(cfg, doc, i, ms, nameEmpty) == Done(v, j)
  }

  lemma KeywordValue(cfg: Config, doc: string, i: nat, t: string, j: nat)
    requires TokenAt(doc, i, KeywordKind(t), j) && t in {"null", "true", "false"}
    ensures ValueAt(cfg, doc, i, if t == "null" then Null else Bool(t == "true"), j)
  {
    assert Seal(Tokens, 0);
  }

  lemma StringTokenOf(cfg: Config, doc: string, i: nat, text: string, j: nat) returns (t: Token)
    requires StringAt(doc, i, text, j)
    ensures i <= |doc| && t == ValueToken(cfg, doc, i) && t.kind == StringToken && t.end == j
    ensures doc[t.start + 1..t.end - 1] == text
  {
    assert Seal(Tokens, 0);
    t := ValueToken(cfg, doc, i);
  }

  lemma StringScalar(cfg: Config, doc: string, t: Token, text: string)
    requires t.kind == StringToken && t.start + 2 <= t.end <= |doc| && doc[t.start + 1..t.end - 1] == text
    ensures ParseScalar(cfg, doc, t) == StringParse(text, t.end)
  {
  }

  lemma StringValue(cfg: Config, doc: string, i: nat, text: string, s: string, j: nat)
    requires StringAt(doc, i, text, j) && Unescape(text) == Some(s)
    ensures ValueAt(cfg, doc, i, Str(CStr(s)), j)
  {
    var t := StringTokenOf(cfg, doc, i, text, j);
    StringScalar(cfg, doc, t, text);
    ScalarValue(cfg, doc, i, t);
  }

  lemma ScalarValue(cfg: Config, doc: string, i: nat, t: Token)
    requires i <= |doc| && t == ValueToken(cfg, doc, i) && t.kind != ArrayBegin && t.kind != ObjectBegin
    ensures ParseValue(cfg, doc, i) == ParseScalar(cfg, doc, t)
  {
  }

  lemma NumberScalar(cfg: Config, doc: string, i: nat, text: string, j: nat) returns (t: Token)
    requires NumberTokenAt(doc, i, text, j)
    ensures i <= |doc| && t == ValueToken(cfg, doc, i) && t.kind == NumberToken
    ensures ParseScalar(cfg, doc, t) == NumberParse(cfg, text, j)
  {
    assert Seal(Tokens, 0);
    t := ValueToken(cfg, doc, i);
  }

  lemma NumberValue(cfg: Config, doc: string, i: nat, text: string, v: Value, j: nat)
    requires NumberTokenAt(doc, i, text, j) && DecodeNumber(cfg.scan, text) == Some(v)
    ensures ValueAt(cfg, doc, i, v, j)
  {
    var t := NumberScalar(cfg, doc, i, text, j);
    ScalarValue(cfg, doc, i, t);
  }

  lemma EmptyArray(cfg: Config, doc: string, i: nat, p: nat, j: nat)
    requires TokenAt(doc, i, ArrayBegin, p) && p <= |doc| && SkipSpaces(doc, p) < |doc|
    requires doc[SkipSpaces(doc, p)] == ']'
    requires j == SkipSpaces(doc, p) + 1
    ensures ValueAt(cfg, doc, i, Arr([]), j)
  {
    assert Seal(Tokens, 0);
  }

  lemma ArrayValue(cfg: Config, doc: string, i: nat, p: nat, q: nat, v: Value, j: nat)
    requires TokenAt(doc, i, ArrayBegin, p) && p <= |doc| && q == SkipSpaces(doc, p) && q < |doc| && doc[q] != ']'
    requires ItemsAt(cfg, doc, q, [], v, j)
    ensures ValueAt(cfg, doc, i, v, j)
  {
    assert Seal(Tokens, 0) && Seal(Parses, 0);
  }

  lemma ItemsLast(cfg: Config, doc: string, i: nat, items: seq<Value>, v: Value, p: nat, j: nat)
    requires ValueAt(cfg, doc, i, v, p) && TokenAt(doc, p, ArrayEnd, j)
    ensures ItemsAt(cfg, doc, i, items, Arr(items + [v]), j)
  {
    assert Seal(Tokens, 0) && Seal(Parses, 0);
  }

  lemma ItemsNext(cfg: Config, doc: string, i: nat, items: seq<Value>, v: Value, p: nat, q: nat, w: Value, j: nat)
    requires ValueAt(cfg, doc, i, v, p) && TokenAt(doc, p, ArraySeparator, q) && ItemsAt(cfg, doc, q, items + [v], w, j)
    ensures ItemsAt(cfg, doc, i, items, w, j)
  {
    assert Seal(Tokens, 0) && Seal(Parses, 0);
  }

  lemma ObjectValue(cfg: Config, doc: string, i: nat, p: nat, v: Value, j: nat)
    requires TokenAt(doc, i, ObjectBegin, p) && MembersAt(cfg, doc, p, [], true, v, j)
    ensures ValueAt(cfg, doc, i, v, j)
  {
    assert Seal(Tokens, 0) && Seal(Parses, 0);
  }

  lemma EmptyObject(cfg: Config, doc: string, i: nat, j: nat)
    requires TokenAt(doc, i, ObjectEnd, j)
    ensures MembersAt(cfg, doc, i, [], true, Obj([]), j)
  {
    assert Seal(Tokens, 0);
  }

  ghost predicate NameAt(cfg: Config, doc: string, i: nat, key: string, j: nat) {
    forall k :: Seal(Tokens, k) ==>
      i <= |doc| && SkipComments(doc, i).kind == StringToken &&
      MemberName(cfg, doc, SkipComments(doc, i)) == Some(key) &&
      SkipComments(doc, i).end == j
  }

  lemma StringName(cfg: Config, doc: string, i: nat, text: string, key: string, j: nat)
    requires StringAt(doc, i, text, j) && Unescape(text) == Some(key)
    ensures NameAt(cfg, doc, i, key, j)
  {
    assert Seal(Tokens, 0);
  }

  lemma MemberStep(cfg: Config, doc: string, i: nat, ms: seq<Member>, nameEmpty: bool, key: string, p: nat, q: nat,
                   v: Value, r: nat)
    requires NameAt(cfg, doc, i, key, p) && TokenAt(doc, p, MemberSeparator, q) && ValueAt(cfg, doc, q, v, r)
    ensures i <= |doc| && r <= |doc|
    ensures ParseMembers(cfg, doc, i, ms, nameEmpty) == ParseRest(cfg, doc, r, Insert(ms, CStr(key), v), key == "")
  {
    assert Seal(Tokens, 0) && Seal(Parses, 0);
  }

  lemma MembersLast(cfg: Config, doc: string, i: nat, ms: seq<Member>, nameEmpty: bool, key: string, p: nat, q: nat,
                    v: Value, r: nat, j: nat)
    requires NameAt(cfg, doc, i, key, p) && TokenAt(doc, p, MemberSeparator, q) && ValueAt(cfg, doc, q, v, r)
    requires TokenAt(doc, r, ObjectEnd, j)
    ensures MembersAt(cfg, doc, i, ms, nameEmpty, Obj(Insert(ms, CStr(key), v)), j)
  {
    MemberStep(cfg, doc, i, ms, nameEmpty, key, p, q, v, r);
    assert Seal(Tokens, 0);
  }

  lemma MembersNext(cfg: Config, doc: string, i: nat, ms: seq<Member>, nameEmpty: bool, key: string, p: nat, q: nat,
                    v: Value, r: nat,
                    s: nat, w: Value, j: nat)
    requires NameAt(cfg, doc, i, key, p) && TokenAt(doc, p, MemberSeparator, q) && ValueAt(cfg, doc, q, v, r)
    requires TokenAt(doc, r, ArraySeparator, s) && MembersAt(cfg, doc, s, Insert(ms, CStr(key), v), key == "", w, j)
    ensures MembersAt(cfg, doc, i, ms, nameEmpty, w, j)
  {
    MemberStep(cfg, doc, i, ms, nameEmpty, key, p, q, v, r);
    assert Seal(Tokens, 0) && Seal(Parses, 0);
  }

  // ---------- the reader understands every layout ----------

  lemma FirstToken(cfg: Config, v: Value)
    requires Printable(cfg, v)
    ensures |TokensOf(v, cfg.show)| > 0 && TokensOf(v, cfg.show)[0] != "" && TokensOf(v, cfg.show)[0][0] != ']'
  {
    match v
    case Int(_) => DecodesInt(cfg, v);
    case UInt(_) => DecodesInt(cfg, v);
    case Str(s) => assert Quoted(s)[0] == '"';
    case _ =>
  }

  lemma ReadsScalar(cfg: Config, doc: string, i: nat, v: Value, j: nat)
    requires Printable(cfg, v) && !v.Arr? && !v.Obj? && Spans(doc, i, TokensOf(v, cfg.show), j) && Ends(doc, j)
    ensures ValueAt(cfg, doc, i, Normal(cfg, v), j)
  {
    match v
    case Null =>
      ReadsKeyword(doc, i, "null", j);
      KeywordValue(cfg, doc, i, "null", j);
    case Bool(b) =>
      var t := if b then "true" else "false";
      ReadsKeyword(doc, i, t, j);
      KeywordValue(cfg, doc, i, t, j);
    case Str(s) =>
      ReadsQuoted(doc, i, s, j);
      UnescapeEscaped(s);
      CStrWhole(s);
      StringValue(cfg, doc, i, Escaped(s), s, j);
    case Int(_) => ReadsNumeric(cfg, doc, i, v, j);
    case UInt(_) => ReadsNumeric(cfg, doc, i, v, j);
    case Real(_) => ReadsNumeric(cfg, doc, i, v, j);
  }

  lemma ReadsNumeric(cfg: Config, doc: string, i: nat, v: Value, j: nat)
    requires Printable(cfg, v) && (v.Int? || v.UInt? || v.Real?) && Spans(doc, i, TokensOf(v, cfg.show), j)
    requires Ends(doc, j)
    ensures ValueAt(cfg, doc, i, Normal(cfg, v), j)
  {
    DecodesInt(cfg, v);
    ReadsNumber(doc, i, NumberText(cfg, v), j);
    NumberValue(cfg, doc, i, NumberText(cfg, v), Normal(cfg, v), j);
  }

  lemma TakeNext<T>(s: seq<T>, k: nat)
    requires k < |s|
    ensures s[..k] + [s[k]] == s[..k + 1] && s[..|s|] == s && s[..0] == []
  {
  }

  lemma {:induction false} ReadsTokens(cfg: Config, doc: string, i: nat, v: Value, j: nat)
    requires Printable(cfg, v) && Spans(doc, i, TokensOf(v, cfg.show), j) && Ends(doc, j)
    ensures ValueAt(cfg, doc, i, Normal(cfg, v), j)
    decreases v, Width(v)
  {
    if v.Arr? {
      ReadsArray(cfg, doc, i, v, j);
    } else if v.Obj? {
      ReadsObject(cfg, doc, i, v, j);
    } else {
      ReadsScalar(cfg, doc, i, v, j);
    }
  }

  lemma ReadsArray(cfg: Config, doc: string, i: nat, v: Value, j: nat)
    requires Printable(cfg, v) && v.Arr? && Spans(doc, i, TokensOf(v, cfg.show), j)
    ensures ValueAt(cfg, doc, i, Normal(cfg, v), j)
    decreases v, |v.items|, 1
  {
    if v.items == [] {
      var p := SpansSplit(doc, i, ["["], ["]"], j);
      ReadsMark(doc, i, "[", p);
      var q := SpansOne(doc, p, "]", j);
      SliceAt(doc, q, "]", 0);
      EmptyArray(cfg, doc, i, p, j);
    } else {
      var ts := ItemTokens(v, 0, cfg.show);
      var first := FirstItemToken(cfg, v);
      var p := SpansSplit(doc, i, ["["], ts, j);
      ReadsMark(doc, i, "[", p);
      var q := SpansFromSpace(doc, p, first, ts[1..], j);
      SliceAt(doc, q, first, 0);
      ReadsItems(cfg, doc, q, v, 0, j);
      ArrayValue(cfg, doc, i, p, q, Normal(cfg, v), j);
    }
  }

  lemma FirstItemToken(cfg: Config, v: Value) returns (t: string)
    requires Printable(cfg, v) && v.Arr? && v.items != []
    ensures t != "" && t[0] != ']' && ItemTokens(v, 0, cfg.show) != []
    ensures ItemTokens(v, 0, cfg.show) == [t] + ItemTokens(v, 0, cfg.show)[1..]
  {
    FirstToken(cfg, v.items[0]);
    t := TokensOf(v.items[0], cfg.show)[0];
  }

  lemma {:induction false} ReadsItems(cfg: Config, doc: string, i: nat, v: Value, k: nat, j: nat)
    requires Printable(cfg, v) && v.Arr? && k < |v.items| && Spans(doc, i, ItemTokens(v, k, cfg.show), j)
    ensures ItemsAt(cfg, doc, i, Normal(cfg, v).items[..k], Normal(cfg, v), j)
    decreases v, |v.items| - k, 0
  {
    var items := Normal(cfg, v).items;
    TakeNext(items, k);
    var p, q := ItemSplits(doc, i, v, k, cfg.show, j);
    ReadsTokens(cfg, doc, i, v.items[k], p);
    if k + 1 == |v.items| {
      ItemsLast(cfg, doc, i, items[..k], items[k], p, j);
    } else {
      ReadsItems(cfg, doc, q, v, k + 1, j);
      ItemsNext(cfg, doc, i, items[..k], items[k], p, q, Normal(cfg, v), j);
    }
  }

  /** An element, the mark behind it, and the others. */
  lemma ItemSplits(doc: string, i: nat, v: Value, k: nat, show: real -> string, j: nat) returns (p: nat, q: nat)
    requires v.Arr? && k < |v.items| && Spans(doc, i, ItemTokens(v, k, show), j)
    ensures Spans(doc, i, TokensOf(v.items[k], show), p) && Ends(doc, p)
    ensures if k + 1 == |v.items| then TokenAt(doc, p, ArrayEnd, j)
            else TokenAt(doc, p, ArraySeparator, q) && Spans(doc, q, ItemTokens(v, k + 1, show), j)
  {
    var ts := TokensOf(v.items[k], show);
    if k + 1 == |v.items| {
      p := SpansSplit(doc, i, ts, ["]"], j);
      q := j;
      MarkEnds(doc, p, "]", j);
      ReadsMark(doc, p, "]", j);
    } else {
      var more := ItemTokens(v, k + 1, show);
      p := SpansSplit(doc, i, ts, [","] + more, j);
      q := SpansSplit(doc, p, [","], more, j);
      MarkEnds(doc, p, ",", q);
      ReadsMark(doc, p, ",", q);
    }
  }

  lemma ReadsObject(cfg: Config, doc: string, i: nat, v: Value, j: nat)
    requires Printable(cfg, v) && v.Obj? && Spans(doc, i, TokensOf(v, cfg.show), j)
    ensures ValueAt(cfg, doc, i, Normal(cfg, v), j)
    decreases v, |v.members|, 1
  {
    if v.members == [] {
      var p := SpansSplit(doc, i, ["{"], ["}"], j);
      ReadsMark(doc, i, "{", p);
      ReadsMark(doc, p, "}", j);
      EmptyObject(cfg, doc, p, j);
      ObjectValue(cfg, doc, i, p, Obj([]), j);
    } else {
      var p := SpansSplit(doc, i, ["{"], MemberTokens(v, 0, cfg.show), j);
      ReadsMark(doc, i, "{", p);
      ReadsMembers(cfg, doc, p, v, 0, true, j);
      ObjectValue(cfg, doc, i, p, Normal(cfg, v), j);
    }
  }

  lemma {:induction false} ReadsMembers(cfg: Config, doc: string, i: nat, v: Value, k: nat, nameEmpty: bool, j: nat)
    requires Printable(cfg, v) && v.Obj? && k < |v.members| && Spans(doc, i, MemberTokens(v, k, cfg.show), j)
    ensures MembersAt(cfg, doc, i, Normal(cfg, v).members[..k], nameEmpty, Normal(cfg, v), j)
    decreases v, |v.members| - k, 0
  {
    var ms := Normal(cfg, v).members;
    var key := v.members[k].key;
    TakeNext(ms, k);
    InsertLast(ms[..k], key, ms[k].value);
    CStrWhole(key);
    var p, q, r, s := MemberSplits(cfg, doc, i, v, k, j);
    ReadsTokens(cfg, doc, q, v.members[k].value, r);
    if k + 1 == |v.members| {
      MembersLast(cfg, doc, i, ms[..k], nameEmpty, key, p, q, ms[k].value, r, j);
    } else {
      ReadsMembers(cfg, doc, s, v, k + 1, key == "", j);
      MembersNext(cfg, doc, i, ms[..k], nameEmpty, key, p, q, ms[k].value, r, s, Normal(cfg, v), j);
    }
  }

  /** A name, the colon, the value, the mark behind it, and the others. */
  lemma MemberSplits(cfg: Config, doc: string, i: nat, v: Value, k: nat, j: nat)
    returns (p: nat, q: nat, r: nat, s: nat)
    requires v.Obj? && k < |v.members| && NulFree(v.members[k].key) && Spans(doc, i, MemberTokens(v, k, cfg.show), j)
    ensures NameAt(cfg, doc, i, v.members[k].key, p) && TokenAt(doc, p, MemberSeparator, q)
    ensures Spans(doc, q, TokensOf(v.members[k].value, cfg.show), r) && Ends(doc, r)
    ensures if k + 1 == |v.members| then TokenAt(doc, r, ObjectEnd, j)
            else TokenAt(doc, r, ArraySeparator, s) && Spans(doc, s, MemberTokens(v, k + 1, cfg.show), j)
  {
    var name, ts := Quoted(v.members[k].key), TokensOf(v.members[k].value, cfg.show);
    if k + 1 == |v.members| {
      assert MemberTokens(v, k, cfg.show) == [name] + ([":"] + (ts + (["}"] + [])));
      p, q, r, s := FourSplits(doc, i, name, ts, "}", [], j);
    } else {
      var more := MemberTokens(v, k + 1, cfg.show);
      assert MemberTokens(v, k, cfg.show) == [name] + ([":"] + (ts + ([","] + more)));
      p, q, r, s := FourSplits(doc, i, name, ts, ",", more, j);
    }
    ReadsName(cfg, doc, i, v.members[k].key, p);
  }

  lemma FourSplits(doc: string, i: nat, name: string, ts: seq<string>, mark: string, more: seq<string>, j: nat)
    returns (p: nat, q: nat, r: nat, s: nat)
    requires mark in {",", "}"} && Spans(doc, i, [name] + ([":"] + (ts + ([mark] + more))), j)
    ensures Spans(doc, i, [name], p) && TokenAt(doc, p, MemberSeparator, q) && Spans(doc, q, ts, r) && Ends(doc, r)
    ensures TokenAt(doc, r, MarkKind(mark), s) && Spans(doc, s, more, j) && (more == [] ==> s == j)
  {
    p := SpansSplit(doc, i, [name], [":"] + (ts + ([mark] + more)), j);
    q := SpansSplit(doc, p, [":"], ts + ([mark] + more), j);
    r := SpansSplit(doc, q, ts, [mark] + more, j);
    s := SpansSplit(doc, r, [mark], more, j);
    ReadsMark(doc, p, ":", q);
    ReadsMark(doc, r, mark, s);
    MarkEnds(doc, r, mark, s);
    if more == [] { SpansNothing(doc, s, j); }
  }

  lemma ReadsName(cfg: Config, doc: string, i: nat, key: string, j: nat)
    requires NulFree(key) && Spans(doc, i, [Quoted(key)], j)
    ensures NameAt(cfg, doc, i, key, j)
  {
    ReadsQuoted(doc, i, key, j);
    UnescapeEscaped(key);
    StringName(cfg, doc, i, Escaped(key), key, j);
  }

  /** The main theorem of reading: wherever the tokens of a value stand, with any white space before each of them,
      the reader finds that value and stops behind it. */
  lemma ReadsValue(cfg: Config, doc: string, i: nat, v: Value, j: nat)
    requires i <= |doc| && Printable(cfg, v) && Lays(doc, i, TokensOf(v, cfg.show), j) && Ends(doc, j)
    ensures ParseValue(cfg, doc, i) == Done(Normal(cfg, v), j)
  {
    ReadsTokens(cfg, doc, i, v, j);
    assert Seal(Parses, 0);
  }
}
