/** What the reader of lib/json/jsoncpp.cpp accepts and returns, without its node stack and its recovery from errors:
    a tokenizer and a recursive-descent grammar as functions of the document. */
module JsonGrammar {
  import opened Numerals
  import opened JsonText

  // ---------- values ----------

  datatype Value =
    | Null | Int(i: int) | UInt(u: nat) | Real(r: real) | Str(s: string) | Bool(b: bool)
    | Arr(items: seq<Value>) | Obj(members: seq<Member>)

  /** Members are kept in the order of their keys. */
  datatype Member = Member(key: string, value: Value)

  /** `strcmp(a, b) < 0` */
  predicate Less(a: string, b: string)
    decreases |a|
  {
    b != "" && (a == "" || a[0] < b[0] || (a[0] == b[0] && Less(a[1..], b[1..])))
  }

  /** The member of that name set to v, in its place. */
  function Insert(ms: seq<Member>, key: string, v: Value): seq<Member> {
    if ms == [] then [Member(key, v)]
    else if ms[0].key == key then [Member(key, v)] + ms[1..]
    else if Less(key, ms[0].key) then [Member(key, v)] + ms
    else [ms[0]] + Insert(ms[1..], key, v)
  }

  /** A C string ends at its first zero. */
  function CStr(s: string): string {
    if s == "" || s[0] as int == 0 then "" else [s[0]] + CStr(s[1..])
  }

  // ---------- tokens ----------

  datatype Kind =
    | ObjectBegin | ObjectEnd | ArrayBegin | ArrayEnd | StringToken | NumberToken | TrueToken | FalseToken | NullToken
    | ArraySeparator | MemberSeparator | Comment | Error | EndOfStream

  datatype Token = Token(kind: Kind, start: nat, end: nat)

  predicate IsWs(c: char) {
    c == ' ' || c == '\t' || c == '\r' || c == '\n'
  }

  function SkipSpaces(doc: string, i: nat): (j: nat)
    requires i <= |doc|
    ensures i <= j <= |doc| && (j < |doc| ==> !IsWs(doc[j])) && forall k :: i <= k < j ==> IsWs(doc[k])
    decreases |doc| - i
  {
    if i < |doc| && IsWs(doc[i]) then SkipSpaces(doc, i + 1) else i
  }

  /** From behind the opening quote: whether the string is closed, and where scanning stops. */
  function ScanString(doc: string, i: nat): (r: (bool, nat))
    requires i <= |doc|
    ensures i <= r.1 <= |doc|
    ensures r.0 ==> r.1 > i && doc[r.1 - 1] == '"'
    decreases |doc| - i
  {
    if i == |doc| then (false, i)
    else if doc[i] == '\\' then if i + 1 == |doc| then (false, i + 1) else ScanString(doc, i + 2)
    else if doc[i] == '"' then (true, i + 1)
    else ScanString(doc, i + 1)
  }

  predicate IsDecimalDigit(c: char) {
    '0' <= c <= '9'
  }

  predicate InNumber(c: char) {
    IsDecimalDigit(c) || c == '.' || c == 'e' || c == 'E' || c == '+' || c == '-'
  }

  function NumberEnd(doc: string, i: nat): (j: nat)
    requires i <= |doc|
    ensures i <= j <= |doc|
    decreases |doc| - i
  {
    if i < |doc| && InNumber(doc[i]) then NumberEnd(doc, i + 1) else i
  }

  predicate MatchAt(doc: string, i: nat, pattern: string) {
    i + |pattern| <= |doc| && doc[i..i + |pattern|] == pattern
  }

  function CStyleEnd(doc: string, i: nat): (r: (bool, nat))
    requires i <= |doc|
    ensures i <= r.1 <= |doc|
    decreases |doc| - i
  {
    if i == |doc| then (false, i)
    else if doc[i] == '*' && i + 1 < |doc| && doc[i + 1] == '/' then (true, i + 2)
    else CStyleEnd(doc, i + 1)
  }

  function LineEnd(doc: string, i: nat): (j: nat)
    requires i <= |doc|
    ensures i <= j <= |doc|
    decreases |doc| - i
  {
    if i == |doc| then i else if doc[i] == '\r' || doc[i] == '\n' then i + 1 else LineEnd(doc, i + 1)
  }

  /** After the slash at i: whether a comment follows, and where it ends. */
  function CommentEnd(doc: string, i: nat): (r: (bool, nat))
    requires i < |doc|
    ensures i < r.1 <= |doc|
  {
    if i + 1 == |doc| then (false, i + 1)
    else if doc[i + 1] == '*' then CStyleEnd(doc, i + 2)
    else if doc[i + 1] == '/' then (true, LineEnd(doc, i + 2))
    else (false, i + 2)
  }

  function Keyword(doc: string, i: nat, kind: Kind, rest: string): (t: Token)
    requires i < |doc|
    ensures t.start == i < t.end <= |doc| && (t.kind == kind || t.kind == Error)
  {
    if MatchAt(doc, i + 1, rest) then Token(kind, i, i + 1 + |rest|) else Token(Error, i, i + 1)
  }

  /** The token that begins at j. */
  function TokenFrom(doc: string, j: nat): (t: Token)
    requires j < |doc|
    ensures t.start == j < t.end <= |doc| && (t.kind == StringToken ==> j + 2 <= t.end)
  {
    var c := doc[j];
    if c == '{' then Token(ObjectBegin, j, j + 1)
    else if c == '}' then Token(ObjectEnd, j, j + 1)
    else if c == '[' then Token(ArrayBegin, j, j + 1)
    else if c == ']' then Token(ArrayEnd, j, j + 1)
    else if c == '"' then
      var (ok, end) := ScanString(doc, j + 1);
      Token(if ok then StringToken else Error, j, end)
    else if c == '/' then
      var (ok, end) := CommentEnd(doc, j);
      Token(if ok then Comment else Error, j, end)
    else if IsDecimalDigit(c) || c == '-' then Token(NumberToken, j, NumberEnd(doc, j + 1))
    else if c == 't' then Keyword(doc, j, TrueToken, "rue")
    else if c == 'f' then Keyword(doc, j, FalseToken, "alse")
    else if c == 'n' then Keyword(doc, j, NullToken, "ull")
    else if c == ',' then Token(ArraySeparator, j, j + 1)
    else if c == ':' then Token(MemberSeparator, j, j + 1)
    else if c as int == 0 then Token(EndOfStream, j, j + 1)
    else Token(Error, j, j + 1)
  }

  /** The next token. Every token but the end of the document takes up at least one character. */
  function ReadToken(doc: string, i: nat): (t: Token)
    requires i <= |doc|
    ensures i <= t.start <= t.end <= |doc| && (t.kind != EndOfStream ==> t.start < t.end)
    ensures t.kind == StringToken ==> t.start + 2 <= t.end
  {
    var j := SkipSpaces(doc, i);
    if j == |doc| then Token(EndOfStream, j, j) else TokenFrom(doc, j)
  }

  /** The next token that is not a comment. */
  function SkipComments(doc: string, i: nat): (t: Token)
    requires i <= |doc|
    ensures i <= t.start <= t.end <= |doc| && (t.kind != EndOfStream ==> t.start < t.end) && t.kind != Comment
    ensures t.kind == StringToken ==> t.start + 2 <= t.end
    decreases |doc| - i
  {
    var t := ReadToken(doc, i);
    if t.kind == Comment then SkipComments(doc, t.end) else t
  }

  // ---------- numbers ----------

  const MAX_INT: nat := 0x7FFF_FFFF
  const MAX_UINT64: nat := 0xFFFF_FFFF_FFFF_FFFF
  const MAX_NEGATIVE: nat := 0x8000_0000_0000_0000

  predicate LooksReal(text: string) {
    exists i :: 0 <= i < |text| && (text[i] in {'.', 'e', 'E', '+'} || (text[i] == '-' && i > 0))
  }

  predicate AllDigits(s: string) {
    forall i :: 0 <= i < |s| ==> IsDecimalDigit(s[i])
  }

  /** A number token: an integer if it looks like one and fits, otherwise whatever the library's scanner makes of it. */
  function DecodeNumber(scan: string -> Option<real>, text: string): Option<Value> {
    var negative := text != "" && text[0] == '-';
    var digits := if negative then text[1..] else text;
    var asReal := match scan(text) case Some(r) => Some(Real(r)) case None => None;
    if LooksReal(text) then asReal
    else if !AllDigits(digits) then None
    else
      var n: int := ValueOf(digits, 10);
      if n > (if negative then MAX_NEGATIVE else MAX_UINT64) then asReal
      else if negative then Some(Int(-n))
      else if n <= MAX_INT then Some(Int(n))
      else Some(UInt(n))
  }

  // ---------- the grammar ----------

  datatype Config = Config(allowComments: bool, strictRoot: bool, allowDropped: bool, allowNumericKeys: bool,
                           scan: string -> Option<real>, show: real -> string)

  datatype Parse = Fail | Done(value: Value, pos: nat)

  /** `asString` of a number used as a key. */
  function NumberText(cfg: Config, v: Value): string {
    match v
    case Int(i) => if i < 0 then "-" + Numeral(-i, 10) else Numeral(i, 10)
    case UInt(u) => Numeral(u, 10)
    case Real(r) => cfg.show(r)
    case _ => ""
  }

  /** The name of a member, from its token. */
  function MemberName(cfg: Config, doc: string, t: Token): Option<string>
    requires t.start <= t.end <= |doc| && (t.kind == StringToken ==> t.start + 2 <= t.end)
  {
    if t.kind == StringToken then Unescape(doc[t.start + 1..t.end - 1])
    else if t.kind == NumberToken && cfg.allowNumericKeys then
      match DecodeNumber(cfg.scan, doc[t.start..t.end])
      case Some(v) => Some(NumberText(cfg, v))
      case None => None
    else None
  }

  function ValueToken(cfg: Config, doc: string, i: nat): (t: Token)
    requires i <= |doc|
    ensures i <= t.start <= t.end <= |doc| && (t.kind != EndOfStream ==> t.start < t.end)
    ensures t.kind == StringToken ==> t.start + 2 <= t.end
  {
    if cfg.allowComments then SkipComments(doc, i) else ReadToken(doc, i)
  }

  function NumberParse(cfg: Config, text: string, end: nat): Parse {
    match DecodeNumber(cfg.scan, text) case Some(v) => Done(v, end) case None => Fail
  }

  function StringParse(text: string, end: nat): Parse {
    match Unescape(text) case Some(s) => Done(Str(CStr(s)), end) case None => Fail
  }

  /** A value of one token; a separator may stand for a dropped null, and is then left unread. */
  function ParseScalar(cfg: Config, doc: string, t: Token): (r: Parse)
    requires t.start <= t.end <= |doc| && (t.kind != EndOfStream ==> t.start < t.end)
    requires (t.kind == StringToken ==> t.start + 2 <= t.end)
    ensures r.Done? ==> t.start <= r.pos <= |doc|
  {
    match t.kind
    case NumberToken => NumberParse(cfg, doc[t.start..t.end], t.end)
    case StringToken => StringParse(doc[t.start + 1..t.end - 1], t.end)
    case TrueToken => Done(Bool(true), t.end)
    case FalseToken => Done(Bool(false), t.end)
    case NullToken => Done(Null, t.end)
    case ArraySeparator => if cfg.allowDropped then Done(Null, t.end - 1) else Fail
    case _ => Fail
  }

  function ParseValue(cfg: Config, doc: string, i: nat): (r: Parse)
    requires i <= |doc|
    ensures r.Done? ==> i <= r.pos <= |doc|
    decreases |doc| - i, 2
  {
    var t := ValueToken(cfg, doc, i);
    match t.kind
    case ObjectBegin => ParseMembers(cfg, doc, t.end, [], true)
    case ArrayBegin =>
      var j := SkipSpaces(doc, t.end);
      if j < |doc| && doc[j] == ']' then Done(Arr([]), j + 1) else ParseItems(cfg, doc, j, [])
    case _ => ParseScalar(cfg, doc, t)
  }

  /** Array elements from i on, those before being `items`. */
  function ParseItems(cfg: Config, doc: string, i: nat, items: seq<Value>): (r: Parse)
    requires i <= |doc|
    ensures r.Done? ==> i <= r.pos <= |doc|
    decreases |doc| - i, 3
  {
    match ParseValue(cfg, doc, i)
    case Fail => Fail
    case Done(v, j) =>
      var t := SkipComments(doc, j);
      if t.kind == ArraySeparator then ParseItems(cfg, doc, t.end, items + [v])
      else if t.kind == ArrayEnd then Done(Arr(items + [v]), t.end)
      else Fail
  }

  /** Object members from i on, those before being `ms`; a closing brace is accepted after an empty name. */
  function ParseMembers(cfg: Config, doc: string, i: nat, ms: seq<Member>, nameEmpty: bool): (r: Parse)
    requires i <= |doc|
    ensures r.Done? ==> i <= r.pos <= |doc|
    decreases |doc| - i, 3
  {
    var t := SkipComments(doc, i);
    if t.kind == ObjectEnd && nameEmpty then Done(Obj(ms), t.end)
    else
      match MemberName(cfg, doc, t)
      case None => Fail
      case Some(name) =>
        var colon := ReadToken(doc, t.end);
        if colon.kind != MemberSeparator then Fail
        else
          match ParseValue(cfg, doc, colon.end)
          case Fail => Fail
          case Done(v, j) => ParseRest(cfg, doc, j, Insert(ms, CStr(name), v), name == "")
  }

  /** Behind a member. After a comment any token passes for a comma. */
  function ParseRest(cfg: Config, doc: string, i: nat, ms: seq<Member>, nameEmpty: bool): (r: Parse)
    requires i <= |doc|
    ensures r.Done? ==> i <= r.pos <= |doc|
    decreases |doc| - i, 2
  {
    var t := ReadToken(doc, i);
    if t.kind == ObjectEnd then Done(Obj(ms), t.end)
    else if t.kind == ArraySeparator then ParseMembers(cfg, doc, t.end, ms, nameEmpty)
    else if t.kind == Comment then
      var u := SkipComments(doc, t.end);
      if u.kind == ObjectEnd then Done(Obj(ms), u.end) else ParseMembers(cfg, doc, u.end, ms, nameEmpty)
    else Fail
  }

  /** A document: the value, and whether it may stand at the root. What follows the value is not looked at. */
  function ParseDocument(cfg: Config, doc: string): Parse {
    match ParseValue(cfg, doc, 0)
    case Done(v, j) => if cfg.strictRoot && !v.Arr? && !v.Obj? then Fail else Done(v, j)
    case Fail => Fail
  }
}
