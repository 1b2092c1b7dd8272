/** The incremental request parser of lib/http/request_parser.cpp and lib/http/request_parser.hpp. */
module Http {
  import opened Arithmetic
  import opened Numerals

  // ---------- character classes ----------

  /** Codes above 127 are negative as signed characters. */
  predicate IsChar(c: char) {
    c as int <= 127
  }

  predicate IsCtl(c: char) {
    c as int <= 31 || c as int == 127
  }

  predicate IsTspecial(c: char) {
    c in {'(', ')', '<', '>', '@', ',', ';', ':', '\\', '"', '/', '[', ']', '?', '=', '{', '}', ' ', '\t'}
  }

  predicate IsDigit(c: char) {
    '0' <= c <= '9'
  }

  predicate IsTokenChar(c: char) {
    IsChar(c) && !IsCtl(c) && !IsTspecial(c)
  }

  // ---------- the request and the parser ----------

  datatype Header = Header(name: string, value: string)

  datatype Request = Request(method_: string, uri: string, major: nat, minor: nat, headers: seq<Header>)

  const EMPTY := Request("", "", 0, 0, [])

  datatype State =
    | MethodStart | Method | Uri
    | VersionH | VersionT1 | VersionT2 | VersionP | VersionSlash
    | MajorStart | Major | MinorStart | Minor
    | Newline1 | HeaderLineStart | HeaderLws | HeaderName | SpaceBeforeValue | HeaderValue | Newline2 | Newline3

  datatype Result = Good | Bad | Indeterminate

  datatype Parser = Parser(state: State, req: Request) {
    /** The states that write to the last header, and those that follow them, have one. */
    predicate Valid() {
      state in {HeaderLws, HeaderName, SpaceBeforeValue, HeaderValue, Newline2} ==> req.headers != []
    }

    function To(s: State): Parser {
      Parser(s, req)
    }

    function AddToName(c: char): Parser
      requires req.headers != []
    {
      var n := |req.headers| - 1;
      var h := req.headers[n];
      Parser(HeaderName, req.(headers := req.headers[n := h.(name := h.name + [c])]))
    }

    function AddToValue(c: char): Parser
      requires req.headers != []
    {
      var n := |req.headers| - 1;
      var h := req.headers[n];
      Parser(HeaderValue, req.(headers := req.headers[n := h.(value := h.value + [c])]))
    }
  }

  function DigitOf(c: char): nat
    requires IsDigit(c)
  {
    c as int - '0' as int
  }

  /** One character: None is `bad`; a complete request is Newline3 followed by a line feed. */
  function Step(p: Parser, c: char): (r: (Result, Parser))
    requires p.Valid()
    ensures r.1.Valid()
  {
    match p.state
    case MethodStart =>
      if !IsTokenChar(c) then (Bad, p)
      else (Indeterminate, Parser(Method, p.req.(method_ := p.req.method_ + [c])))
    case Method =>
      if c == ' ' then (Indeterminate, p.To(Uri))
      else if !IsTokenChar(c) then (Bad, p)
      else (Indeterminate, Parser(Method, p.req.(method_ := p.req.method_ + [c])))
    case Uri =>
      if c == ' ' then (Indeterminate, p.To(VersionH))
      else if IsCtl(c) then (Bad, p)
      else (Indeterminate, Parser(Uri, p.req.(uri := p.req.uri + [c])))
    case VersionH => if c == 'H' then (Indeterminate, p.To(VersionT1)) else (Bad, p)
    case VersionT1 => if c == 'T' then (Indeterminate, p.To(VersionT2)) else (Bad, p)
    case VersionT2 => if c == 'T' then (Indeterminate, p.To(VersionP)) else (Bad, p)
    case VersionP => if c == 'P' then (Indeterminate, p.To(VersionSlash)) else (Bad, p)
    case VersionSlash =>
      if c == '/' then (Indeterminate, Parser(MajorStart, p.req.(major := 0, minor := 0))) else (Bad, p)
    case MajorStart =>
      if IsDigit(c) then (Indeterminate, Parser(Major, p.req.(major := p.req.major * 10 + DigitOf(c)))) else (Bad, p)
    case Major =>
      if c == '.' then (Indeterminate, p.To(MinorStart))
      else if IsDigit(c) then (Indeterminate, Parser(Major, p.req.(major := p.req.major * 10 + DigitOf(c))))
      else (Bad, p)
    case MinorStart =>
      if IsDigit(c) then (Indeterminate, Parser(Minor, p.req.(minor := p.req.minor * 10 + DigitOf(c)))) else (Bad, p)
    case Minor =>
      if c == '\r' then (Indeterminate, p.To(Newline1))
      else if IsDigit(c) then (Indeterminate, Parser(Minor, p.req.(minor := p.req.minor * 10 + DigitOf(c))))
      else (Bad, p)
    case Newline1 => if c == '\n' then (Indeterminate, p.To(HeaderLineStart)) else (Bad, p)
    case HeaderLineStart =>
      if c == '\r' then (Indeterminate, p.To(Newline3))
      else if p.req.headers != [] && (c == ' ' || c == '\t') then (Indeterminate, p.To(HeaderLws))
      else if !IsTokenChar(c) then (Bad, p)
      else (Indeterminate, Parser(HeaderName, p.req.(headers := p.req.headers + [Header([c], "")])))
    case HeaderLws =>
      if c == '\r' then (Indeterminate, p.To(Newline2))
      else if c == ' ' || c == '\t' then (Indeterminate, p)
      else if IsCtl(c) then (Bad, p)
      else (Indeterminate, p.AddToValue(c))
    case HeaderName =>
      if c == ':' then (Indeterminate, p.To(SpaceBeforeValue))
      else if !IsTokenChar(c) then (Bad, p)
      else (Indeterminate, p.AddToName(c))
    case SpaceBeforeValue => if c == ' ' then (Indeterminate, p.To(HeaderValue)) else (Bad, p)
    case HeaderValue =>
      if c == '\r' then (Indeterminate, p.To(Newline2))
      else if IsCtl(c) then (Bad, p)
      else (Indeterminate, p.AddToValue(c))
    case Newline2 => if c == '\n' then (Indeterminate, p.To(HeaderLineStart)) else (Bad, p)
    case Newline3 => if c == '\n' then (Good, p) else (Bad, p)
  }

  datatype Outcome = Outcome(result: Result, parser: Parser, rest: string)

  /** Characters one by one, until an answer other than `indeterminate`; what is left is returned. */
  function Run(p: Parser, s: string): (o: Outcome)
    requires p.Valid()
    ensures o.parser.Valid() && (o.result == Indeterminate ==> o.rest == "")
    decreases |s|
  {
    if s == "" then Outcome(Indeterminate, p, "")
    else
      var (r, q) := Step(p, s[0]);
      if r != Indeterminate then Outcome(r, q, s[1..]) else Run(q, s[1..])
  }

  /** A text may be fed in two pieces. */
  lemma {:induction false} RunAppend(p: Parser, a: string, b: string)
    requires p.Valid()
    ensures var o := Run(p, a);
            Run(p, a + b) == if o.result == Indeterminate then Run(o.parser, b) else o.(rest := o.rest + b)
    decreases |a|
  {
    if a == "" {
      assert a + b == b;
    } else {
      assert (a + b)[1..] == a[1..] + b;
      var (r, q) := Step(p, a[0]);
      if r == Indeterminate { RunAppend(q, a[1..], b); }
    }
  }

  /** Feeding s takes the parser from p to q and asks for more. */
  predicate Goes(p: Parser, s: string, q: Parser) {
    p.Valid() && Run(p, s) == Outcome(Indeterminate, q, "")
  }

  lemma GoesOn(p: Parser, a: string, q: Parser, b: string, r: Parser)
    requires Goes(p, a, q) && Goes(q, b, r)
    ensures Goes(p, a + b, r)
  {
    RunAppend(p, a, b);
  }

  lemma GoesOne(p: Parser, c: char, q: Parser)
    requires p.Valid() && Step(p, c) == (Indeterminate, q)
    ensures Goes(p, [c], q)
  {
    assert [c][1..] == "";
  }

  // ---------- what a request prints as ----------

  predicate IsToken(s: string) {
    s != "" && forall i :: 0 <= i < |s| ==> IsTokenChar(s[i])
  }

  predicate IsUri(s: string) {
    forall i :: 0 <= i < |s| ==> !IsCtl(s[i]) && s[i] != ' '
  }

  predicate IsValue(s: string) {
    forall i :: 0 <= i < |s| ==> !IsCtl(s[i])
  }

  predicate WellFormed(r: Request) {
    IsToken(r.method_) && IsUri(r.uri) && forall i :: 0 <= i < |r.headers| ==>
        IsToken(r.headers[i].name) && IsValue(r.headers[i].value)
  }

  function PrintHeader(h: Header): string {
    h.name + ": " + h.value + "\r\n"
  }

  function PrintHeaders(hs: seq<Header>): string {
    if hs == [] then "" else PrintHeaders(hs[..|hs| - 1]) + PrintHeader(hs[|hs| - 1])
  }

  function Print(r: Request): string {
    r.method_ + " " + r.uri + " HTTP/" + Numeral(r.major, 10) + "." + Numeral(r.minor, 10) + "\r\n" +
        PrintHeaders(r.headers) + "\r\n"
  }

  // ---------- each part is read back ----------

  lemma {:induction false} ReadsMethod(r: Request, t: string)
    requires IsToken(t) && r.method_ == ""
    ensures Goes(Parser(MethodStart, r), t, Parser(Method, r.(method_ := t)))
    decreases |t|
  {
    var k := |t| - 1;
    var q := Parser(Method, r.(method_ := t));
    if k == 0 {
      assert t == [t[0]] && "" + [t[0]] == t;
      GoesOne(Parser(MethodStart, r), t[0], q);
    } else {
      ReadsMethod(r, t[..k]);
      assert t == t[..k] + [t[k]];
      var p := Parser(Method, r.(method_ := t[..k]));
      GoesOne(p, t[k], q);
      GoesOn(Parser(MethodStart, r), t[..k], p, [t[k]], q);
    }
  }

  lemma {:induction false} ReadsUri(r: Request, u: string)
    requires IsUri(u) && r.uri == ""
    ensures Goes(Parser(Uri, r), u, Parser(Uri, r.(uri := u)))
    decreases |u|
  {
    if u != "" {
      var k := |u| - 1;
      ReadsUri(r, u[..k]);
      assert u == u[..k] + [u[k]];
      var p, q := Parser(Uri, r.(uri := u[..k])), Parser(Uri, r.(uri := u));
      GoesOne(p, u[k], q);
      GoesOn(Parser(Uri, r), u[..k], p, [u[k]], q);
    }
  }

  predicate Decimal(s: string) {
    s != "" && forall i :: 0 <= i < |s| ==> IsDigit(s[i])
  }

  lemma {:induction false} ReadsMajor(r: Request, s: string)
    requires Decimal(s) && r.major == 0
    ensures Goes(Parser(MajorStart, r), s, Parser(Major, r.(major := ValueOf(s, 10))))
    decreases |s|
  {
    var k := |s| - 1;
    var q := Parser(Major, r.(major := ValueOf(s, 10)));
    if k == 0 {
      assert s == [s[0]] && s[..0] == "";
      assert ValueOf(s, 10) == DigitOf(s[0]);
      GoesOne(Parser(MajorStart, r), s[0], q);
    } else {
      ReadsMajor(r, s[..k]);
      assert s == s[..k] + [s[k]];
      var p := Parser(Major, r.(major := ValueOf(s[..k], 10)));
      assert ValueOf(s, 10) == ValueOf(s[..k], 10) * 10 + DigitOf(s[k]);
      GoesOne(p, s[k], q);
      GoesOn(Parser(MajorStart, r), s[..k], p, [s[k]], q);
    }
  }

  lemma {:induction false} ReadsMinor(r: Request, s: string)
    requires Decimal(s) && r.minor == 0
    ensures Goes(Parser(MinorStart, r), s, Parser(Minor, r.(minor := ValueOf(s, 10))))
    decreases |s|
  {
    var k := |s| - 1;
    var q := Parser(Minor, r.(minor := ValueOf(s, 10)));
    if k == 0 {
      assert s == [s[0]] && s[..0] == "";
      assert ValueOf(s, 10) == DigitOf(s[0]);
      GoesOne(Parser(MinorStart, r), s[0], q);
    } else {
      ReadsMinor(r, s[..k]);
      assert s == s[..k] + [s[k]];
      var p := Parser(Minor, r.(minor := ValueOf(s[..k], 10)));
      assert ValueOf(s, 10) == ValueOf(s[..k], 10) * 10 + DigitOf(s[k]);
      GoesOne(p, s[k], q);
      GoesOn(Parser(MinorStart, r), s[..k], p, [s[k]], q);
    }
  }

  lemma {:induction false} ReadsName(r: Request, t: string)
    requires IsToken(t)
    ensures Goes(Parser(HeaderLineStart, r), t, Parser(HeaderName, r.(headers := r.headers + [Header(t, "")])))
    decreases |t|
  {
    var k := |t| - 1;
    var q := Parser(HeaderName, r.(headers := r.headers + [Header(t, "")]));
    if k == 0 {
      assert t == [t[0]];
      GoesOne(Parser(HeaderLineStart, r), t[0], q);
    } else {
      ReadsName(r, t[..k]);
      assert t == t[..k] + [t[k]];
      var p := Parser(HeaderName, r.(headers := r.headers + [Header(t[..k], "")]));
      assert p.AddToName(t[k]).req.headers == r.headers + [Header(t, "")];
      GoesOne(p, t[k], q);
      GoesOn(Parser(HeaderLineStart, r), t[..k], p, [t[k]], q);
    }
  }

  lemma {:induction false} ReadsValue(r: Request, n: string, v: string)
    requires IsValue(v)
    ensures Goes(Parser(HeaderValue, r.(headers := r.headers + [Header(n, "")])), v,
                 Parser(HeaderValue, r.(headers := r.headers + [Header(n, v)])))
    decreases |v|
  {
    if v != "" {
      var k := |v| - 1;
      ReadsValue(r, n, v[..k]);
      assert v == v[..k] + [v[k]];
      var p := Parser(HeaderValue, r.(headers := r.headers + [Header(n, v[..k])]));
      var q := Parser(HeaderValue, r.(headers := r.headers + [Header(n, v)]));
      assert p.AddToValue(v[k]).req.headers == r.headers + [Header(n, v)];
      GoesOne(p, v[k], q);
      GoesOn(Parser(HeaderValue, r.(headers := r.headers + [Header(n, "")])), v[..k], p, [v[k]], q);
    }
  }

  lemma ReadsHeader(r: Request, h: Header)
    requires IsToken(h.name) && IsValue(h.value)
    ensures Goes(Parser(HeaderLineStart, r), PrintHeader(h), Parser(HeaderLineStart, r.(headers := r.headers + [h])))
  {
    var start := Parser(HeaderLineStart, r);
    var named, full := r.(headers := r.headers + [Header(h.name, "")]), r.(headers := r.headers + [h]);
    ReadsName(r, h.name);
    GoesOne(Parser(HeaderName, named), ':', Parser(SpaceBeforeValue, named));
    GoesOn(start, h.name, Parser(HeaderName, named), ":", Parser(SpaceBeforeValue, named));
    GoesOne(Parser(SpaceBeforeValue, named), ' ', Parser(HeaderValue, named));
    GoesOn(start, h.name + ":", Parser(SpaceBeforeValue, named), " ", Parser(HeaderValue, named));
    ReadsValue(r, h.name, h.value);
    GoesOn(start, h.name + ":" + " ", Parser(HeaderValue, named), h.value, Parser(HeaderValue, full));
    GoesOne(Parser(HeaderValue, full), '\r', Parser(Newline2, full));
    GoesOn(start, h.name + ":" + " " + h.value, Parser(HeaderValue, full), "\r", Parser(Newline2, full));
    GoesOne(Parser(Newline2, full), '\n', Parser(HeaderLineStart, full));
    GoesOn(start, h.name + ":" + " " + h.value + "\r", Parser(Newline2, full), "\n", Parser(HeaderLineStart, full));
    assert h.name + ":" + " " + h.value + "\r" + "\n" == PrintHeader(h);
  }

  lemma {:induction false} ReadsHeaders(r: Request, hs: seq<Header>)
    requires r.headers == [] && forall i :: 0 <= i < |hs| ==> IsToken(hs[i].name) && IsValue(hs[i].value)
    ensures Goes(Parser(HeaderLineStart, r), PrintHeaders(hs), Parser(HeaderLineStart, r.(headers := hs)))
    decreases |hs|
  {
    if hs != [] {
      var k := |hs| - 1;
      ReadsHeaders(r, hs[..k]);
      var p := r.(headers := hs[..k]);
      ReadsHeader(p, hs[k]);
      assert hs == hs[..k] + [hs[k]];
      GoesOn(Parser(HeaderLineStart, r), PrintHeaders(hs[..k]), Parser(HeaderLineStart, p),
             PrintHeader(hs[k]), Parser(HeaderLineStart, r.(headers := hs)));
    }
  }

  lemma ReadsProtocol(r: Request)
    ensures Goes(Parser(Uri, r), " HTTP/", Parser(MajorStart, r.(major := 0, minor := 0)))
  {
    var p := Parser(Uri, r);
    var q := Parser(MajorStart, r.(major := 0, minor := 0));
    GoesOne(p, ' ', p.To(VersionH));
    GoesOne(p.To(VersionH), 'H', p.To(VersionT1));
    GoesOn(p, " ", p.To(VersionH), "H", p.To(VersionT1));
    GoesOne(p.To(VersionT1), 'T', p.To(VersionT2));
    GoesOn(p, " " + "H", p.To(VersionT1), "T", p.To(VersionT2));
    GoesOne(p.To(VersionT2), 'T', p.To(VersionP));
    GoesOn(p, " " + "H" + "T", p.To(VersionT2), "T", p.To(VersionP));
    GoesOne(p.To(VersionP), 'P', p.To(VersionSlash));
    GoesOn(p, " " + "H" + "T" + "T", p.To(VersionP), "P", p.To(VersionSlash));
    GoesOne(p.To(VersionSlash), '/', q);
    GoesOn(p, " " + "H" + "T" + "T" + "P", p.To(VersionSlash), "/", q);
    assert " " + "H" + "T" + "T" + "P" + "/" == " HTTP/";
  }

  lemma {:induction false} NumeralIsDecimal(n: nat)
    ensures Decimal(Numeral(n, 10))
  {
    if n < 10 { DecimalDigit(n); } else { NumeralIsDecimal(n / 10); DecimalDigit(n % 10); }
  }

  lemma ReadsVersionDigits(r: Request, a: string, b: string)
    requires r.major == 0 && r.minor == 0 && Decimal(a) && Decimal(b)
    ensures Goes(Parser(MajorStart, r), a + "." + b + "\r\n",
                 Parser(HeaderLineStart, r.(major := ValueOf(a, 10), minor := ValueOf(b, 10))))
  {
    var start := Parser(MajorStart, r);
    var p := Parser(Major, r.(major := ValueOf(a, 10)));
    var q := Parser(Minor, p.req.(minor := ValueOf(b, 10)));
    ReadsMajor(r, a);
    GoesOne(p, '.', p.To(MinorStart));
    GoesOn(start, a, p, ".", p.To(MinorStart));
    ReadsMinor(p.req, b);
    GoesOn(start, a + ".", p.To(MinorStart), b, q);
    GoesOne(q, '\r', q.To(Newline1));
    GoesOn(start, a + "." + b, q, "\r", q.To(Newline1));
    GoesOne(q.To(Newline1), '\n', q.To(HeaderLineStart));
    GoesOn(start, a + "." + b + "\r", q.To(Newline1), "\n", q.To(HeaderLineStart));
    assert a + "." + b + "\r" + "\n" == a + "." + b + "\r\n";
  }

  lemma ReadsVersion(r: Request, major: nat, minor: nat)
    requires r.major == 0 && r.minor == 0
    ensures Goes(Parser(MajorStart, r), Numeral(major, 10) + "." + Numeral(minor, 10) + "\r\n",
                 Parser(HeaderLineStart, r.(major := major, minor := minor)))
  {
    NumeralIsDecimal(major);
    NumeralIsDecimal(minor);
    NumeralReadsBack(major, 10);
    NumeralReadsBack(minor, 10);
    ReadsVersionDigits(r, Numeral(major, 10), Numeral(minor, 10));
  }

  /** Everything up to the last character. */
  function Body(r: Request): string {
    r.method_ + " " + r.uri + " HTTP/" + (Numeral(r.major, 10) + "." + Numeral(r.minor, 10) + "\r\n") +
        PrintHeaders(r.headers) + "\r"
  }

  lemma PrintIsBody(r: Request)
    ensures Print(r) == Body(r) + "\n"
  {
  }

  lemma ReadsRequestLine(r: Request)
    requires WellFormed(r)
    ensures Goes(Parser(MethodStart, EMPTY), r.method_ + " " + r.uri + " HTTP/",
        Parser(MajorStart, EMPTY.(method_ := r.method_, uri := r.uri)))
  {
    var start := Parser(MethodStart, EMPTY);
    var p, q := EMPTY.(method_ := r.method_), EMPTY.(method_ := r.method_, uri := r.uri);
    ReadsMethod(EMPTY, r.method_);
    GoesOne(Parser(Method, p), ' ', Parser(Uri, p));
    GoesOn(start, r.method_, Parser(Method, p), " ", Parser(Uri, p));
    ReadsUri(p, r.uri);
    GoesOn(start, r.method_ + " ", Parser(Uri, p), r.uri, Parser(Uri, q));
    ReadsProtocol(q);
    GoesOn(start, r.method_ + " " + r.uri, Parser(Uri, q), " HTTP/", Parser(MajorStart, q));
  }

  lemma ReadsBody(r: Request)
    requires WellFormed(r)
    ensures Goes(Parser(MethodStart, EMPTY), Body(r), Parser(Newline3, r))
  {
    var start := Parser(MethodStart, EMPTY);
    var line, version := r.method_ + " " + r.uri + " HTTP/", Numeral(r.major, 10) + "." + Numeral(r.minor, 10) + "\r\n";
    var q := EMPTY.(method_ := r.method_, uri := r.uri);
    var v := q.(major := r.major, minor := r.minor);
    ReadsRequestLine(r);
    ReadsVersion(q, r.major, r.minor);
    GoesOn(start, line, Parser(MajorStart, q), version, Parser(HeaderLineStart, v));
    ReadsHeaders(v, r.headers);
    assert v.(headers := r.headers) == r;
    GoesOn(start, line + version, Parser(HeaderLineStart, v), PrintHeaders(r.headers), Parser(HeaderLineStart, r));
    GoesOne(Parser(HeaderLineStart, r), '\r', Parser(Newline3, r));
    GoesOn(start, line + version + PrintHeaders(r.headers), Parser(HeaderLineStart, r), "\r", Parser(Newline3, r));
  }

  /** A printed request is read back, the answer coming with its last character. */
  lemma RequestRoundTrip(r: Request)
    requires WellFormed(r)
    ensures Run(Parser(MethodStart, EMPTY), Print(r)) == Outcome(Good, Parser(Newline3, r), "")
    ensures forall k :: 0 <= k < |Print(r)| ==> Run(Parser(MethodStart, EMPTY), Print(r)[..k]).result == Indeterminate
  {
    var start := Parser(MethodStart, EMPTY);
    var b := Body(r);
    ReadsBody(r);
    PrintIsBody(r);
    RunAppend(start, b, "\n");
    assert "\n"[1..] == "";
    forall k | 0 <= k < |Print(r)| ensures Run(start, Print(r)[..k]).result == Indeterminate {
      assert Print(r)[..k] == b[..k] && b == b[..k] + b[k..];
      RunAppend(start, b[..k], b[k..]);
    }
  }

  // ---------- any division into chunks ----------

  function Concat(chunks: seq<string>): string {
    if chunks == [] then "" else chunks[0] + Concat(chunks[1..])
  }

  /** Chunk after chunk, until an answer other than `indeterminate`. */
  function RunChunks(p: Parser, chunks: seq<string>): (o: (Result, Parser))
    requires p.Valid()
    decreases |chunks|
  {
    if chunks == [] then (Indeterminate, p)
    else
      var o := Run(p, chunks[0]);
      if o.result != Indeterminate then (o.result, o.parser) else RunChunks(o.parser, chunks[1..])
  }

  /** How a text is divided makes no difference, whatever the text. */
  lemma {:induction false} ChunksMakeNoDifference(p: Parser, chunks: seq<string>)
    requires p.Valid()
    ensures var o := Run(p, Concat(chunks)); RunChunks(p, chunks) == (o.result, o.parser)
    decreases |chunks|
  {
    if chunks != [] {
      RunAppend(p, chunks[0], Concat(chunks[1..]));
      var o := Run(p, chunks[0]);
      if o.result == Indeterminate { ChunksMakeNoDifference(o.parser, chunks[1..]); }
    }
  }

  lemma ChunkedRoundTrip(r: Request, chunks: seq<string>)
    requires WellFormed(r) && Concat(chunks) == Print(r)
    ensures RunChunks(Parser(MethodStart, EMPTY), chunks) == (Good, Parser(Newline3, r))
  {
    RequestRoundTrip(r);
    ChunksMakeNoDifference(Parser(MethodStart, EMPTY), chunks);
  }

  // ---------- what is accepted ----------

  predicate HeadersWellFormed(hs: seq<Header>) {
    forall i :: 0 <= i < |hs| ==> IsToken(hs[i].name) && IsValue(hs[i].value)
  }

  /** What the request holds in each state on the way to an answer. */
  predicate OnTheWay(p: Parser) {
    p.Valid() && HeadersWellFormed(p.req.headers) && IsUri(p.req.uri) &&
    (p.state == MethodStart || IsToken(p.req.method_)) &&
    (p.state == MethodStart ==> p.req.method_ == "")
  }

  lemma StepStays(p: Parser, c: char)
    requires OnTheWay(p)
    ensures OnTheWay(Step(p, c).1)
  {
  }

  /** Every request the parser accepts is well formed, however it was written. */
  lemma {:induction false} AcceptedIsWellFormed(p: Parser, s: string)
    requires OnTheWay(p)
    ensures OnTheWay(Run(p, s).parser) && (Run(p, s).result == Good ==> WellFormed(Run(p, s).parser.req))
    decreases |s|
  {
    if s != "" {
      StepStays(p, s[0]);
      var (r, q) := Step(p, s[0]);
      if r == Indeterminate { AcceptedIsWellFormed(q, s[1..]); }
    }
  }

  /** Printing what was read from any text, and reading it again, gives the same request. */
  lemma PrintingIsNormalForm(s: string)
    requires Run(Parser(MethodStart, EMPTY), s).result == Good
    ensures var r := Run(Parser(MethodStart, EMPTY), s).parser.req;
            Run(Parser(MethodStart, EMPTY), Print(r)) == Outcome(Good, Parser(Newline3, r), "")
  {
    AcceptedIsWellFormed(Parser(MethodStart, EMPTY), s);
    RequestRoundTrip(Run(Parser(MethodStart, EMPTY), s).parser.req);
  }

  predicate InLine(s: State) {
    s.MethodStart? || s.Method? || s.Uri? || s.VersionH? || s.VersionT1? || s.VersionT2? || s.VersionP? ||
    s.VersionSlash?
  }

  predicate InVersion(s: State) {
    s.MajorStart? || s.Major? || s.MinorStart? || s.Minor? || s.Newline1?
  }

  /** Until the version is reached its numbers are zero. */
  predicate NoVersionYet(p: Parser) {
    InLine(p.state) ==> p.req.major == 0 && p.req.minor == 0
  }

  /** Version numbers only grow while they are read, so none overflows on the way to one that fits. */
  lemma {:induction false} VersionsOnlyGrow(p: Parser, s: string)
    requires p.Valid() && NoVersionYet(p)
    ensures var r := Run(p, s).parser.req; r.major >= p.req.major && r.minor >= p.req.minor
    decreases |s|
  {
    if s != "" {
      var (r, q) := Step(p, s[0]);
      assert NoVersionYet(q) && q.req.major >= p.req.major && q.req.minor >= p.req.minor;
      if r == Indeterminate { VersionsOnlyGrow(q, s[1..]); }
    }
  }
}
