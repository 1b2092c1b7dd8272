/**
 * Which texts are requests, and which requests they denote, said without the states of the parser; and the proof that
 * the parser of lib/http/request_parser.cpp answers exactly so.
 */
module HttpLanguage {
  import opened Numerals
  import opened Http

  // ---------- characters, by code ----------

  /** A character of a token, as listed in section 3.2.6 of RFC 7230. */
  predicate IsTchar(c: char) {
    c as int in {33, 35, 36, 37, 38, 39, 42, 43, 45, 46, 94, 95, 96, 124, 126} ||
    48 <= c as int <= 57 || 65 <= c as int <= 90 || 97 <= c as int <= 122
  }

  /** Neither a space nor a control character; bytes above 127 are neither. */
  predicate IsVisible(c: char) {
    33 <= c as int != 127
  }

  lemma TokenCharacters(c: char)
    ensures IsTokenChar(c) <==> IsTchar(c)
    ensures !IsCtl(c) <==> c == ' ' || IsVisible(c)
    ensures IsVisible(c) <==> !IsCtl(c) && c != ' '
  {
  }

  // ---------- how a request is written ----------

  /** A continuation: blanks, then text. */
  datatype Fold = Fold(blanks: string, text: string)

  datatype Line = Line(name: string, first: string, folds: seq<Fold>)

  datatype Wire = Wire(method_: string, uri: string, major: string, minor: string, lines: seq<Line>)

  predicate Tchars(s: string) {
    s != "" && forall i :: 0 <= i < |s| ==> IsTchar(s[i])
  }

  predicate Visible(s: string) {
    forall i :: 0 <= i < |s| ==> IsVisible(s[i])
  }

  predicate Content(s: string) {
    forall i :: 0 <= i < |s| ==> s[i] == ' ' || IsVisible(s[i])
  }

  predicate Blanks(s: string) {
    s != "" && forall i :: 0 <= i < |s| ==> s[i] == ' ' || s[i] == '\t'
  }

  /** The blanks reach up to the text. */
  predicate FoldSpelled(f: Fold) {
    Blanks(f.blanks) && Content(f.text) && (f.text == "" || f.text[0] != ' ')
  }

  predicate LineSpelled(l: Line) {
    Tchars(l.name) && Content(l.first) && forall i :: 0 <= i < |l.folds| ==> FoldSpelled(l.folds[i])
  }

  predicate LinesSpelled(ls: seq<Line>) {
    forall i :: 0 <= i < |ls| ==> LineSpelled(ls[i])
  }

  /** Version numbers may have leading zeros. */
  predicate Spelled(w: Wire) {
    Tchars(w.method_) && Visible(w.uri) && Decimal(w.major) && Decimal(w.minor) && LinesSpelled(w.lines)
  }

  function Front(l: Line): (r: Line)
    requires l.folds != []
  {
    l.(folds := l.folds[..|l.folds| - 1])
  }

  function LastFold(l: Line): (f: Fold)
    requires l.folds != []
  {
    l.folds[|l.folds| - 1]
  }

  /** A header line without its last line break: the name, the first part, and each continuation on its own line. */
  function Open(l: Line): string
    decreases |l.folds|
  {
    if l.folds == [] then l.name + ": " + l.first
    else Open(Front(l)) + "\r\n" + LastFold(l).blanks + LastFold(l).text
  }

  function LinesText(ls: seq<Line>): string {
    if ls == [] then "" else LinesText(ls[..|ls| - 1]) + (Open(ls[|ls| - 1]) + "\r\n")
  }

  function Head(w: Wire): string {
    w.method_ + " " + w.uri + " HTTP/" + (w.major + "." + w.minor + "\r\n")
  }

  function Text(w: Wire): string {
    Head(w) + LinesText(w.lines) + "\r\n"
  }

  // ---------- what it means ----------

  /** The parts of a header one after another, the blanks before continuations left out. */
  function Value(l: Line): string
    decreases |l.folds|
  {
    if l.folds == [] then l.first else Value(Front(l)) + LastFold(l).text
  }

  function HeaderOf(l: Line): Header {
    Header(l.name, Value(l))
  }

  function Headers(ls: seq<Line>): seq<Header> {
    seq(|ls|, i requires 0 <= i < |ls| => HeaderOf(ls[i]))
  }

  function Meaning(w: Wire): Request {
    Request(w.method_, w.uri, ValueOf(w.major, 10), ValueOf(w.minor, 10), Headers(w.lines))
  }

  predicate Writes(w: Wire, text: string, r: Request) {
    Spelled(w) && Text(w) == text && Meaning(w) == r
  }

  ghost predicate Denotes(text: string, r: Request) {
    exists w :: Writes(w, text, r)
  }

  const FRESH := Parser(MethodStart, EMPTY)

  // ---------- every request that is written is read ----------

  lemma AsParsed(s: string)
    ensures Tchars(s) <==> IsToken(s)
    ensures Visible(s) <==> IsUri(s)
    ensures Content(s) <==> IsValue(s)
  {
    forall i | 0 <= i < |s| ensures IsTokenChar(s[i]) <==> IsTchar(s[i]) { TokenCharacters(s[i]); }
    forall i | 0 <= i < |s| ensures IsVisible(s[i]) <==> !IsCtl(s[i]) && s[i] != ' ' { TokenCharacters(s[i]); }
    forall i | 0 <= i < |s| ensures !IsCtl(s[i]) <==> s[i] == ' ' || IsVisible(s[i]) { TokenCharacters(s[i]); }
  }

  lemma {:induction false} ReadsBlanks(r: Request, b: string)
    requires r.headers != [] && Blanks(b)
    ensures Goes(Parser(HeaderLineStart, r), b, Parser(HeaderLws, r))
    decreases |b|
  {
    var k := |b| - 1;
    assert b == b[..k] + [b[k]];
    if k == 0 {
      assert b == [b[0]];
      GoesOne(Parser(HeaderLineStart, r), b[0], Parser(HeaderLws, r));
    } else {
      ReadsBlanks(r, b[..k]);
      GoesOne(Parser(HeaderLws, r), b[k], Parser(HeaderLws, r));
      GoesOn(Parser(HeaderLineStart, r), b[..k], Parser(HeaderLws, r), [b[k]], Parser(HeaderLws, r));
    }
  }

  /** The request with one more header. */
  function With(r: Request, name: string, value: string): Request {
    r.(headers := r.headers + [Header(name, value)])
  }

  lemma {:induction false} ReadsFoldText(r: Request, n: string, v: string, t: string)
    requires IsValue(t) && t != "" && t[0] != ' '
    ensures Goes(Parser(HeaderLws, With(r, n, v)), t, Parser(HeaderValue, With(r, n, v + t)))
    decreases |t|
  {
    var k := |t| - 1;
    assert t == t[..k] + [t[k]];
    var from, to := Parser(HeaderLws, With(r, n, v)), Parser(HeaderValue, With(r, n, v + t));
    if k == 0 {
      assert t == [t[0]];
      assert from.AddToValue(t[0]).req.headers == to.req.headers;
      GoesOne(from, t[0], to);
    } else {
      ReadsFoldText(r, n, v, t[..k]);
      var mid := Parser(HeaderValue, With(r, n, v + t[..k]));
      assert v + t == v + t[..k] + [t[k]];
      assert mid.AddToValue(t[k]).req.headers == to.req.headers;
      GoesOne(mid, t[k], to);
      GoesOn(from, t[..k], mid, [t[k]], to);
    }
  }

  lemma LineEnds(r: Request, from: State)
    requires r.headers != [] && (from == HeaderLws || from == HeaderValue)
    ensures Goes(Parser(from, r), "\r\n", Parser(HeaderLineStart, r))
  {
    GoesOne(Parser(from, r), '\r', Parser(Newline2, r));
    GoesOne(Parser(Newline2, r), '\n', Parser(HeaderLineStart, r));
    GoesOn(Parser(from, r), "\r", Parser(Newline2, r), "\n", Parser(HeaderLineStart, r));
    assert "\r" + "\n" == "\r\n";
  }

  lemma ReadsFold(r: Request, n: string, v: string, f: Fold)
    requires FoldSpelled(f)
    ensures Goes(Parser(HeaderLineStart, With(r, n, v)), f.blanks + f.text + "\r\n",
                 Parser(HeaderLineStart, With(r, n, v + f.text)))
  {
    var start, before, after := Parser(HeaderLineStart, With(r, n, v)), With(r, n, v), With(r, n, v + f.text);
    AsParsed(f.text);
    ReadsBlanks(before, f.blanks);
    if f.text == "" {
      assert v + f.text == v && f.blanks + f.text == f.blanks;
      LineEnds(before, HeaderLws);
      GoesOn(start, f.blanks, Parser(HeaderLws, before), "\r\n", Parser(HeaderLineStart, before));
    } else {
      ReadsFoldText(r, n, v, f.text);
      GoesOn(start, f.blanks, Parser(HeaderLws, before), f.text, Parser(HeaderValue, after));
      LineEnds(after, HeaderValue);
      GoesOn(start, f.blanks + f.text, Parser(HeaderValue, after), "\r\n", Parser(HeaderLineStart, after));
    }
  }

  lemma {:induction false} ReadsLine(r: Request, l: Line)
    requires LineSpelled(l)
    ensures Goes(Parser(HeaderLineStart, r), Open(l) + "\r\n", Parser(HeaderLineStart, With(r, l.name, Value(l))))
    decreases |l.folds|
  {
    if l.folds == [] {
      AsParsed(l.name);
      AsParsed(l.first);
      ReadsHeader(r, Header(l.name, l.first));
    } else {
      var f := LastFold(l);
      ReadsLine(r, Front(l));
      ReadsFold(r, l.name, Value(Front(l)), f);
      GoesOn(Parser(HeaderLineStart, r), Open(Front(l)) + "\r\n",
             Parser(HeaderLineStart, With(r, l.name, Value(Front(l)))),
             f.blanks + f.text + "\r\n", Parser(HeaderLineStart, With(r, l.name, Value(l))));
      assert Open(Front(l)) + "\r\n" + (f.blanks + f.text + "\r\n") == Open(l) + "\r\n";
    }
  }

  lemma {:induction false} ReadsLines(r: Request, ls: seq<Line>)
    requires r.headers == [] && LinesSpelled(ls)
    ensures Goes(Parser(HeaderLineStart, r), LinesText(ls), Parser(HeaderLineStart, r.(headers := Headers(ls))))
    decreases |ls|
  {
    if ls == [] {
      assert r.(headers := Headers(ls)) == r;
    } else {
      var k := |ls| - 1;
      ReadsLines(r, ls[..k]);
      var p, q := r.(headers := Headers(ls[..k])), r.(headers := Headers(ls));
      ReadsLine(p, ls[k]);
      assert Headers(ls) == Headers(ls[..k]) + [HeaderOf(ls[k])];
      GoesOn(Parser(HeaderLineStart, r), LinesText(ls[..k]), Parser(HeaderLineStart, p), Open(ls[k]) + "\r\n",
             Parser(HeaderLineStart, q));
    }
  }

  lemma ReadsHead(w: Wire)
    requires Spelled(w)
    ensures Goes(FRESH, Head(w), Parser(HeaderLineStart, Meaning(w.(lines := []))))
  {
    var r := Request(w.method_, w.uri, 0, 0, []);
    AsParsed(w.method_);
    AsParsed(w.uri);
    ReadsRequestLine(r);
    ReadsVersionDigits(r, w.major, w.minor);
    assert Meaning(w.(lines := [])) == r.(major := ValueOf(w.major, 10), minor := ValueOf(w.minor, 10));
    GoesOn(FRESH, r.method_ + " " + r.uri + " HTTP/", Parser(MajorStart, r), w.major + "." + w.minor + "\r\n",
           Parser(HeaderLineStart, Meaning(w.(lines := []))));
  }

  lemma WrittenIsRead(w: Wire)
    requires Spelled(w)
    ensures Run(FRESH, Text(w)) == Outcome(Good, Parser(Newline3, Meaning(w)), "")
  {
    var r, q := Meaning(w.(lines := [])), Meaning(w);
    var start, end := Parser(HeaderLineStart, r), Parser(HeaderLineStart, q);
    ReadsHead(w);
    ReadsLines(r, w.lines);
    assert r.(headers := Headers(w.lines)) == q;
    GoesOn(FRESH, Head(w), start, LinesText(w.lines), end);
    GoesOne(end, '\r', Parser(Newline3, q));
    GoesOn(FRESH, Head(w) + LinesText(w.lines), end, "\r", Parser(Newline3, q));
    RunAppend(FRESH, Head(w) + LinesText(w.lines) + "\r", "\n");
    assert "\n"[1..] == "";
    assert Head(w) + LinesText(w.lines) + "\r" + "\n" == Text(w);
  }

  // ---------- everything that is read was written ----------

  /** The text a part of a request was read from, in each state. */
  function SoFar(s: State, w: Wire): string
    requires s in {HeaderLws, HeaderName, SpaceBeforeValue, HeaderValue, Newline2} ==> w.lines != []
  {
    var m := w.method_ + " ";
    var v := w.method_ + " " + w.uri + " HTTP/";
    var n := |w.lines| - 1;
    match s
    case MethodStart => ""
    case Method => w.method_
    case Uri => m + w.uri
    case VersionH => m + w.uri + " "
    case VersionT1 => m + w.uri + " H"
    case VersionT2 => m + w.uri + " HT"
    case VersionP => m + w.uri + " HTT"
    case VersionSlash => m + w.uri + " HTTP"
    case MajorStart => v
    case Major => v + w.major
    case MinorStart => v + (w.major + ".")
    case Minor => v + (w.major + "." + w.minor)
    case Newline1 => v + (w.major + "." + w.minor + "\r")
    case HeaderLineStart => Head(w) + LinesText(w.lines)
    case HeaderName => Head(w) + LinesText(w.lines[..n]) + w.lines[n].name
    case SpaceBeforeValue => Head(w) + LinesText(w.lines[..n]) + (w.lines[n].name + ":")
    case HeaderValue => Head(w) + LinesText(w.lines[..n]) + Open(w.lines[n])
    case HeaderLws => Head(w) + LinesText(w.lines[..n]) + Open(w.lines[n])
    case Newline2 => Head(w) + LinesText(w.lines[..n]) + (Open(w.lines[n]) + "\r")
    case Newline3 => Head(w) + LinesText(w.lines) + "\r"
  }

  /** What is spelled in the states of the request line, and what is not there yet. */
  predicate LineParts(s: State, w: Wire) {
    w.major == "" && w.minor == "" && w.lines == [] &&
    (if s == MethodStart then w.method_ == "" else Tchars(w.method_)) &&
    (if s == MethodStart || s == Method then w.uri == "" else Visible(w.uri))
  }

  predicate VersionParts(s: State, w: Wire) {
    w.lines == [] && Tchars(w.method_) && Visible(w.uri) &&
    (if s == MajorStart then w.major == "" else Decimal(w.major)) &&
    (if s == Minor || s == Newline1 then Decimal(w.minor) else w.minor == "")
  }

  predicate HeaderParts(s: State, w: Wire) {
    Spelled(w) && (s == HeaderLineStart || s == Newline3 || w.lines != []) &&
    (s == HeaderName || s == SpaceBeforeValue ==> Bare(w.lines[|w.lines| - 1])) &&
    (s == HeaderValue ==> Filled(w.lines[|w.lines| - 1])) &&
    (s == HeaderLws ==> Blank(w.lines[|w.lines| - 1]))
  }

  predicate Bare(l: Line) {
    l.first == "" && l.folds == []
  }

  predicate Filled(l: Line) {
    l.folds == [] || LastFold(l).text != ""
  }

  predicate Blank(l: Line) {
    l.folds != [] && LastFold(l).text == ""
  }

  predicate Parts(s: State, w: Wire) {
    if InLine(s) then LineParts(s, w) else if InVersion(s) then VersionParts(s, w) else HeaderParts(s, w)
  }

  /** The parser is where the text of w so far has taken it. */
  predicate Follows(past: string, p: Parser, w: Wire) {
    Parts(p.state, w) && past == SoFar(p.state, w) && p.req == Meaning(w)
  }

  lemma LineFollows(past: string, p: Parser, w: Wire, c: char) returns (w': Wire)
    requires p.Valid() && InLine(p.state) && Follows(past, p, w) && Step(p, c).0 == Indeterminate
    ensures Follows(past + [c], Step(p, c).1, w')
  {
    TokenCharacters(c);
    w' := if (p.state == MethodStart || p.state == Method) && c != ' ' then w.(method_ := w.method_ + [c])
          else if p.state == Uri && c != ' ' then w.(uri := w.uri + [c])
          else w;
    assert ValueOf("", 10) == 0;
    assert Meaning(w').headers == [] == p.req.headers;
    if p.state == VersionSlash { assert past + [c] == w.method_ + " " + w.uri + " HTTP/"; }
  }

  lemma OneMoreDigit(s: string, c: char)
    requires IsDigit(c)
    ensures ValueOf(s + [c], 10) == ValueOf(s, 10) * 10 + DigitOf(c)
  {
    ValueSnoc(s, c, 10);
  }

  lemma MajorFollows(past: string, p: Parser, w: Wire, c: char)
    requires (p.state == MajorStart || p.state == Major) && Follows(past, p, w) && IsDigit(c)
    ensures Follows(past + [c], Parser(Major, p.req.(major := p.req.major * 10 + DigitOf(c))),
                    w.(major := w.major + [c]))
  {
    OneMoreDigit(w.major, c);
    var v := w.method_ + " " + w.uri + " HTTP/";
    assert past == v + w.major;
    assert past + [c] == v + (w.major + [c]);
  }

  lemma MinorFollows(past: string, p: Parser, w: Wire, c: char)
    requires (p.state == MinorStart || p.state == Minor) && Follows(past, p, w) && IsDigit(c)
    ensures Follows(past + [c], Parser(Minor, p.req.(minor := p.req.minor * 10 + DigitOf(c))),
                    w.(minor := w.minor + [c]))
  {
    OneMoreDigit(w.minor, c);
    var v := w.method_ + " " + w.uri + " HTTP/";
    assert past == v + (w.major + "." + w.minor);
    assert past + [c] == v + (w.major + "." + (w.minor + [c]));
  }

  lemma VersionEnds(past: string, p: Parser, w: Wire, c: char)
    requires Follows(past, p, w)
    ensures p.state == Major && c == '.' ==> Follows(past + [c], p.To(MinorStart), w)
    ensures p.state == Minor && c == '\r' ==> Follows(past + [c], p.To(Newline1), w)
    ensures p.state == Newline1 && c == '\n' ==> Follows(past + [c], p.To(HeaderLineStart), w)
  {
    var v := w.method_ + " " + w.uri + " HTTP/";
    if p.state == Major && c == '.' {
      assert v + w.major + [c] == v + (w.major + ".");
    } else if p.state == Minor && c == '\r' {
      assert v + (w.major + "." + w.minor) + [c] == v + (w.major + "." + w.minor + "\r");
    } else if p.state == Newline1 && c == '\n' {
      assert v + (w.major + "." + w.minor + "\r") + [c] == v + (w.major + "." + w.minor + "\r\n") == Head(w);
      assert Head(w) + LinesText([]) == Head(w);
    }
  }

  lemma VersionFollows(past: string, p: Parser, w: Wire, c: char) returns (w': Wire)
    requires p.Valid() && InVersion(p.state) && Follows(past, p, w) && Step(p, c).0 == Indeterminate
    ensures Follows(past + [c], Step(p, c).1, w')
  {
    if (p.state == MajorStart || p.state == Major) && c != '.' {
      MajorFollows(past, p, w, c);
      w' := w.(major := w.major + [c]);
    } else if (p.state == MinorStart || p.state == Minor) && c != '\r' {
      MinorFollows(past, p, w, c);
      w' := w.(minor := w.minor + [c]);
    } else {
      VersionEnds(past, p, w, c);
      w' := w;
    }
  }

  /** The last line replaced. */
  function Renewed(w: Wire, l: Line): (r: Wire)
    requires w.lines != []
  {
    w.(lines := w.lines[..|w.lines| - 1] + [l])
  }

  lemma RenewedMeans(w: Wire, l: Line)
    requires w.lines != []
    ensures Meaning(Renewed(w, l)) == Meaning(w).(headers := Headers(w.lines)[|w.lines| - 1 := HeaderOf(l)])
    ensures Spelled(w) && LineSpelled(l) ==> Spelled(Renewed(w, l))
    ensures Renewed(w, l).lines[..|w.lines| - 1] == w.lines[..|w.lines| - 1]
  {
  }

  lemma LongerName(past: string, p: Parser, w: Wire, c: char) returns (w': Wire)
    requires p.Valid() && p.state == HeaderName && Follows(past, p, w) && IsTchar(c)
    ensures Follows(past + [c], p.AddToName(c), w')
  {
    var n := |w.lines| - 1;
    var l := w.lines[n];
    var m := l.(name := l.name + [c]);
    RenewedMeans(w, m);
    w' := Renewed(w, m);
    assert w'.lines[n] == m && HeaderOf(m) == Header(l.name + [c], "");
    Appended(Head(w), LinesText(w.lines[..n]), l.name, [c]);
  }

  lemma Appended(head: string, lines: string, open: string, t: string)
    ensures head + lines + open + t == head + lines + (open + t)
  {
  }

  lemma NameFollows(past: string, p: Parser, w: Wire, c: char) returns (w': Wire)
    requires p.Valid() && p.state in {HeaderName, SpaceBeforeValue} && Follows(past, p, w)
    requires Step(p, c).0 == Indeterminate
    ensures Follows(past + [c], Step(p, c).1, w')
  {
    TokenCharacters(c);
    var n := |w.lines| - 1;
    var l := w.lines[n];
    if p.state == HeaderName && c != ':' {
      w' := LongerName(past, p, w, c);
    } else {
      w' := w;
      if p.state == HeaderName {
        Appended(Head(w), LinesText(w.lines[..n]), l.name, ":");
      } else {
        Appended(Head(w), LinesText(w.lines[..n]), l.name + ":", " ");
        assert l.name + ":" + " " == l.name + ": " == Open(l);
      }
    }
  }

  /** A character added to the last part of a line. */
  function More(l: Line, c: char): (r: Line) {
    if l.folds == [] then l.(first := l.first + [c])
    else l.(folds := Front(l).folds + [Fold(LastFold(l).blanks, LastFold(l).text + [c])])
  }

  lemma MoreMeans(l: Line, c: char)
    requires LineSpelled(l)
    requires (c == ' ' || IsVisible(c)) && (Blank(l) ==> c != ' ')
    ensures LineSpelled(More(l, c)) && Filled(More(l, c)) && Open(More(l, c)) == Open(l) + [c]
    ensures HeaderOf(More(l, c)) == Header(l.name, Value(l) + [c])
  {
    if l.folds == [] {
      assert l.name + ": " + (l.first + [c]) == l.name + ": " + l.first + [c];
    } else {
      var m, f := More(l, c), LastFold(l);
      assert Front(m) == Front(l) && LastFold(m) == Fold(f.blanks, f.text + [c]) && FoldSpelled(LastFold(m));
      var start := Open(Front(l)) + "\r\n" + f.blanks;
      assert start + (f.text + [c]) == start + f.text + [c];
      assert Value(Front(l)) + (f.text + [c]) == Value(Front(l)) + f.text + [c];
    }
  }

  /** The blanks of a continuation gone on with. */
  function Blanker(l: Line, c: char): (r: Line)
    requires Blank(l)
  {
    l.(folds := Front(l).folds + [Fold(LastFold(l).blanks + [c], "")])
  }

  lemma BlankerMeans(l: Line, c: char)
    requires LineSpelled(l) && Blank(l) && (c == ' ' || c == '\t')
    ensures LineSpelled(Blanker(l, c)) && Blank(Blanker(l, c)) && Open(Blanker(l, c)) == Open(l) + [c]
    ensures HeaderOf(Blanker(l, c)) == HeaderOf(l)
  {
    assert Front(Blanker(l, c)) == Front(l);
  }

  function Begun(l: Line, c: char): (r: Line) {
    l.(folds := l.folds + [Fold([c], "")])
  }

  lemma BegunMeans(l: Line, c: char)
    requires LineSpelled(l) && (c == ' ' || c == '\t')
    ensures LineSpelled(Begun(l, c)) && Blank(Begun(l, c)) && HeaderOf(Begun(l, c)) == HeaderOf(l)
    ensures Open(Begun(l, c)) == Open(l) + "\r\n" + [c]
  {
    assert Front(Begun(l, c)) == l;
  }

  /** The text up to the last line. */
  function Before(w: Wire): string
    requires w.lines != []
  {
    Head(w) + LinesText(w.lines[..|w.lines| - 1])
  }

  /** A line given a longer last part, whatever the part. */
  lemma LastLineFollows(w: Wire, m: Line, s: State)
    requires Spelled(w) && w.lines != [] && LineSpelled(m)
    requires (s == HeaderLws && Blank(m)) || (s == HeaderValue && Filled(m))
    ensures Follows(Before(w) + Open(m),
                    Parser(s, Meaning(w).(headers := Headers(w.lines)[|w.lines| - 1 := HeaderOf(m)])), Renewed(w, m))
  {
    RenewedMeans(w, m);
    assert Before(Renewed(w, m)) == Before(w);
  }

  lemma MoreBlanks(past: string, p: Parser, w: Wire, c: char) returns (w': Wire)
    requires p.Valid() && p.state == HeaderLws && Follows(past, p, w) && (c == ' ' || c == '\t')
    ensures Follows(past + [c], p, w')
  {
    var l := w.lines[|w.lines| - 1];
    BlankerMeans(l, c);
    w' := SameValue(w, l, Blanker(l, c));
    assert Before(w) + Open(l) + [c] == Before(w) + (Open(l) + [c]);
  }

  lemma SameValue(w: Wire, l: Line, m: Line) returns (w': Wire)
    requires Spelled(w) && w.lines != [] && l == w.lines[|w.lines| - 1]
    requires LineSpelled(m) && Blank(m) && HeaderOf(m) == HeaderOf(l)
    ensures Follows(Before(w) + Open(m), Parser(HeaderLws, Meaning(w)), w')
  {
    LastLineFollows(w, m, HeaderLws);
    w' := Renewed(w, m);
    assert Headers(w.lines)[|w.lines| - 1 := HeaderOf(m)] == Headers(w.lines);
  }

  lemma MoreText(past: string, p: Parser, w: Wire, c: char) returns (w': Wire)
    requires p.Valid() && p.state in {HeaderLws, HeaderValue} && Follows(past, p, w)
    requires (c == ' ' && p.state == HeaderValue) || IsVisible(c)
    ensures Follows(past + [c], p.AddToValue(c), w')
  {
    var l := w.lines[|w.lines| - 1];
    MoreMeans(l, c);
    w' := LongerValue(p, w, l, More(l, c), c);
    assert Before(w) + Open(l) + [c] == Before(w) + (Open(l) + [c]);
  }

  lemma LongerValue(p: Parser, w: Wire, l: Line, m: Line, c: char) returns (w': Wire)
    requires Spelled(w) && w.lines != [] && l == w.lines[|w.lines| - 1] && p.req == Meaning(w)
    requires LineSpelled(m) && Filled(m) && HeaderOf(m) == Header(l.name, Value(l) + [c])
    ensures Follows(Before(w) + Open(m), p.AddToValue(c), w')
  {
    LastLineFollows(w, m, HeaderValue);
    w' := Renewed(w, m);
    assert p.req.headers[|w.lines| - 1] == HeaderOf(l);
  }

  lemma ValueFollows(past: string, p: Parser, w: Wire, c: char) returns (w': Wire)
    requires p.Valid() && p.state in {HeaderLws, HeaderValue} && Follows(past, p, w)
    requires Step(p, c).0 == Indeterminate
    ensures Follows(past + [c], Step(p, c).1, w')
  {
    TokenCharacters(c);
    if c == '\r' {
      w' := w;
      Appended(Head(w), LinesText(w.lines[..|w.lines| - 1]), Open(w.lines[|w.lines| - 1]), "\r");
    } else if p.state == HeaderLws && (c == ' ' || c == '\t') {
      w' := MoreBlanks(past, p, w, c);
    } else {
      w' := MoreText(past, p, w, c);
    }
  }

  lemma Reopened(head: string, lines: string, open: string, t: string)
    ensures head + (lines + (open + "\r\n")) + t == head + lines + (open + "\r\n" + t)
    ensures head + lines + (open + "\r") + "\n" == head + (lines + (open + "\r\n"))
  {
    assert open + "\r" + "\n" == open + "\r\n";
  }

  lemma ContinuationFollows(past: string, p: Parser, w: Wire, c: char) returns (w': Wire)
    requires p.Valid() && p.state == HeaderLineStart && Follows(past, p, w)
    requires w.lines != [] && (c == ' ' || c == '\t')
    ensures Follows(past + [c], p.To(HeaderLws), w')
  {
    var n := |w.lines| - 1;
    var l := w.lines[n];
    BegunMeans(l, c);
    w' := SameValue(w, l, Begun(l, c));
    Reopened(Head(w), LinesText(w.lines[..n]), Open(l), [c]);
  }

  lemma NewLineFollows(past: string, p: Parser, w: Wire, c: char) returns (w': Wire)
    requires p.Valid() && p.state == HeaderLineStart && Follows(past, p, w) && IsTchar(c)
    ensures Follows(past + [c], Parser(HeaderName, p.req.(headers := p.req.headers + [Header([c], "")])), w')
  {
    var m := Line([c], "", []);
    w' := w.(lines := w.lines + [m]);
    assert w'.lines[..|w.lines|] == w.lines;
    assert HeaderOf(m) == Header([c], "");
    assert Headers(w'.lines) == Headers(w.lines) + [HeaderOf(m)];
  }

  lemma LineStartFollows(past: string, p: Parser, w: Wire, c: char) returns (w': Wire)
    requires p.Valid() && p.state == HeaderLineStart && Follows(past, p, w)
    requires Step(p, c).0 == Indeterminate
    ensures Follows(past + [c], Step(p, c).1, w')
  {
    TokenCharacters(c);
    if c == '\r' {
      w' := w;
    } else if w.lines != [] && (c == ' ' || c == '\t') {
      w' := ContinuationFollows(past, p, w, c);
    } else {
      w' := NewLineFollows(past, p, w, c);
    }
  }

  lemma BreakFollows(past: string, p: Parser, w: Wire, c: char)
    requires p.Valid() && p.state == Newline2 && Follows(past, p, w) && c == '\n'
    ensures Follows(past + [c], p.To(HeaderLineStart), w)
  {
    var n := |w.lines| - 1;
    Reopened(Head(w), LinesText(w.lines[..n]), Open(w.lines[n]), "");
    assert LinesText(w.lines) == LinesText(w.lines[..n]) + (Open(w.lines[n]) + "\r\n");
  }

  lemma HeaderFollows(past: string, p: Parser, w: Wire, c: char) returns (w': Wire)
    requires p.Valid() && !InLine(p.state) && !InVersion(p.state) && Follows(past, p, w)
    requires Step(p, c).0 == Indeterminate
    ensures Follows(past + [c], Step(p, c).1, w')
  {
    if p.state == HeaderLineStart {
      w' := LineStartFollows(past, p, w, c);
    } else if p.state == Newline2 {
      BreakFollows(past, p, w, c);
      w' := w;
    } else if p.state in {HeaderName, SpaceBeforeValue} {
      w' := NameFollows(past, p, w, c);
    } else {
      w' := ValueFollows(past, p, w, c);
    }
  }

  /** However the parser came to ask for more, part of a request has been written. */
  lemma {:induction false} Traced(past: string) returns (w: Wire)
    requires Run(FRESH, past).result == Indeterminate
    ensures Follows(past, Run(FRESH, past).parser, w)
    decreases |past|
  {
    if past == "" {
      w := Wire("", "", "", "", []);
    } else {
      var k := |past| - 1;
      var c := past[k];
      assert past == past[..k] + [c];
      RunAppend(FRESH, past[..k], [c]);
      w := Traced(past[..k]);
      var p := Run(FRESH, past[..k]).parser;
      assert [c][1..] == "";
      if InLine(p.state) {
        w := LineFollows(past[..k], p, w, c);
      } else if InVersion(p.state) {
        w := VersionFollows(past[..k], p, w, c);
      } else {
        w := HeaderFollows(past[..k], p, w, c);
      }
    }
  }

  lemma EndIsWritten(past: string, r: Request, w: Wire)
    requires Follows(past, Parser(Newline3, r), w)
    ensures Denotes(past + "\n", r)
  {
    var body := Head(w) + LinesText(w.lines);
    assert body + "\r" + "\n" == body + "\r\n";
    assert Writes(w, past + "\n", r);
  }

  lemma ReadIsWritten(text: string)
    requires Run(FRESH, text).result == Good && Run(FRESH, text).rest == ""
    ensures Run(FRESH, text).parser.state == Newline3 && Denotes(text, Run(FRESH, text).parser.req)
  {
    var k := |text| - 1;
    assert text == text[..k] + [text[k]];
    RunAppend(FRESH, text[..k], [text[k]]);
    assert [text[k]][1..] == "";
    var p := Run(FRESH, text[..k]).parser;
    assert p.state == Newline3 && text[k] == '\n';
    var w := Traced(text[..k]);
    EndIsWritten(text[..k], p.req, w);
  }

  // ---------- every beginning can be completed ----------

  function Rank(s: State): nat {
    match s
    case MethodStart => 18 case Method => 17 case Uri => 16
    case VersionH => 15 case VersionT1 => 14 case VersionT2 => 13 case VersionP => 12 case VersionSlash => 11
    case MajorStart => 10 case Major => 9 case MinorStart => 8 case Minor => 7 case Newline1 => 6
    case HeaderName => 6 case SpaceBeforeValue => 5 case HeaderValue => 4 case HeaderLws => 4 case Newline2 => 3
    case HeaderLineStart => 2 case Newline3 => 1
  }

  /** A character that brings the end of the request nearer. */
  function Onward(s: State): char {
    match s
    case MethodStart => 'G' case Method => ' ' case Uri => ' '
    case VersionH => 'H' case VersionT1 => 'T' case VersionT2 => 'T' case VersionP => 'P' case VersionSlash => '/'
    case MajorStart => '1' case Major => '.' case MinorStart => '0' case Minor => '\r' case Newline1 => '\n'
    case HeaderName => ':' case SpaceBeforeValue => ' ' case HeaderValue => '\r' case HeaderLws => '\r'
    case Newline2 => '\n' case HeaderLineStart => '\r' case Newline3 => '\n'
  }

  lemma {:induction false} CanEnd(p: Parser) returns (s: string)
    requires p.Valid()
    ensures s != "" && Run(p, s).result == Good && Run(p, s).rest == ""
    decreases Rank(p.state)
  {
    var c := Onward(p.state);
    if p.state == Newline3 {
      s := [c];
      assert s[1..] == "";
    } else {
      var q := Step(p, c).1;
      assert Step(p, c).0 == Indeterminate && Rank(q.state) < Rank(p.state);
      var t := CanEnd(q);
      s := [c] + t;
      assert s[1..] == t;
    }
  }

  // ---------- the language, exactly ----------

  /** The text is the beginning, but not the whole, of one that denotes a request. */
  ghost predicate Unfinished(text: string) {
    exists more: string, r: Request :: more != "" && Denotes(text + more, r)
  }

  /** The first k characters are a request. */
  ghost predicate EndsAt(text: string, k: nat) {
    k <= |text| && exists r :: Denotes(text[..k], r)
  }

  /** The answer the grammar calls for. */
  ghost predicate Judged(text: string, o: Outcome) {
    (forall r :: Denotes(text, r) <==> o.result == Good && o.rest == "" && o.parser.req == r) &&
    (o.result == Indeterminate <==> Unfinished(text)) &&
    (o.result == Good <==> exists k: nat :: EndsAt(text, k)) &&
    (o.result == Bad <==> !Unfinished(text) && forall k: nat :: !EndsAt(text, k))
  }

  lemma DenotedIsRead(text: string, r: Request)
    requires Denotes(text, r)
    ensures Run(FRESH, text) == Outcome(Good, Parser(Newline3, r), "")
  {
    var w :| Writes(w, text, r);
    WrittenIsRead(w);
  }

  lemma {:induction false} RestIsSuffix(p: Parser, s: string)
    requires p.Valid()
    ensures |Run(p, s).rest| <= |s|
    ensures var o := Run(p, s);
            o.result != Indeterminate ==> Run(p, s[..|s| - |o.rest|]) == o.(rest := "")
    decreases |s|
  {
    if s != "" {
      var (r, q) := Step(p, s[0]);
      if r == Indeterminate {
        RestIsSuffix(q, s[1..]);
        var o := Run(p, s);
        var k := |s| - |o.rest|;
        if o.result != Indeterminate { assert s[..k][1..] == s[1..][..k - 1]; }
      } else {
        assert s[..1][1..] == "" && s[..1][0] == s[0];
      }
    }
  }

  lemma UnfinishedExactly(text: string)
    ensures Run(FRESH, text).result == Indeterminate <==> Unfinished(text)
  {
    var o := Run(FRESH, text);
    if o.result == Indeterminate {
      var s := CanEnd(o.parser);
      RunAppend(FRESH, text, s);
      ReadIsWritten(text + s);
      assert Unfinished(text);
    } else if Unfinished(text) {
      var more: string, r: Request :| more != "" && Denotes(text + more, r);
      DenotedIsRead(text + more, r);
      RunAppend(FRESH, text, more);
      assert false;
    }
  }

  lemma GoodEnds(text: string)
    requires Run(FRESH, text).result == Good
    ensures exists k: nat :: EndsAt(text, k)
  {
    RestIsSuffix(FRESH, text);
    var k: nat := |text| - |Run(FRESH, text).rest|;
    ReadIsWritten(text[..k]);
    assert EndsAt(text, k);
  }

  lemma EndIsGood(text: string, k: nat)
    requires EndsAt(text, k)
    ensures Run(FRESH, text).result == Good && Denotes(text[..k], Run(FRESH, text).parser.req)
  {
    var r :| Denotes(text[..k], r);
    DenotedIsRead(text[..k], r);
    RunAppend(FRESH, text[..k], text[k..]);
    assert text[..k] + text[k..] == text;
  }

  /**
   * For every text: good at its last character with request r if and only if it denotes r; indeterminate if and only if
   * it is a proper beginning of a text that denotes a request; bad in all other cases.
   */
  lemma LanguageExactly(text: string)
    ensures Judged(text, Run(FRESH, text))
  {
    var o := Run(FRESH, text);
    UnfinishedExactly(text);
    if o.result == Good { GoodEnds(text); }
    forall k: nat | EndsAt(text, k) ensures o.result == Good { EndIsGood(text, k); }
    forall r ensures Denotes(text, r) <==> o.result == Good && o.rest == "" && o.parser.req == r {
      if Denotes(text, r) { DenotedIsRead(text, r); }
      if o.result == Good && o.rest == "" { ReadIsWritten(text); }
    }
  }

  /** What a server that stopped at the first answer may conclude, whatever it was sent. */
  ghost predicate Understood(text: string, result: Result, r: Request) {
    (result == Indeterminate <==> Unfinished(text)) &&
    (result == Good <==> exists k: nat :: EndsAt(text, k)) &&
    (result == Good ==> forall k: nat :: EndsAt(text, k) ==> Denotes(text[..k], r)) &&
    (result == Bad <==> !Unfinished(text) && forall k: nat :: !EndsAt(text, k))
  }

  lemma UnderstoodExactly(text: string)
    ensures Understood(text, Run(FRESH, text).result, Run(FRESH, text).parser.req)
  {
    UnfinishedExactly(text);
    if Run(FRESH, text).result == Good { GoodEnds(text); }
    forall k: nat | EndsAt(text, k)
      ensures Run(FRESH, text).result == Good && Denotes(text[..k], Run(FRESH, text).parser.req)
    {
      EndIsGood(text, k);
    }
  }

  /** What the answer to one more character says about everything read so far. */
  ghost predicate Answers(past: string, result: Result, r: Request) {
    (forall s :: Denotes(past, s) <==> result == Good && s == r) &&
    (result == Indeterminate <==> Unfinished(past)) &&
    (result == Bad <==> !Unfinished(past) && forall s :: !Denotes(past, s))
  }

  /** One step of the parser, after any text that it took without an answer. */
  lemma StepExactly(past: string, p: Parser, c: char)
    requires Goes(FRESH, past, p)
    ensures Answers(past + [c], Step(p, c).0, Step(p, c).1.req)
  {
    RunAppend(FRESH, past, [c]);
    assert [c][1..] == "";
    var text, r := past + [c], Step(p, c).1.req;
    UnfinishedExactly(text);
    if Step(p, c).0 == Good { ReadIsWritten(text); }
    forall s | Denotes(text, s) ensures Step(p, c).0 == Good && s == r { DenotedIsRead(text, s); }
  }

  /** No text denotes two requests, and none that denotes one goes on to denote another. */
  lemma DenotesOnce(text: string, more: string, r: Request, s: Request)
    requires Denotes(text, r) && Denotes(text + more, s)
    ensures more == "" && r == s
  {
    DenotedIsRead(text, r);
    DenotedIsRead(text + more, s);
    RunAppend(FRESH, text, more);
  }
}
