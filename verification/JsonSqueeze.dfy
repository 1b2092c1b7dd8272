/** Texts that lay out tokens, seen from the writers' side: they grow by white space and by tokens. With the white space
    outside string literals removed, all layouts of the same tokens are the same text. */
module JsonSqueeze {
  import opened Sealing
  import opened Numerals
  import opened JsonText
  import opened JsonGrammar
  import opened JsonLayout

  // ---------- tokens ----------

  /** No quotes, no white space. */
  predicate Plain(t: string) {
    t != "" && forall k :: 0 <= k < |t| ==> !IsWs(t[k]) && t[k] != '"'
  }

  ghost predicate IsToken(t: string) {
    Plain(t) || exists s :: t == Quoted(s)
  }

  ghost predicate AreTokens(ts: seq<string>) {
    forall k :: 0 <= k < |ts| ==> IsToken(ts[k])
  }

  /** Printing a real never gives blanks or quotes. */
  ghost predicate Shows(show: real -> string) {
    forall r :: Plain(show(r))
  }

  lemma TokenStart(t: string)
    requires IsToken(t)
    ensures t != "" && !IsWs(t[0])
  {
    if !Plain(t) {
      var s :| t == Quoted(s);
      assert t[0] == '"';
    }
  }

  function Concat(ts: seq<string>): string {
    if ts == [] then "" else ts[0] + Concat(ts[1..])
  }

  lemma {:induction false} ConcatAppend(a: seq<string>, b: seq<string>)
    ensures Concat(a + b) == Concat(a) + Concat(b)
  {
    if a == [] {
      assert a + b == b;
    } else {
      assert (a + b)[1..] == a[1..] + b;
      ConcatAppend(a[1..], b);
      assert a[0] + (Concat(a[1..]) + Concat(b)) == a[0] + Concat(a[1..]) + Concat(b);
    }
  }

  lemma ConcatOne(t: string)
    ensures Concat([t]) == t
  {
    assert Concat([t]) == t + Concat([]);
    assert t + "" == t;
  }

  // ---------- the tokens of a value are tokens ----------

  lemma DigitsPlain(t: string)
    requires IsIntText(t)
    ensures Plain(t)
  {
    forall k | 0 <= k < |t| ensures !IsWs(t[k]) && t[k] != '"' {
      if k > 0 { assert IsDecimalDigit(t[k]); }
    }
  }

  lemma NaturalPlain(n: nat)
    ensures Plain(Numeral(n, 10)) && Plain("-" + Numeral(n, 10))
  {
    NumeralDigits(n);
    var t := Numeral(n, 10);
    DigitsPlain(t);
    DigitsPlain("-" + t);
  }

  lemma ScalarToken(v: Value, show: real -> string)
    requires Shows(show) && !v.Arr? && !v.Obj?
    ensures |TokensOf(v, show)| == 1 && IsToken(TokensOf(v, show)[0])
  {
    match v
    case Null => assert Plain("null");
    case Bool(b) => assert Plain("true") && Plain("false");
    case Int(i) => NaturalPlain(if i < 0 then -i else i);
    case UInt(u) => NaturalPlain(u);
    case Real(r) => assert Plain(show(r));
    case Str(s) =>
  }

  lemma MarksPlain()
    ensures AreTokens(["["]) && AreTokens(["]"]) && AreTokens(["{"]) && AreTokens(["}"]) && AreTokens([","])
    ensures AreTokens([":"])
  {
    assert Plain("[") && Plain("]") && Plain("{") && Plain("}") && Plain(",") && Plain(":");
  }

  lemma {:induction false} ValueTokens(v: Value, show: real -> string)
    requires Shows(show)
    ensures AreTokens(TokensOf(v, show))
    decreases v, Width(v)
  {
    MarksPlain();
    if v.Arr? {
      if v.items != [] { ItemsTokens(v, 0, show); }
    } else if v.Obj? {
      if v.members != [] { MembersTokens(v, 0, show); }
    } else {
      ScalarToken(v, show);
    }
  }

  lemma {:induction false} ItemsTokens(v: Value, k: nat, show: real -> string)
    requires Shows(show) && v.Arr? && k < |v.items|
    ensures AreTokens(ItemTokens(v, k, show))
    decreases v, |v.items| - k
  {
    MarksPlain();
    ValueTokens(v.items[k], show);
    if k + 1 < |v.items| { ItemsTokens(v, k + 1, show); }
  }

  lemma {:induction false} MembersTokens(v: Value, k: nat, show: real -> string)
    requires Shows(show) && v.Obj? && k < |v.members|
    ensures AreTokens(MemberTokens(v, k, show))
    decreases v, |v.members| - k
  {
    MarksPlain();
    var name := Quoted(v.members[k].key);
    assert IsToken(name);
    ValueTokens(v.members[k].value, show);
    if k + 1 < |v.members| { MembersTokens(v, k + 1, show); }
  }

  // ---------- layouts that grow ----------

  predicate Blank(w: string) {
    forall k :: 0 <= k < |w| ==> IsWs(w[k])
  }

  /** The tokens stand up to j, and behind them is white space. */
  ghost predicate LaidTo(doc: string, tokens: seq<string>, j: nat) {
    j <= |doc| && Spans(doc, 0, tokens, j) && Blank(doc[j..])
  }

  /** The document is these tokens, with any white space between them and around them. */
  ghost predicate Laid(doc: string, tokens: seq<string>) {
    AreTokens(tokens) && exists j: nat :: LaidTo(doc, tokens, j)
  }

  lemma LaidNothing()
    ensures Laid("", [])
  {
    assert LaidTo("", [], 0);
  }

  lemma {:induction false} SkipSpacesExtend(doc: string, i: nat, more: string)
    requires i <= |doc|
    ensures SkipSpaces(doc, i) < |doc| ==> SkipSpaces(doc + more, i) == SkipSpaces(doc, i)
    decreases |doc| - i
  {
    if i < |doc| && IsWs(doc[i]) { SkipSpacesExtend(doc, i + 1, more); }
  }

  lemma HoldsExtend(doc: string, i: nat, t: string, more: string)
    requires Holds(doc, i, t)
    ensures Holds(doc + more, i, t)
  {
    assert Seal(Lines, 0);
    assert (doc + more)[i..i + |t|] == doc[i..i + |t|];
  }

  /** Text behind a layout does not disturb it. */
  lemma {:induction false} SpansExtend(doc: string, i: nat, ts: seq<string>, j: nat, more: string)
    requires Spans(doc, i, ts, j) && AreTokens(ts)
    ensures Spans(doc + more, i, ts, j)
    decreases |ts|
  {
    if ts == [] {
      assert Seal(Layouts, 0);
    } else {
      var p := SpansFirst(doc, i, ts, j);
      assert IsToken(ts[0]);
      TokenStart(ts[0]);
      SkipSpacesExtend(doc, i, more);
      HoldsExtend(doc, p, ts[0], more);
      SpansExtend(doc, p + |ts[0]|, ts[1..], j, more);
      SpansCons(doc + more, i, p, ts, j);
    }
  }

  lemma BlankAppend(a: string, b: string)
    requires Blank(a) && Blank(b)
    ensures Blank(a + b)
  {
  }

  /** White space may be added. */
  lemma LaidSpace(doc: string, ts: seq<string>, w: string)
    requires Laid(doc, ts) && Blank(w)
    ensures Laid(doc + w, ts)
  {
    var j: nat :| LaidTo(doc, ts, j);
    SpansExtend(doc, 0, ts, j, w);
    assert (doc + w)[j..] == doc[j..] + w;
    BlankAppend(doc[j..], w);
    assert LaidTo(doc + w, ts, j);
  }

  lemma {:induction false} SkipBlank(doc: string, i: nat, p: nat)
    requires i <= p < |doc| && Blank(doc[i..p]) && !IsWs(doc[p])
    ensures SkipSpaces(doc, i) == p
    decreases p - i
  {
    if i < p {
      assert IsWs(doc[i..p][0]);
      assert doc[i + 1..p] == doc[i..p][1..];
      SkipBlank(doc, i + 1, p);
    }
  }

  lemma OneToken(doc: string, j: nat, t: string)
    requires j <= |doc| && Blank(doc[j..]) && IsToken(t)
    ensures Spans(doc + t, j, [t], |doc + t|)
  {
    TokenStart(t);
    var whole, p := doc + t, |doc|;
    assert whole[j..p] == doc[j..];
    SkipBlank(whole, j, p);
    assert whole[p..p + |t|] == t;
    assert Spans(whole, p + |t|, [][..], p + |t|);
    assert [t][1..] == [];
    SpansCons(whole, j, p, [t], p + |t|);
  }

  /** A token may be added. */
  lemma LaidToken(doc: string, ts: seq<string>, t: string)
    requires Laid(doc, ts) && IsToken(t)
    ensures Laid(doc + t, ts + [t])
  {
    var j: nat :| LaidTo(doc, ts, j);
    SpansExtend(doc, 0, ts, j, t);
    OneToken(doc, j, t);
    SpansJoin(doc + t, 0, ts, j, [t], |doc + t|);
    assert (doc + t)[|doc + t|..] == "";
    assert LaidTo(doc + t, ts + [t], |doc + t|);
  }

  lemma {:induction false} LaidTokens(doc: string, ts: seq<string>, us: seq<string>)
    requires Laid(doc, ts) && AreTokens(us)
    ensures Laid(doc + Concat(us), ts + us)
    decreases |us|
  {
    if us == [] {
      assert doc + "" == doc && ts + us == ts;
    } else {
      var t, more := us[0], us[1..];
      assert IsToken(t);
      LaidToken(doc, ts, t);
      assert AreTokens(more);
      LaidTokens(doc + t, ts + [t], more);
      Assoc(doc, t, Concat(more));
      assert ts + [t] + more == ts + us;
    }
  }

  // ---------- removing the white space ----------

  /** The text without the white space outside string literals. */
  function Squeeze(s: string, inString: bool): string
    decreases |s|
  {
    if s == "" then ""
    else if inString then
      if s[0] == '\\' && |s| > 1 then [s[0], s[1]] + Squeeze(s[2..], true) else [s[0]] + Squeeze(s[1..], s[0] != '"')
    else if IsWs(s[0]) then Squeeze(s[1..], false)
    else [s[0]] + Squeeze(s[1..], s[0] == '"')
  }

  /** Squeezing keeps the text t before `rest`, and goes from inside or outside a literal to inside or outside one. */
  ghost predicate Keeps(t: string, inside: bool, after: bool, rest: string) {
    forall k :: Seal(Squeezes, k) ==> Squeeze(t + rest, inside) == t + Squeeze(rest, after)
  }

  lemma Assoc(a: string, b: string, c: string)
    ensures a + (b + c) == a + b + c
  {
  }

  lemma KeepsNothing(inside: bool, rest: string)
    ensures Keeps("", inside, inside, rest)
  {
    assert "" + rest == rest;
    assert "" + Squeeze(rest, inside) == Squeeze(rest, inside);
  }

  lemma KeepsTwo(t: string, u: string, a: bool, b: bool, c: bool, rest: string)
    requires Keeps(t, a, b, u + rest) && Keeps(u, b, c, rest)
    ensures Keeps(t + u, a, c, rest)
  {
    assert Seal(Squeezes, 0);
    Assoc(t, u, rest);
    Assoc(t, u, Squeeze(rest, c));
  }

  lemma KeepsChar(c: char, inside: bool, rest: string)
    requires if inside then c != '\\' else !IsWs(c)
    ensures Keeps([c], inside, if inside then c != '"' else c == '"', rest)
  {
    assert ([c] + rest)[1..] == rest;
  }

  lemma KeepsPair(c: char, rest: string)
    ensures Keeps(['\\', c], true, true, rest)
  {
    assert (['\\', c] + rest)[2..] == rest;
  }

  /** Text without quotes, and without backslashes inside or white space outside a literal. */
  lemma {:induction false} KeepsPlain(t: string, inside: bool, rest: string)
    requires forall k :: 0 <= k < |t| ==> t[k] != '"' && if inside then t[k] != '\\' else !IsWs(t[k])
    ensures Keeps(t, inside, inside, rest)
    decreases |t|
  {
    if t == "" {
      KeepsNothing(inside, rest);
    } else {
      KeepsPlain(t[1..], inside, rest);
      KeepsChar(t[0], inside, t[1..] + rest);
      KeepsTwo([t[0]], t[1..], inside, inside, inside, rest);
      assert [t[0]] + t[1..] == t;
    }
  }

  lemma HexPlain(n: nat)
    requires n < 0x10000
    ensures forall k :: 0 <= k < 4 ==> Hex4(n)[k] != '"' && Hex4(n)[k] != '\\'
  {
  }

  lemma KeepsEscape(c: char, rest: string)
    ensures Keeps(Escape(c), true, true, rest)
  {
    var e := Escape(c);
    if |e| == 1 {
      KeepsPlain(e, true, rest);
    } else if |e| == 2 {
      assert e == ['\\', e[1]];
      KeepsPair(e[1], rest);
    } else {
      var h := Hex4(c as int);
      HexPlain(c as int);
      KeepsPlain(h, true, rest);
      KeepsPair('u', h + rest);
      KeepsTwo(['\\', 'u'], h, true, true, true, rest);
      assert e == ['\\', 'u'] + h;
    }
  }

  lemma {:induction false} KeepsEscaped(s: string, rest: string)
    ensures Keeps(Escaped(s), true, true, rest)
    decreases |s|
  {
    if s == "" {
      KeepsNothing(true, rest);
    } else {
      KeepsEscaped(s[1..], rest);
      KeepsEscape(s[0], Escaped(s[1..]) + rest);
      KeepsTwo(Escape(s[0]), Escaped(s[1..]), true, true, true, rest);
    }
  }

  lemma KeepsQuoted(s: string, rest: string)
    ensures Keeps(Quoted(s), false, false, rest)
  {
    var q, e := "\"", Escaped(s);
    KeepsChar('"', true, rest);
    KeepsEscaped(s, q + rest);
    KeepsTwo(e, q, true, true, false, rest);
    KeepsChar('"', false, (e + q) + rest);
    KeepsTwo(q, e + q, false, true, false, rest);
    Assoc(q, e, q);
  }

  lemma SqueezeToken(t: string, rest: string)
    requires IsToken(t)
    ensures Squeeze(t + rest, false) == t + Squeeze(rest, false)
  {
    if Plain(t) {
      KeepsPlain(t, false, rest);
    } else {
      var s :| t == Quoted(s);
      KeepsQuoted(s, rest);
    }
    assert Seal(Squeezes, 0);
  }

  lemma {:induction false} SqueezeSkips(doc: string, i: nat)
    requires i <= |doc|
    ensures Squeeze(doc[i..], false) == Squeeze(doc[SkipSpaces(doc, i)..], false)
    decreases |doc| - i
  {
    if i < |doc| && IsWs(doc[i]) {
      assert doc[i..][1..] == doc[i + 1..];
      SqueezeSkips(doc, i + 1);
    }
  }

  lemma {:induction false} SqueezeBlank(w: string)
    requires Blank(w)
    ensures Squeeze(w, false) == ""
  {
    if w != "" { SqueezeBlank(w[1..]); }
  }

  lemma {:induction false} SqueezeSpans(doc: string, i: nat, ts: seq<string>, j: nat)
    requires Spans(doc, i, ts, j) && AreTokens(ts) && i <= |doc| && j <= |doc|
    ensures Squeeze(doc[i..], false) == Concat(ts) + Squeeze(doc[j..], false)
    decreases |ts|
  {
    if ts == [] {
      SpansNothing(doc, i, j);
    } else {
      var p := SpansFirst(doc, i, ts, j);
      var q := p + |ts[0]|;
      assert IsToken(ts[0]);
      SqueezeSkips(doc, i);
      HoldsText(doc, p, ts[0]);
      SqueezeToken(ts[0], doc[q..]);
      SqueezeSpans(doc, q, ts[1..], j);
      assert ts[0] + (Concat(ts[1..]) + Squeeze(doc[j..], false)) == Concat(ts) + Squeeze(doc[j..], false);
    }
  }

  lemma HoldsText(doc: string, i: nat, t: string)
    requires Holds(doc, i, t)
    ensures doc[i..] == t + doc[i + |t|..]
  {
    assert Seal(Lines, 0);
    assert doc[i..] == doc[i..i + |t|] + doc[i + |t|..];
  }

  /** All layouts of the same tokens squeeze to the same text. */
  lemma SqueezeLaid(doc: string, ts: seq<string>)
    requires Laid(doc, ts)
    ensures Squeeze(doc, false) == Concat(ts)
  {
    var j: nat :| LaidTo(doc, ts, j);
    SqueezeSpans(doc, 0, ts, j);
    SqueezeBlank(doc[j..]);
    assert doc[0..] == doc;
    assert Concat(ts) + "" == Concat(ts);
  }
}
