/** The two writers of lib/json/jsoncpp.cpp. However they break lines and indent, both lay out the same tokens, and the
    reader understands what either writes. */
module JsonWriter {
  import opened Sealing
  import opened Numerals
  import Format
  import opened JsonText
  import opened JsonGrammar
  import opened JsonLayout
  import opened JsonSqueeze

  // ---------- numbers ----------

  /** The digits written so far and those of the rest make the numeral. */
  ghost predicate Written(whole: nat, rest: nat, digits: string) {
    Numeral(whole, 10) == if rest == 0 && digits != "" then digits else Numeral(rest, 10) + digits
  }

  lemma WrittenStep(whole: nat, rest: nat, digits: string, d: char)
    requires Written(whole, rest, digits) && (digits == "" || rest != 0) && d == ('0' as int + rest % 10) as char
    ensures Written(whole, rest / 10, [d] + digits)
  {
    DecimalDigit(rest % 10);
    if rest >= 10 {
      assert Numeral(rest / 10, 10) + [d] + digits == Numeral(rest / 10, 10) + ([d] + digits);
    }
  }

  /** `*--current = c` */
  method PutBefore(buffer: array<char>, from: nat, c: char, end: nat) returns (current: nat)
    requires 1 <= from <= end < buffer.Length
    modifies buffer
    ensures current == from - 1 && buffer[current..end] == [c] + old(buffer[from..end])
    ensures buffer[end] == old(buffer[end])
  {
    current := from - 1;
    buffer[current] := c;
  }

  /** Writes the digits backwards from `end`, behind them a zero. */
  method UintToString(value0: nat, buffer: array<char>, end: nat) returns (current: nat)
    requires value0 <= MAX_UINT64 && 22 <= end <= buffer.Length
    modifies buffer
    ensures 1 <= current < end && buffer[current..end - 1] == Numeral(value0, 10) && buffer[end - 1] as int == 0
  {
    Format.LongestNumeral(value0);
    var value := value0;
    current := end - 1;
    buffer[current] := 0 as char;
    assert buffer[current..end - 1] == "";
    while true
      invariant 1 <= current < end && buffer[end - 1] as int == 0 && Written(value0, value, buffer[current..end - 1])
      invariant current == end - 1 || value != 0
      decreases value, current
    {
      ghost var digits := buffer[current..end - 1];
      var d := ('0' as int + value % 10) as char;
      WrittenStep(value0, value, digits, d);
      current := PutBefore(buffer, current, d, end - 1);
      value := value / 10;
      if value == 0 {
        break;
      }
    }
  }

  /** `valueToString` of a signed number. The least one is excluded: its negation does not exist. */
  method IntToString(value: int) returns (text: string)
    requires -0x8000_0000_0000_0000 < value < 0x8000_0000_0000_0000
    ensures text == IntText(value)
  {
    var buffer := new char[25];
    var isNegative := value < 0;
    var current := UintToString(if isNegative then -value else value, buffer, 25);
    if isNegative {
      current := PutBefore(buffer, current, '-', 24);
    }
    text := buffer[current..24];
  }

  method NatToString(value: nat) returns (text: string)
    requires value <= MAX_UINT64
    ensures text == Numeral(value, 10)
  {
    var buffer := new char[25];
    var current := UintToString(value, buffer, 25);
    text := buffer[current..24];
  }

  /** Numbers of the width the source has, without the least signed one. */
  predicate Ranged(v: Value)
    decreases v
  {
    match v
    case Int(i) => -0x8000_0000_0000_0000 < i < 0x8000_0000_0000_0000
    case UInt(u) => u <= MAX_UINT64
    case Arr(items) => forall k :: 0 <= k < |items| ==> Ranged(items[k])
    case Obj(ms) => forall k :: 0 <= k < |ms| ==> Ranged(ms[k].value)
    case _ => true
  }

  predicate IsScalar(v: Value) {
    !v.Arr? && !v.Obj?
  }

  method ScalarText(v: Value, show: real -> string) returns (text: string)
    requires IsScalar(v) && Ranged(v)
    ensures TokensOf(v, show) == [text]
  {
    match v
    case Null => text := "null";
    case Int(i) => text := IntToString(i);
    case UInt(u) => text := NatToString(u);
    case Real(r) => text := show(r);
    case Str(s) => text := QuotedString(s);
    case Bool(b) => text := if b then "true" else "false";
  }

  // ---------- growing documents ----------

  /** The document lays out these tokens; unless it is loose, without any white space. */
  ghost predicate Writing(doc: string, tokens: seq<string>, loose: bool) {
    forall k :: Seal(Outcomes, k) ==> Laid(doc, tokens) && (!loose ==> doc == Concat(tokens))
  }

  lemma WritingNothing(loose: bool)
    ensures Writing("", [], loose)
  {
    LaidNothing();
  }

  lemma AddTokens(doc: string, ts: seq<string>, loose: bool, us: seq<string>)
    requires Writing(doc, ts, loose) && AreTokens(us)
    ensures Writing(doc + Concat(us), ts + us, loose)
  {
    assert Seal(Outcomes, 0);
    LaidTokens(doc, ts, us);
    ConcatAppend(ts, us);
  }

  lemma AddToken(doc: string, ts: seq<string>, loose: bool, t: string)
    requires Writing(doc, ts, loose) && IsToken(t)
    ensures Writing(doc + t, ts + [t], loose)
  {
    assert AreTokens([t]);
    ConcatOne(t);
    AddTokens(doc, ts, loose, [t]);
  }

  lemma AddMark(doc: string, ts: seq<string>, loose: bool, t: string)
    requires Writing(doc, ts, loose) && t in {"[", "]", "{", "}", ",", ":"}
    ensures Writing(doc + t, ts + [t], loose)
  {
    assert Plain(t);
    AddToken(doc, ts, loose, t);
  }

  lemma AddSpace(doc: string, ts: seq<string>, w: string)
    requires Writing(doc, ts, true) && Blank(w)
    ensures Writing(doc + w, ts, true)
  {
    assert Seal(Outcomes, 0);
    LaidSpace(doc, ts, w);
  }

  // ---------- what remains to be written ----------

  /** What FastWriter writes: the tokens of the value, with or without those of its nulls. */
  function FastTokens(v: Value, show: real -> string, drop: bool): seq<string>
    decreases v, Width(v) + 1
  {
    match v
    case Arr(items) => ["["] + FastItems(v, 0, show, drop)
    case Obj(ms) => ["{"] + FastMembers(v, 0, show, drop)
    case Null => if drop then [] else TokensOf(v, show)
    case _ => TokensOf(v, show)
  }

  /** From element k on. */
  function FastItems(v: Value, k: nat, show: real -> string, drop: bool): seq<string>
    requires v.Arr? && k <= |v.items|
    decreases v, |v.items| - k
  {
    if k == |v.items| then ["]"]
    else (if k > 0 then [","] else []) + (FastTokens(v.items[k], show, drop) + FastItems(v, k + 1, show, drop))
  }

  function FastMembers(v: Value, k: nat, show: real -> string, drop: bool): seq<string>
    requires v.Obj? && k <= |v.members|
    decreases v, |v.members| - k
  {
    if k == |v.members| then ["}"]
    else (if k > 0 then [","] else []) +
         ([Quoted(v.members[k].key), ":"] +
             (FastTokens(v.members[k].value, show, drop) + FastMembers(v, k + 1, show, drop)))
  }

  predicate HasNull(v: Value)
    decreases v
  {
    match v
    case Null => true
    case Arr(items) => exists k :: 0 <= k < |items| && HasNull(items[k])
    case Obj(ms) => exists k :: 0 <= k < |ms| && HasNull(ms[k].value)
    case _ => false
  }

  /** Nulls are all that is dropped, and only if asked for. */
  lemma {:induction false} FastIsTokens(v: Value, show: real -> string, drop: bool)
    requires !drop || !HasNull(v)
    ensures FastTokens(v, show, drop) == TokensOf(v, show)
    decreases v, Width(v) + 1
  {
    match v
    case Arr(items) => if items != [] { FastIsItems(v, 0, show, drop); }
    case Obj(ms) => if ms != [] { FastIsMembers(v, 0, show, drop); }
    case _ =>
  }

  lemma {:induction false} FastIsItems(v: Value, k: nat, show: real -> string, drop: bool)
    requires v.Arr? && k < |v.items| && (!drop || !HasNull(v))
    ensures FastItems(v, k, show, drop) == (if k > 0 then [","] else []) + ItemTokens(v, k, show)
    decreases v, |v.items| - k
  {
    FastIsTokens(v.items[k], show, drop);
    if k + 1 < |v.items| { FastIsItems(v, k + 1, show, drop); }
  }

  lemma {:induction false} FastIsMembers(v: Value, k: nat, show: real -> string, drop: bool)
    requires v.Obj? && k < |v.members| && (!drop || !HasNull(v))
    ensures FastMembers(v, k, show, drop) == (if k > 0 then [","] else []) + MemberTokens(v, k, show)
    decreases v, |v.members| - k
  {
    var name, ts := [Quoted(v.members[k].key), ":"], TokensOf(v.members[k].value, show);
    var left := if k + 1 < |v.members| then [","] + MemberTokens(v, k + 1, show) else ["}"];
    FastIsTokens(v.members[k].value, show, drop);
    assert FastMembers(v, k + 1, show, drop) == left by {
      if k + 1 < |v.members| { FastIsMembers(v, k + 1, show, drop); }
    }
    assert MemberTokens(v, k, show) == name + ts + left;
    Regroup(name, ts, left);
  }

  lemma Regroup(a: seq<string>, b: seq<string>, c: seq<string>)
    ensures a + (b + c) == a + b + c
  {
  }

  /** Behind k elements. */
  function ItemsLeft(v: Value, k: nat, show: real -> string): seq<string>
    requires v.Arr? && k <= |v.items|
  {
    if k == |v.items| then ["]"] else (if k > 0 then [","] else []) + ItemTokens(v, k, show)
  }

  lemma ItemsLeftStep(v: Value, k: nat, show: real -> string)
    requires v.Arr? && k < |v.items|
    ensures ItemsLeft(v, k, show) == (if k > 0 then [","] else []) +
        (TokensOf(v.items[k], show) + ItemsLeft(v, k + 1, show))
  {
  }

  function MembersLeft(v: Value, k: nat, show: real -> string): seq<string>
    requires v.Obj? && k <= |v.members|
  {
    if k == |v.members| then ["}"] else (if k > 0 then [","] else []) + MemberTokens(v, k, show)
  }

  /** All the tokens of a run are those written and those left. */
  ghost predicate Split(all: seq<string>, done: seq<string>, left: seq<string>) {
    forall k :: Seal(Readings, k) ==> all == done + left
  }

  lemma SplitStep(all: seq<string>, done: seq<string>, next: seq<string>, left: seq<string>)
    requires Split(all, done, next + left)
    ensures Split(all, done + next, left)
  {
    assert Seal(Readings, 0);
    assert done + (next + left) == done + next + left;
  }

  lemma SplitEnd(all: seq<string>, done: seq<string>, last: seq<string>)
    requires Split(all, done, last)
    ensures all == done + last
  {
    assert Seal(Readings, 0);
  }

  lemma StartItems(before: seq<string>, v: Value, show: real -> string)
    requires v.Arr?
    ensures Split(before + TokensOf(v, show), before + ["["], ItemsLeft(v, 0, show))
  {
    assert ItemsLeft(v, 0, show) == if v.items == [] then ["]"] else ItemTokens(v, 0, show);
    assert before + (["["] + ItemsLeft(v, 0, show)) == before + ["["] + ItemsLeft(v, 0, show);
  }

  lemma StartMembers(before: seq<string>, v: Value, show: real -> string)
    requires v.Obj?
    ensures Split(before + TokensOf(v, show), before + ["{"], MembersLeft(v, 0, show))
  {
    assert MembersLeft(v, 0, show) == if v.members == [] then ["}"] else MemberTokens(v, 0, show);
    assert before + (["{"] + MembersLeft(v, 0, show)) == before + ["{"] + MembersLeft(v, 0, show);
  }

  lemma ItemSplit(all: seq<string>, done: seq<string>, v: Value, k: nat, show: real -> string)
    requires v.Arr? && k < |v.items| && Split(all, done, ItemsLeft(v, k, show))
    ensures Split(all, done + (if k > 0 then [","] else []) + TokensOf(v.items[k], show), ItemsLeft(v, k + 1, show))
  {
    var comma, ts, left := if k > 0 then [","] else [], TokensOf(v.items[k], show), ItemsLeft(v, k + 1, show);
    ItemsLeftStep(v, k, show);
    SplitStep(all, done, comma, ts + left);
    SplitStep(all, done + comma, ts, left);
  }

  lemma FastStartItems(before: seq<string>, v: Value, show: real -> string, drop: bool)
    requires v.Arr?
    ensures Split(before + FastTokens(v, show, drop), before + ["["], FastItems(v, 0, show, drop))
  {
    assert before + (["["] + FastItems(v, 0, show, drop)) == before + ["["] + FastItems(v, 0, show, drop);
  }

  lemma FastStartMembers(before: seq<string>, v: Value, show: real -> string, drop: bool)
    requires v.Obj?
    ensures Split(before + FastTokens(v, show, drop), before + ["{"], FastMembers(v, 0, show, drop))
  {
    assert before + (["{"] + FastMembers(v, 0, show, drop)) == before + ["{"] + FastMembers(v, 0, show, drop);
  }

  lemma FastItemSplit(all: seq<string>, done: seq<string>, v: Value, k: nat, show: real -> string, drop: bool)
    requires v.Arr? && k < |v.items| && Split(all, done, FastItems(v, k, show, drop))
    ensures Split(all, done + (if k > 0 then [","] else []) + FastTokens(v.items[k], show, drop),
        FastItems(v, k + 1, show, drop))
  {
    var comma, ts := if k > 0 then [","] else [], FastTokens(v.items[k], show, drop);
    SplitStep(all, done, comma, ts + FastItems(v, k + 1, show, drop));
    SplitStep(all, done + comma, ts, FastItems(v, k + 1, show, drop));
  }

  lemma FastMemberSplit(all: seq<string>, done: seq<string>, v: Value, k: nat, show: real -> string, drop: bool)
    requires v.Obj? && k < |v.members| && Split(all, done, FastMembers(v, k, show, drop))
    ensures Split(all, done + (if k > 0 then [","] else []) + [Quoted(v.members[k].key), ":"] +
        FastTokens(v.members[k].value, show, drop),
                  FastMembers(v, k + 1, show, drop))
  {
    var comma, left := if k > 0 then [","] else [], FastMembers(v, k + 1, show, drop);
    var name, ts := [Quoted(v.members[k].key), ":"], FastTokens(v.members[k].value, show, drop);
    SplitStep(all, done, comma, name + (ts + left));
    SplitStep(all, done + comma, name, ts + left);
    SplitStep(all, done + comma + name, ts, left);
  }

  /** With the comma written behind each element but the last. */
  lemma ItemNext(all: seq<string>, done: seq<string>, v: Value, k: nat, show: real -> string)
    requires v.Arr? && k < |v.items| && Split(all, done, ItemTokens(v, k, show))
    ensures if k + 1 == |v.items| then Split(all, done + TokensOf(v.items[k], show), ["]"])
            else Split(all, done + TokensOf(v.items[k], show) + [","], ItemTokens(v, k + 1, show))
  {
    var ts := TokensOf(v.items[k], show);
    if k + 1 == |v.items| {
      SplitStep(all, done, ts, ["]"]);
    } else {
      SplitStep(all, done, ts, [","] + ItemTokens(v, k + 1, show));
      SplitStep(all, done + ts, [","], ItemTokens(v, k + 1, show));
    }
  }

  lemma MemberNext(all: seq<string>, done: seq<string>, v: Value, k: nat, show: real -> string)
    requires v.Obj? && k < |v.members| && Split(all, done, MemberTokens(v, k, show))
    ensures var now := done + [Quoted(v.members[k].key), ":"] + TokensOf(v.members[k].value, show);
            if k + 1 == |v.members| then Split(all, now, ["}"])
                else Split(all, now + [","], MemberTokens(v, k + 1, show))
  {
    var name, ts := [Quoted(v.members[k].key), ":"], TokensOf(v.members[k].value, show);
    var left := if k + 1 == |v.members| then ["}"] else [","] + MemberTokens(v, k + 1, show);
    assert MemberTokens(v, k, show) == name + (ts + left);
    SplitStep(all, done, name, ts + left);
    SplitStep(all, done + name, ts, left);
    if k + 1 < |v.members| { SplitStep(all, done + name + ts, [","], MemberTokens(v, k + 1, show)); }
  }

  // ---------- FastWriter ----------

  class FastWriter {
    const show: real -> string
    var yamlCompatibilityEnabled: bool
    var dropNullPlaceholders: bool
    var omitEndingLineFeed: bool
    var document: string

    ghost predicate Valid() {
      Shows(show)
    }

    constructor (show: real -> string)
      requires Shows(show)
      ensures Valid() && this.show == show && !yamlCompatibilityEnabled && !dropNullPlaceholders && !omitEndingLineFeed
    {
      this.show := show;
      yamlCompatibilityEnabled, dropNullPlaceholders, omitEndingLineFeed, document := false, false, false, "";
    }

    /** Without the YAML option the text is exactly the tokens of the value, less those of nulls if they are dropped;
        with it, blanks follow the colons. */
    method Write(root: Value) returns (text: string)
      requires Valid() && Ranged(root)
      modifies this`document
      ensures Laid(text, FastTokens(root, show, dropNullPlaceholders))
      ensures !yamlCompatibilityEnabled ==>
                text == Concat(FastTokens(root, show, dropNullPlaceholders)) + if omitEndingLineFeed then "" else "\n"
      ensures !dropNullPlaceholders || !HasNull(root) ==>
          FastTokens(root, show, dropNullPlaceholders) == TokensOf(root, show)
    {
      document := "";
      ghost var ts := FastTokens(root, show, dropNullPlaceholders);
      WritingNothing(yamlCompatibilityEnabled);
      WriteValue(root, []);
      assert [] + ts == ts;
      assert Laid(document, ts) && (!yamlCompatibilityEnabled ==> document == Concat(ts)) by {
        assert Seal(Outcomes, 0);
      }
      if !omitEndingLineFeed {
        LaidSpace(document, ts, "\n");
        document := document + "\n";
      }
      text := document;
      if !dropNullPlaceholders || !HasNull(root) { FastIsTokens(root, show, dropNullPlaceholders); }
    }

    method WriteValue(value: Value, ghost before: seq<string>)
      requires Valid() && Ranged(value) && Writing(document, before, yamlCompatibilityEnabled)
      modifies this`document
      ensures Writing(document, before + FastTokens(value, show, dropNullPlaceholders), yamlCompatibilityEnabled)
      decreases value, 1
    {
      if value.Arr? {
        WriteArray(value, before);
      } else if value.Obj? {
        WriteObject(value, before);
      } else if value.Null? && dropNullPlaceholders {
        assert before + [] == before;
      } else {
        var text := ScalarText(value, show);
        ScalarToken(value, show);
        AddToken(document, before, yamlCompatibilityEnabled, text);
        document := document + text;
      }
    }

    method WriteArray(value: Value, ghost before: seq<string>)
      requires Valid() && Ranged(value) && value.Arr? && Writing(document, before, yamlCompatibilityEnabled)
      modifies this`document
      ensures Writing(document, before + FastTokens(value, show, dropNullPlaceholders), yamlCompatibilityEnabled)
      decreases value, 0
    {
      ghost var all := before + FastTokens(value, show, dropNullPlaceholders);
      ghost var done := before + ["["];
      AddMark(document, before, yamlCompatibilityEnabled, "[");
      FastStartItems(before, value, show, dropNullPlaceholders);
      document := document + "[";
      for index := 0 to |value.items|
        invariant Writing(document, done, yamlCompatibilityEnabled)
        invariant Split(all, done, FastItems(value, index, show, dropNullPlaceholders))
      {
        FastItemSplit(all, done, value, index, show, dropNullPlaceholders);
        done := WriteComma(index, done);
        WriteValue(value.items[index], done);
        done := done + FastTokens(value.items[index], show, dropNullPlaceholders);
      }
      SplitEnd(all, done, ["]"]);
      AddMark(document, done, yamlCompatibilityEnabled, "]");
      document := document + "]";
    }

    method WriteObject(value: Value, ghost before: seq<string>)
      requires Valid() && Ranged(value) && value.Obj? && Writing(document, before, yamlCompatibilityEnabled)
      modifies this`document
      ensures Writing(document, before + FastTokens(value, show, dropNullPlaceholders), yamlCompatibilityEnabled)
      decreases value, 0
    {
      ghost var all := before + FastTokens(value, show, dropNullPlaceholders);
      ghost var done := before + ["{"];
      AddMark(document, before, yamlCompatibilityEnabled, "{");
      FastStartMembers(before, value, show, dropNullPlaceholders);
      document := document + "{";
      for index := 0 to |value.members|
        invariant Writing(document, done, yamlCompatibilityEnabled)
        invariant Split(all, done, FastMembers(value, index, show, dropNullPlaceholders))
      {
        var member := value.members[index];
        FastMemberSplit(all, done, value, index, show, dropNullPlaceholders);
        done := WriteComma(index, done);
        WriteName(member.key, done);
        done := done + [Quoted(member.key), ":"];
        WriteValue(member.value, done);
        done := done + FastTokens(member.value, show, dropNullPlaceholders);
      }
      SplitEnd(all, done, ["}"]);
      AddMark(document, done, yamlCompatibilityEnabled, "}");
      document := document + "}";
    }

    /** A comma before every element but the first. */
    method WriteComma(index: nat, ghost before: seq<string>) returns (ghost after: seq<string>)
      requires Writing(document, before, yamlCompatibilityEnabled)
      modifies this`document
      ensures after == before + (if index > 0 then [","] else []) && Writing(document, after, yamlCompatibilityEnabled)
    {
      after := before + if index > 0 then [","] else [];
      if index > 0 {
        AddMark(document, before, yamlCompatibilityEnabled, ",");
        document := document + ",";
      } else {
        assert after == before;
      }
    }

    method WriteName(name: string, ghost before: seq<string>)
      requires Valid() && Writing(document, before, yamlCompatibilityEnabled)
      modifies this`document
      ensures Writing(document, before + [Quoted(name), ":"], yamlCompatibilityEnabled)
    {
      var text := QuotedString(name);
      assert IsToken(text);
      AddToken(document, before, yamlCompatibilityEnabled, text);
      document := document + text;
      AddMark(document, before + [text], yamlCompatibilityEnabled, ":");
      assert before + [text] + [":"] == before + [text, ":"];
      if yamlCompatibilityEnabled { AddSpace(document + ":", before + [text, ":"], " "); }
      assert document + ":" + " " == document + ": ";
      document := document + if yamlCompatibilityEnabled then ": " else ":";
    }
  }

  // ---------- StyledWriter ----------

  const RIGHT_MARGIN := 74
  const INDENT := "   "

  /** The texts of the elements, as the dry run collects them. */
  ghost predicate ChildTexts(texts: seq<string>, v: Value, n: nat, show: real -> string) {
    v.Arr? && |texts| == n <= |v.items| && forall k :: 0 <= k < n ==> texts[k] == Concat(TokensOf(v.items[k], show))
  }

  /** Written in one piece: scalars and empty arrays and objects. */
  predicate IsShort(v: Value) {
    match v case Arr(items) => items == [] case Obj(ms) => ms == [] case _ => true
  }

  class StyledWriter {
    const show: real -> string
    var document: string
    var indentString: string
    var childValues: seq<string>
    var addChildValues: bool

    ghost predicate Valid()
      reads this
    {
      Shows(show) && Blank(indentString)
    }

    constructor (show: real -> string)
      requires Shows(show)
      ensures Valid() && this.show == show
    {
      this.show := show;
      document, indentString, childValues, addChildValues := "", "", [], false;
    }

    method Write(root: Value) returns (text: string)
      requires Valid() && Ranged(root)
      modifies this
      ensures Valid() && Laid(text, TokensOf(root, show))
    {
      document := "";
      addChildValues := false;
      indentString := "";
      WritingNothing(true);
      WriteValue(root, []);
      assert [] + TokensOf(root, show) == TokensOf(root, show);
      AddSpace(document, TokensOf(root, show), "\n");
      document := document + "\n";
      text := document;
      assert Seal(Outcomes, 0);
    }

    /** In the dry run a text is collected instead of written. */
    method PushValue(text: string, ghost ts: seq<string>, ghost before: seq<string>)
      requires text == Concat(ts) && AreTokens(ts) && (!addChildValues ==> Writing(document, before, true))
      modifies this`document, this`childValues
      ensures addChildValues ==> document == old(document) && childValues == old(childValues) + [text]
      ensures !addChildValues ==> childValues == old(childValues) && Writing(document, before + ts, true)
    {
      if addChildValues {
        childValues := childValues + [text];
      } else {
        AddTokens(document, before, true, ts);
        document := document + text;
      }
    }

    method WriteValue(value: Value, ghost before: seq<string>)
      requires Valid() && Ranged(value) && (addChildValues ==> IsShort(value))
      requires (!addChildValues ==> Writing(document, before, true))
      modifies this
      ensures Valid() && indentString == old(indentString) && addChildValues == old(addChildValues)
      ensures addChildValues ==>
          document == old(document) && childValues == old(childValues) + [Concat(TokensOf(value, show))]
      ensures !addChildValues ==> Writing(document, before + TokensOf(value, show), true)
      decreases value, 3
    {
      ValueTokens(value, show);
      if value.Arr? {
        if value.items == [] {
          assert Concat(["[", "]"]) == "[]";
          PushValue("[]", TokensOf(value, show), before);
        } else {
          WriteArrayValue(value, before);
        }
      } else if value.Obj? {
        if value.members == [] {
          assert Concat(["{", "}"]) == "{}";
          PushValue("{}", TokensOf(value, show), before);
        } else {
          WriteObjectValue(value, before);
        }
      } else {
        var text := ScalarText(value, show);
        ConcatOne(text);
        PushValue(text, TokensOf(value, show), before);
      }
    }

    method WriteIndent(ghost before: seq<string>)
      requires Valid() && Writing(document, before, true)
      modifies this`document
      ensures Writing(document, before, true)
    {
      if document != "" {
        var last := document[|document| - 1];
        if last == ' ' {
          return;
        }
        if last != '\n' {
          AddSpace(document, before, "\n");
          document := document + "\n";
        }
      }
      AddSpace(document, before, indentString);
      document := document + indentString;
    }

    method WriteWithIndent(text: string, ghost ts: seq<string>, ghost before: seq<string>)
      requires Valid() && text == Concat(ts) && AreTokens(ts) && Writing(document, before, true)
      modifies this`document
      ensures Writing(document, before + ts, true)
    {
      WriteIndent(before);
      AddTokens(document, before, true, ts);
      document := document + text;
    }

    method WriteMarkWithIndent(t: string, ghost before: seq<string>)
      requires Valid() && t in {"[", "]", "{", "}"} && Writing(document, before, true)
      modifies this`document
      ensures Writing(document, before + [t], true)
    {
      MarksPlain();
      ConcatOne(t);
      WriteWithIndent(t, [t], before);
    }

    method Indent()
      requires Valid()
      modifies this`indentString
      ensures Valid() && indentString == old(indentString) + INDENT
    {
      indentString := indentString + INDENT;
    }

    method Unindent()
      requires Valid() && |INDENT| <= |indentString|
      modifies this`indentString
      ensures Valid() && indentString == old(indentString)[..|old(indentString)| - |INDENT|]
    {
      indentString := indentString[..|indentString| - |INDENT|];
    }

    method WriteObjectValue(value: Value, ghost before: seq<string>)
      requires Valid() && Ranged(value) && value.Obj? && value.members != [] && !addChildValues
      requires Writing(document, before, true)
      modifies this
      ensures Valid() && indentString == old(indentString) && !addChildValues
      ensures Writing(document, before + TokensOf(value, show), true)
      decreases value, 2
    {
      ghost var all := before + TokensOf(value, show);
      ghost var done := before + ["{"];
      StartMembers(before, value, show);
      WriteMarkWithIndent("{", before);
      Indent();
      var index := 0;
      while true
        invariant index < |value.members| && Valid() && indentString == old(indentString) + INDENT && !addChildValues
        invariant Writing(document, done, true) && Split(all, done, MemberTokens(value, index, show))
        decreases |value.members| - index
      {
        var member := value.members[index];
        MemberNext(all, done, value, index, show);
        WriteName(member.key, done);
        done := done + [Quoted(member.key), ":"];
        WriteValue(member.value, done);
        done := done + TokensOf(member.value, show);
        index := index + 1;
        if index == |value.members| {
          break;
        }
        AddMark(document, done, true, ",");
        document := document + ",";
        done := done + [","];
      }
      Unindent();
      SplitEnd(all, done, ["}"]);
      WriteMarkWithIndent("}", done);
    }

    method WriteName(name: string, ghost before: seq<string>)
      requires Valid() && Writing(document, before, true)
      modifies this`document
      ensures Writing(document, before + [Quoted(name), ":"], true)
    {
      var text := QuotedString(name);
      assert IsToken(text);
      ConcatOne(text);
      WriteWithIndent(text, [text], before);
      AddSpace(document, before + [text], " ");
      AddMark(document + " ", before + [text], true, ":");
      AddSpace(document + " " + ":", before + [text] + [":"], " ");
      assert document + " " + ":" + " " == document + " : ";
      assert before + [text] + [":"] == before + [text, ":"];
      document := document + " : ";
    }

    method WriteArrayValue(value: Value, ghost before: seq<string>)
      requires Valid() && Ranged(value) && value.Arr? && value.items != [] && !addChildValues
      requires Writing(document, before, true)
      modifies this
      ensures Valid() && indentString == old(indentString) && !addChildValues
      ensures Writing(document, before + TokensOf(value, show), true)
      decreases value, 2
    {
      var isArrayMultiLine := IsMultilineArray(value);
      if isArrayMultiLine {
        WriteLines(value, before);
      } else {
        WriteOneLine(value, before);
      }
    }

    /** Whether the array takes more than one line. The elements that are short are written to `childValues` to see. */
    method IsMultilineArray(value: Value) returns (isMultiLine: bool)
      requires Valid() && Ranged(value) && value.Arr? && !addChildValues
      modifies this
      ensures Valid() && document == old(document) && indentString == old(indentString) && !addChildValues
      ensures (isMultiLine && childValues == []) || ChildTexts(childValues, value, |value.items|, show)
      decreases value, 1
    {
      var size := |value.items|;
      isMultiLine := size * 3 >= RIGHT_MARGIN;
      childValues := [];
      var index := 0;
      while index < size && !isMultiLine
        invariant index <= size && (!isMultiLine ==> forall k :: 0 <= k < index ==> IsShort(value.items[k]))
      {
        isMultiLine := isMultiLine || !IsShort(value.items[index]);
        index := index + 1;
      }
      if !isMultiLine {
        addChildValues := true;
        var lineLength: int := 4 + (size - 1) * 2;
        index := 0;
        while index < size
          invariant index <= size && Valid() && addChildValues && document == old(document)
          invariant indentString == old(indentString)
          invariant ChildTexts(childValues, value, index, show)
        {
          WriteValue(value.items[index], []);
          lineLength := lineLength + |childValues[index]|;
          index := index + 1;
        }
        addChildValues := false;
        isMultiLine := isMultiLine || lineLength >= RIGHT_MARGIN;
      }
    }

    method WriteOneLine(value: Value, ghost before: seq<string>)
      requires Valid() && value.Arr? && value.items != [] && Writing(document, before, true)
      requires ChildTexts(childValues, value, |value.items|, show)
      modifies this`document
      ensures Writing(document, before + TokensOf(value, show), true)
    {
      ghost var all := before + TokensOf(value, show);
      ghost var done := before + ["["];
      StartItems(before, value, show);
      AddMark(document, before, true, "[");
      AddSpace(document + "[", done, " ");
      assert document + "[" + " " == document + "[ ";
      document := document + "[ ";
      for index := 0 to |value.items|
        invariant Writing(document, done, true) && Split(all, done, ItemsLeft(value, index, show))
      {
        ItemSplit(all, done, value, index, show);
        done := WriteCommaAndBlank(index, done);
        ValueTokens(value.items[index], show);
        AddTokens(document, done, true, TokensOf(value.items[index], show));
        document := document + childValues[index];
        done := done + TokensOf(value.items[index], show);
      }
      SplitEnd(all, done, ["]"]);
      AddSpace(document, done, " ");
      AddMark(document + " ", done, true, "]");
      assert document + " " + "]" == document + " ]";
      document := document + " ]";
    }

    method WriteCommaAndBlank(index: nat, ghost before: seq<string>) returns (ghost after: seq<string>)
      requires Writing(document, before, true)
      modifies this`document
      ensures after == before + (if index > 0 then [","] else []) && Writing(document, after, true)
    {
      after := before + if index > 0 then [","] else [];
      if index > 0 {
        AddMark(document, before, true, ",");
        AddSpace(document + ",", after, " ");
        assert document + "," + " " == document + ", ";
        document := document + ", ";
      } else {
        assert after == before;
      }
    }

    /** One element to a line: the texts collected if the dry run got that far, otherwise written now. */
    method WriteLines(value: Value, ghost before: seq<string>)
      requires Valid() && Ranged(value) && value.Arr? && value.items != [] && !addChildValues
      requires Writing(document, before, true)
      requires childValues == [] || ChildTexts(childValues, value, |value.items|, show)
      modifies this
      ensures Valid() && indentString == old(indentString) && !addChildValues
      ensures Writing(document, before + TokensOf(value, show), true)
      decreases value, 1
    {
      ghost var all := before + TokensOf(value, show);
      ghost var done := before + ["["];
      StartItems(before, value, show);
      WriteMarkWithIndent("[", before);
      Indent();
      var hasChildValue := childValues != [];
      var index := 0;
      while true
        invariant index < |value.items| && Valid() && indentString == old(indentString) + INDENT && !addChildValues
        invariant hasChildValue ==> ChildTexts(childValues, value, |value.items|, show)
        invariant Writing(document, done, true) && Split(all, done, ItemTokens(value, index, show))
        decreases |value.items| - index
      {
        ItemNext(all, done, value, index, show);
        if hasChildValue {
          ValueTokens(value.items[index], show);
          WriteWithIndent(childValues[index], TokensOf(value.items[index], show), done);
        } else {
          WriteIndent(done);
          WriteValue(value.items[index], done);
        }
        done := done + TokensOf(value.items[index], show);
        index := index + 1;
        if index == |value.items| {
          break;
        }
        AddMark(document, done, true, ",");
        document := document + ",";
        done := done + [","];
      }
      Unindent();
      SplitEnd(all, done, ["]"]);
      WriteMarkWithIndent("]", done);
    }
  }
}
