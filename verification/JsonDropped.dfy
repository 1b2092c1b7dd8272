/** What the reader of lib/json/jsoncpp.cpp makes of a value that was written without its nulls: exactly which values
    come back. */
module JsonDropped {
  import opened Sealing
  import opened JsonText
  import opened JsonGrammar
  import opened JsonLayout
  import opened JsonSqueeze
  import opened JsonWriter

  // ---------- what comes back ----------

  /** What is read for the value, if it can be read. */
  function Reread(cfg: Config, v: Value): Option<Value>
    requires Printable(cfg, v)
    decreases v, Width(v) + 1
  {
    match v
    case Null => None
    case Arr(items) =>
      if items == [Null] then Some(Arr([]))
      else
        var rest := RereadItems(cfg, v, 0);
        if rest.Some? then Some(Arr(rest.value)) else None
    case Obj(ms) =>
      var rest := RereadMembers(cfg, v, 0);
      if rest.Some? then Some(Obj(rest.value)) else None
    case _ => Some(Normal(cfg, v))
  }

  /** A null in front of a comma comes back if the reader allows it. */
  function RereadEntry(cfg: Config, v: Value, last: bool): Option<Value>
    requires Printable(cfg, v)
    decreases v, Width(v) + 2
  {
    if !v.Null? then Reread(cfg, v) else if cfg.allowDropped && !last then Some(Null) else None
  }

  /** The elements from k on. */
  function RereadItems(cfg: Config, v: Value, k: nat): (r: Option<seq<Value>>)
    requires Printable(cfg, v) && v.Arr? && k <= |v.items|
    ensures r.Some? ==> |r.value| == |v.items| - k
    decreases v, |v.items| - k
  {
    if k == |v.items| then Some([])
    else
      var first, rest := RereadEntry(cfg, v.items[k], k + 1 == |v.items|), RereadItems(cfg, v, k + 1);
      if first.Some? && rest.Some? then Some([first.value] + rest.value) else None
  }

  function RereadMembers(cfg: Config, v: Value, k: nat): (r: Option<seq<Member>>)
    requires Printable(cfg, v) && v.Obj? && k <= |v.members|
    ensures r.Some? ==> |r.value| == |v.members| - k
    decreases v, |v.members| - k
  {
    if k == |v.members| then Some([])
    else
      var first, rest := RereadEntry(cfg, v.members[k].value, k + 1 == |v.members|), RereadMembers(cfg, v, k + 1);
      if first.Some? && rest.Some? then Some([Member(v.members[k].key, first.value)] + rest.value) else None
  }

  /** The value itself is no null, and no null ends an array or is the last member of an object; with a reader that does
      not allow dropped nulls there is none at all. */
  predicate Survives(v: Value, allowed: bool)
    decreases v
  {
    match v
    case Null => false
    case Arr(items) =>
      forall k :: 0 <= k < |items| ==>
        if items[k].Null? then allowed && k + 1 < |items| else Survives(items[k], allowed)
    case Obj(ms) =>
      forall k :: 0 <= k < |ms| ==>
        if ms[k].value.Null? then allowed && k + 1 < |ms| else Survives(ms[k].value, allowed)
    case _ => true
  }

  // ---------- exactly when it is the value ----------

  /** Element k comes back as it was. */
  ghost predicate KeptItem(cfg: Config, v: Value, k: nat)
    requires Printable(cfg, v) && v.Arr? && k < |v.items|
  {
    RereadEntry(cfg, v.items[k], k + 1 == |v.items|) == Some(Normal(cfg, v.items[k]))
  }

  ghost predicate KeptMember(cfg: Config, v: Value, k: nat)
    requires Printable(cfg, v) && v.Obj? && k < |v.members|
  {
    RereadEntry(cfg, v.members[k].value, k + 1 == |v.members|) == Some(Normal(cfg, v.members[k].value))
  }

  lemma {:induction false} ItemsKept(cfg: Config, v: Value, k: nat)
    requires Printable(cfg, v) && v.Arr? && k <= |v.items|
    ensures RereadItems(cfg, v, k) == Some(Normal(cfg, v).items[k..]) <==>
            forall i :: k <= i < |v.items| ==> KeptItem(cfg, v, i)
    decreases |v.items| - k
  {
    var items := Normal(cfg, v).items;
    if k < |v.items| {
      ItemsKept(cfg, v, k + 1);
      assert items[k..] == [items[k]] + items[k + 1..];
      assert items[k] == Normal(cfg, v.items[k]);
      var all := forall i :: k <= i < |v.items| ==> KeptItem(cfg, v, i);
      if RereadItems(cfg, v, k) == Some(items[k..]) {
        var r := RereadItems(cfg, v, k).value;
        assert r[0] == items[k] && r[1..] == items[k + 1..];
        assert KeptItem(cfg, v, k);
        assert all;
      }
      if all {
        assert KeptItem(cfg, v, k) && RereadItems(cfg, v, k + 1) == Some(items[k + 1..]);
      }
    } else {
      assert items[k..] == [];
    }
  }

  lemma {:induction false} MembersKept(cfg: Config, v: Value, k: nat)
    requires Printable(cfg, v) && v.Obj? && k <= |v.members|
    ensures RereadMembers(cfg, v, k) == Some(Normal(cfg, v).members[k..]) <==>
            forall i :: k <= i < |v.members| ==> KeptMember(cfg, v, i)
    decreases |v.members| - k
  {
    var ms := Normal(cfg, v).members;
    if k < |v.members| {
      MembersKept(cfg, v, k + 1);
      assert ms[k..] == [ms[k]] + ms[k + 1..];
      assert ms[k] == Member(v.members[k].key, Normal(cfg, v.members[k].value));
      var all := forall i :: k <= i < |v.members| ==> KeptMember(cfg, v, i);
      if RereadMembers(cfg, v, k) == Some(ms[k..]) {
        var r := RereadMembers(cfg, v, k).value;
        assert r[0] == ms[k] && r[1..] == ms[k + 1..];
        assert KeptMember(cfg, v, k);
        assert all;
      }
      if all {
        assert KeptMember(cfg, v, k) && RereadMembers(cfg, v, k + 1) == Some(ms[k + 1..]);
      }
    } else {
      assert ms[k..] == [];
    }
  }

  lemma {:induction false} EntryKept(cfg: Config, v: Value, last: bool)
    requires Printable(cfg, v)
    ensures RereadEntry(cfg, v, last) == Some(Normal(cfg, v)) <==>
            if v.Null? then cfg.allowDropped && !last else Survives(v, cfg.allowDropped)
    decreases v, 1
  {
    if !v.Null? { KeptExactly(cfg, v); }
  }

  /** A value comes back as it was exactly when it survives. */
  lemma {:induction false} KeptExactly(cfg: Config, v: Value)
    requires Printable(cfg, v)
    ensures Reread(cfg, v) == Some(Normal(cfg, v)) <==> Survives(v, cfg.allowDropped)
    decreases v, 0
  {
    if v.Arr? {
      ItemsKept(cfg, v, 0);
      assert Normal(cfg, v).items[0..] == Normal(cfg, v).items;
      forall k | 0 <= k < |v.items|
        ensures KeptItem(cfg, v, k) <==>
                if v.items[k].Null? then cfg.allowDropped && k + 1 < |v.items|
                else Survives(v.items[k], cfg.allowDropped)
      {
        EntryKept(cfg, v.items[k], k + 1 == |v.items|);
      }
      if v.items == [Null] { assert v.items[0].Null? && |Normal(cfg, v).items| == 1; }
    } else if v.Obj? {
      MembersKept(cfg, v, 0);
      assert Normal(cfg, v).members[0..] == Normal(cfg, v).members;
      forall k | 0 <= k < |v.members|
        ensures KeptMember(cfg, v, k) <==>
                if v.members[k].value.Null? then cfg.allowDropped && k + 1 < |v.members|
                else Survives(v.members[k].value, cfg.allowDropped)
      {
        EntryKept(cfg, v.members[k].value, k + 1 == |v.members|);
      }
    }
  }

  // ---------- what the grammar makes of the tokens ----------

  /** The reader, set at i, finds the value and stops at j, or fails. */
  ghost predicate Gives(cfg: Config, doc: string, i: nat, o: Option<Value>, j: nat) {
    forall k :: Seal(Parses, k) ==> i <= |doc| && ParseValue(cfg, doc, i) == if o.Some? then Done(o.value, j) else Fail
  }

  /** The same inside an array, behind these elements. */
  ghost predicate GivesItems(cfg: Config, doc: string, i: nat, items: seq<Value>, o: Option<seq<Value>>, j: nat) {
    forall k :: Seal(Parses, k) ==>
      i <= |doc| && ParseItems(cfg, doc, i, items) == if o.Some? then Done(Arr(items + o.value), j) else Fail
  }

  function ObjectEnds(ms: seq<Member>, o: Option<seq<Member>>, j: nat): Parse {
    if o.Some? then Done(Obj(ms + o.value), j) else Fail
  }

  /** The same inside an object, behind these members. */
  ghost predicate GivesMembers(cfg: Config, doc: string, i: nat, ms: seq<Member>, nameEmpty: bool,
                               o: Option<seq<Member>>, j: nat)
  {
    forall k :: Seal(Parses, k) ==>
      i <= |doc| && ParseMembers(cfg, doc, i, ms, nameEmpty) == ObjectEnds(ms, o, j)
  }

  lemma ValueGives(cfg: Config, doc: string, i: nat, v: Value, j: nat)
    requires ValueAt(cfg, doc, i, v, j)
    ensures Gives(cfg, doc, i, Some(v), j)
  {
  }

  /** No value begins with such a mark. */
  lemma MarkFails(cfg: Config, doc: string, i: nat, kind: Kind, q: nat, p: nat)
    requires TokenAt(doc, i, kind, q)
    requires kind == ArrayEnd || kind == ObjectEnd || (kind == ArraySeparator && !cfg.allowDropped)
    ensures Gives(cfg, doc, i, None, p)
  {
    assert Seal(Tokens, 0);
  }

  /** A comma stands for a null in front of it, and is read again. */
  lemma CommaGives(cfg: Config, doc: string, i: nat, q: nat)
    requires Spans(doc, i, [","], q) && cfg.allowDropped
    ensures q > 0 && Gives(cfg, doc, i, Some(Null), q - 1) && TokenAt(doc, q - 1, ArraySeparator, q)
  {
    var p := SpansOne(doc, i, ",", q);
    assert [","] + [] == [","];
    var r := SpansFromSpace(doc, i, ",", [], q);
    ReadsMark(doc, i, ",", q);
    ReadsMark(doc, r, ",", q);
    CommaNull(cfg, doc, i, q);
  }

  lemma CommaNull(cfg: Config, doc: string, i: nat, q: nat)
    requires TokenAt(doc, i, ArraySeparator, q) && cfg.allowDropped && q > 0
    ensures Gives(cfg, doc, i, Some(Null), q - 1)
  {
    assert Seal(Tokens, 0);
  }

  lemma ItemsFail(cfg: Config, doc: string, i: nat, items: seq<Value>, p: nat, j: nat)
    requires Gives(cfg, doc, i, None, p)
    ensures GivesItems(cfg, doc, i, items, None, j)
  {
    assert Seal(Parses, 0);
  }

  lemma ItemsEnd(cfg: Config, doc: string, i: nat, items: seq<Value>, v: Value, p: nat, j: nat)
    requires Gives(cfg, doc, i, Some(v), p) && TokenAt(doc, p, ArrayEnd, j)
    ensures GivesItems(cfg, doc, i, items, Some([v]), j)
  {
    assert Seal(Tokens, 0) && Seal(Parses, 0);
  }

  lemma ItemsGoOn(cfg: Config, doc: string, i: nat, items: seq<Value>, v: Value, p: nat, q: nat,
                  rest: Option<seq<Value>>, j: nat)
    requires Gives(cfg, doc, i, Some(v), p) && TokenAt(doc, p, ArraySeparator, q)
    requires GivesItems(cfg, doc, q, items + [v], rest, j)
    ensures GivesItems(cfg, doc, i, items, if rest.Some? then Some([v] + rest.value) else None, j)
  {
    assert Seal(Tokens, 0) && Seal(Parses, 0);
    if rest.Some? { assert items + [v] + rest.value == items + ([v] + rest.value); }
  }

  lemma ArrayGives(cfg: Config, doc: string, i: nat, p: nat, q: nat, o: Option<seq<Value>>, j: nat)
    requires TokenAt(doc, i, ArrayBegin, p) && p <= |doc| && q == SkipSpaces(doc, p) && q < |doc| && doc[q] != ']'
    requires GivesItems(cfg, doc, q, [], o, j)
    ensures Gives(cfg, doc, i, if o.Some? then Some(Arr(o.value)) else None, j)
  {
    assert Seal(Tokens, 0) && Seal(Parses, 0);
    if o.Some? { assert [] + o.value == o.value; }
  }

  lemma ObjectGives(cfg: Config, doc: string, i: nat, p: nat, o: Option<seq<Member>>, j: nat)
    requires TokenAt(doc, i, ObjectBegin, p) && GivesMembers(cfg, doc, p, [], true, o, j)
    ensures Gives(cfg, doc, i, if o.Some? then Some(Obj(o.value)) else None, j)
  {
    assert Seal(Tokens, 0) && Seal(Parses, 0);
    if o.Some? { assert [] + o.value == o.value; }
  }

  lemma MembersFail(cfg: Config, doc: string, i: nat, ms: seq<Member>, nameEmpty: bool, key: string, p: nat, q: nat,
                    r: nat, j: nat)
    requires NameAt(cfg, doc, i, key, p) && TokenAt(doc, p, MemberSeparator, q) && Gives(cfg, doc, q, None, r)
    ensures GivesMembers(cfg, doc, i, ms, nameEmpty, None, j)
  {
    assert Seal(Tokens, 0) && Seal(Parses, 0);
  }

  lemma GivesIsValue(cfg: Config, doc: string, i: nat, v: Value, j: nat)
    requires Gives(cfg, doc, i, Some(v), j)
    ensures ValueAt(cfg, doc, i, v, j)
  {
    assert Seal(Parses, 0);
  }

  lemma MembersEnd(cfg: Config, doc: string, i: nat, ms: seq<Member>, nameEmpty: bool, key: string, p: nat, q: nat,
                   v: Value, r: nat, j: nat)
    requires NameAt(cfg, doc, i, key, p) && TokenAt(doc, p, MemberSeparator, q) && Gives(cfg, doc, q, Some(v), r)
    requires TokenAt(doc, r, ObjectEnd, j) && Insert(ms, CStr(key), v) == ms + [Member(key, v)]
    ensures GivesMembers(cfg, doc, i, ms, nameEmpty, Some([Member(key, v)]), j)
  {
    GivesIsValue(cfg, doc, q, v, r);
    MembersLast(cfg, doc, i, ms, nameEmpty, key, p, q, v, r, j);
  }

  lemma MembersGoOn(cfg: Config, doc: string, i: nat, ms: seq<Member>, nameEmpty: bool, key: string, p: nat, q: nat,
                    v: Value, r: nat, s: nat, rest: Option<seq<Member>>, j: nat)
    requires NameAt(cfg, doc, i, key, p) && TokenAt(doc, p, MemberSeparator, q) && Gives(cfg, doc, q, Some(v), r)
    requires TokenAt(doc, r, ArraySeparator, s) && Insert(ms, CStr(key), v) == ms + [Member(key, v)]
    requires GivesMembers(cfg, doc, s, ms + [Member(key, v)], key == "", rest, j)
    ensures var o := if rest.Some? then Some([Member(key, v)] + rest.value) else None;
            GivesMembers(cfg, doc, i, ms, nameEmpty, o, j)
  {
    GivesIsValue(cfg, doc, q, v, r);
    MemberStep(cfg, doc, i, ms, nameEmpty, key, p, q, v, r);
    RestGoesOn(cfg, doc, r, ms + [Member(key, v)], key == "", s);
    MembersSame(cfg, doc, i, ms, nameEmpty, s, ms + [Member(key, v)], key == "", rest, j);
    assert (ms + [Member(key, v)])[|ms|..] == [Member(key, v)];
  }

  /** Behind a member a comma leads to the next. */
  lemma RestGoesOn(cfg: Config, doc: string, r: nat, ms: seq<Member>, nameEmpty: bool, s: nat)
    requires TokenAt(doc, r, ArraySeparator, s)
    ensures r <= |doc| && s <= |doc|
    ensures ParseRest(cfg, doc, r, ms, nameEmpty) == ParseMembers(cfg, doc, s, ms, nameEmpty)
  {
    assert Seal(Tokens, 0);
  }

  lemma MembersSame(cfg: Config, doc: string, i: nat, ms: seq<Member>, nameEmpty: bool, s: nat, ms': seq<Member>,
                    nameEmpty': bool, rest: Option<seq<Member>>, j: nat)
    requires i <= |doc| && s <= |doc| && GivesMembers(cfg, doc, s, ms', nameEmpty', rest, j) && ms <= ms'
    requires ParseMembers(cfg, doc, i, ms, nameEmpty) == ParseMembers(cfg, doc, s, ms', nameEmpty')
    ensures GivesMembers(cfg, doc, i, ms, nameEmpty, if rest.Some? then Some(ms'[|ms|..] + rest.value) else None, j)
  {
    assert Seal(Parses, 0);
    SameEnd(ms, ms', rest, j);
  }

  lemma SameEnd(ms: seq<Member>, ms': seq<Member>, rest: Option<seq<Member>>, j: nat)
    requires ms <= ms'
    ensures ObjectEnds(ms, if rest.Some? then Some(ms'[|ms|..] + rest.value) else None, j) == ObjectEnds(ms', rest, j)
  {
    if rest.Some? { assert ms' + rest.value == ms + (ms'[|ms|..] + rest.value); }
  }

  // ---------- the reader on the tokens that were written ----------

  /** The tokens behind element k. */
  lemma ItemsRest(v: Value, k: nat, show: real -> string) returns (mark: string, more: seq<string>)
    requires v.Arr? && k < |v.items|
    ensures FastItems(v, k + 1, show, true) == [mark] + more
    ensures if k + 1 == |v.items| then mark == "]" && more == []
            else mark == "," && more == FastTokens(v.items[k + 1], show, true) + FastItems(v, k + 2, show, true)
  {
    if k + 1 == |v.items| {
      mark, more := "]", [];
    } else {
      mark, more := ",", FastTokens(v.items[k + 1], show, true) + FastItems(v, k + 2, show, true);
    }
  }

  /** An entry and the mark behind it. */
  lemma {:induction false} ReadsEntry(cfg: Config, doc: string, i: nat, v: Value, mark: string, more: seq<string>,
                                      j: nat)
    returns (p: nat, q: nat)
    requires Printable(cfg, v) && mark in {",", "]", "}"}
    requires Spans(doc, i, FastTokens(v, cfg.show, true) + ([mark] + more), j)
    ensures Gives(cfg, doc, i, RereadEntry(cfg, v, mark != ","), p) && Spans(doc, q, more, j)
    ensures RereadEntry(cfg, v, mark != ",").Some? ==> TokenAt(doc, p, MarkKind(mark), q)
    decreases v, Width(v) + 2
  {
    p := SpansSplit(doc, i, FastTokens(v, cfg.show, true), [mark] + more, j);
    q := SpansSplit(doc, p, [mark], more, j);
    ReadsMark(doc, p, mark, q);
    if !v.Null? {
      MarkEnds(doc, p, mark, q);
      ReadsDropped(cfg, doc, i, v, p);
    } else {
      SpansNothing(doc, i, p);
      if mark == "," && cfg.allowDropped {
        CommaGives(cfg, doc, i, q);
        p := q - 1;
      } else {
        MarkFails(cfg, doc, i, MarkKind(mark), q, p);
      }
    }
  }

  lemma {:induction false} ReadsDroppedItems(cfg: Config, doc: string, i: nat, v: Value, k: nat, items: seq<Value>,
                                             j: nat)
    requires Printable(cfg, v) && v.Arr? && k < |v.items|
    requires Spans(doc, i, FastTokens(v.items[k], cfg.show, true) + FastItems(v, k + 1, cfg.show, true), j)
    ensures GivesItems(cfg, doc, i, items, RereadItems(cfg, v, k), j)
    decreases v, |v.items| - k
  {
    var mark, more := ItemsRest(v, k, cfg.show);
    var p, q := ReadsEntry(cfg, doc, i, v.items[k], mark, more, j);
    var first := RereadEntry(cfg, v.items[k], mark != ",");
    if first.None? {
      ItemsFail(cfg, doc, i, items, p, j);
    } else if k + 1 == |v.items| {
      SpansNothing(doc, q, j);
      ItemsEnd(cfg, doc, i, items, first.value, p, j);
      assert [first.value] + [] == [first.value];
    } else {
      ReadsDroppedItems(cfg, doc, q, v, k + 1, items + [first.value], j);
      ItemsGoOn(cfg, doc, i, items, first.value, p, q, RereadItems(cfg, v, k + 1), j);
    }
  }

  lemma FirstFastToken(cfg: Config, v: Value)
    requires Printable(cfg, v) && !v.Null?
    ensures var ts := FastTokens(v, cfg.show, true); ts != [] && ts[0] != "" && ts[0][0] != ']'
  {
    FirstToken(cfg, v);
  }

  lemma TakeFirst(a: seq<string>, b: seq<string>)
    requires a != []
    ensures a + b == [a[0]] + (a[1..] + b)
  {
  }

  /** What stands behind the bracket of an array that is not read as empty. */
  lemma FirstEntryToken(cfg: Config, v: Value) returns (t: string, ts: seq<string>)
    requires Printable(cfg, v) && v.Arr? && v.items != [] && v.items != [Null]
    ensures FastTokens(v.items[0], cfg.show, true) + FastItems(v, 1, cfg.show, true) == [t] + ts
    ensures t != "" && t[0] != ']'
  {
    if v.items[0].Null? {
      assert |v.items| > 1;
      t, ts := ItemsRest(v, 0, cfg.show);
    } else {
      var first := FastTokens(v.items[0], cfg.show, true);
      FirstFastToken(cfg, v.items[0]);
      TakeFirst(first, FastItems(v, 1, cfg.show, true));
      t, ts := first[0], first[1..] + FastItems(v, 1, cfg.show, true);
    }
  }

  lemma NothingInside(v: Value, show: real -> string)
    requires v.Arr? && (v.items == [] || v.items == [Null])
    ensures FastItems(v, 0, show, true) == ["]"]
  {
    if v.items != [] {
      assert v.items[0] == Null && FastTokens(v.items[0], show, true) == [];
      assert FastItems(v, 1, show, true) == ["]"];
    }
  }

  lemma ReadsEmptied(cfg: Config, doc: string, i: nat, p: nat, j: nat)
    requires TokenAt(doc, i, ArrayBegin, p) && Spans(doc, p, ["]"], j)
    ensures Gives(cfg, doc, i, Some(Arr([])), j)
  {
    var q := SpansOne(doc, p, "]", j);
    SliceAt(doc, q, "]", 0);
    EmptyArray(cfg, doc, i, p, j);
    ValueGives(cfg, doc, i, Arr([]), j);
  }

  lemma {:induction false} ReadsFilled(cfg: Config, doc: string, i: nat, p: nat, v: Value, j: nat)
    requires Printable(cfg, v) && v.Arr? && v.items != [] && v.items != [Null] && TokenAt(doc, i, ArrayBegin, p)
    requires Spans(doc, p, FastTokens(v.items[0], cfg.show, true) + FastItems(v, 1, cfg.show, true), j)
    ensures Gives(cfg, doc, i, Reread(cfg, v), j)
    decreases v, |v.items| + 1, 0
  {
    var t, rest := FirstEntryToken(cfg, v);
    var q := SpansFromSpace(doc, p, t, rest, j);
    SliceAt(doc, q, t, 0);
    ReadsDroppedItems(cfg, doc, q, v, 0, [], j);
    ArrayGives(cfg, doc, i, p, q, RereadItems(cfg, v, 0), j);
  }

  lemma {:induction false} ReadsDroppedArray(cfg: Config, doc: string, i: nat, v: Value, j: nat)
    requires Printable(cfg, v) && v.Arr? && Spans(doc, i, FastTokens(v, cfg.show, true), j)
    ensures Gives(cfg, doc, i, Reread(cfg, v), j)
    decreases v, |v.items| + 1, 1
  {
    var ts := FastItems(v, 0, cfg.show, true);
    var p := SpansSplit(doc, i, ["["], ts, j);
    ReadsMark(doc, i, "[", p);
    if v.items == [] || v.items == [Null] {
      NothingInside(v, cfg.show);
      ReadsEmptied(cfg, doc, i, p, j);
    } else {
      assert ts == FastTokens(v.items[0], cfg.show, true) + FastItems(v, 1, cfg.show, true);
      ReadsFilled(cfg, doc, i, p, v, j);
    }
  }

  lemma {:induction false} ReadsDropped(cfg: Config, doc: string, i: nat, v: Value, j: nat)
    requires Printable(cfg, v) && !v.Null? && Spans(doc, i, FastTokens(v, cfg.show, true), j) && Ends(doc, j)
    ensures Gives(cfg, doc, i, Reread(cfg, v), j)
    decreases v, Width(v) + 1
  {
    if v.Arr? {
      ReadsDroppedArray(cfg, doc, i, v, j);
    } else if v.Obj? {
      ReadsDroppedObject(cfg, doc, i, v, j);
    } else {
      ReadsScalar(cfg, doc, i, v, j);
      ValueGives(cfg, doc, i, Normal(cfg, v), j);
    }
  }

  lemma MembersRest(v: Value, k: nat, show: real -> string) returns (mark: string, more: seq<string>)
    requires v.Obj? && k < |v.members|
    ensures FastMembers(v, k + 1, show, true) == [mark] + more
    ensures if k + 1 == |v.members| then mark == "}" && more == []
            else mark == "," && more == NamedTokens(v, k + 1, show)
  {
    if k + 1 == |v.members| {
      mark, more := "}", [];
    } else {
      mark, more := ",", NamedTokens(v, k + 1, show);
    }
  }

  /** Member k and what follows. */
  function NamedTokens(v: Value, k: nat, show: real -> string): seq<string>
    requires v.Obj? && k < |v.members|
  {
    [Quoted(v.members[k].key), ":"] + (FastTokens(v.members[k].value, show, true) + FastMembers(v, k + 1, show, true))
  }

  /** A name and the colon. */
  lemma NameSplits(cfg: Config, doc: string, i: nat, key: string, ts: seq<string>, j: nat) returns (p: nat, q: nat)
    requires NulFree(key) && Spans(doc, i, [Quoted(key), ":"] + ts, j)
    ensures NameAt(cfg, doc, i, key, p) && TokenAt(doc, p, MemberSeparator, q) && Spans(doc, q, ts, j)
  {
    assert [Quoted(key), ":"] + ts == [Quoted(key)] + ([":"] + ts);
    p := SpansSplit(doc, i, [Quoted(key)], [":"] + ts, j);
    q := SpansSplit(doc, p, [":"], ts, j);
    ReadsMark(doc, p, ":", q);
    ReadsName(cfg, doc, i, key, p);
  }

  /** Members read so far, with the names they were written with. */
  ghost predicate SameNames(ms: seq<Member>, v: Value) {
    v.Obj? && |ms| <= |v.members| && forall k :: 0 <= k < |ms| ==> ms[k].key == v.members[k].key
  }

  /** The next member goes behind those read so far. */
  lemma NextName(cfg: Config, v: Value, ms: seq<Member>, w: Value)
    requires Printable(cfg, v) && SameNames(ms, v) && |ms| < |v.members|
    ensures var key := v.members[|ms|].key;
            Insert(ms, CStr(key), w) == ms + [Member(key, w)] && SameNames(ms + [Member(key, w)], v)
  {
    InsertLast(ms, v.members[|ms|].key, w);
    CStrWhole(v.members[|ms|].key);
  }

  /** The name of member k, the colon, its value, the mark behind it, and the others. */
  lemma {:induction false} ReadsMember(cfg: Config, doc: string, i: nat, v: Value, k: nat, j: nat)
    returns (p: nat, q: nat, r: nat, s: nat)
    requires Printable(cfg, v) && v.Obj? && k < |v.members| && Spans(doc, i, NamedTokens(v, k, cfg.show), j)
    ensures NameAt(cfg, doc, i, v.members[k].key, p) && TokenAt(doc, p, MemberSeparator, q)
    ensures var first := RereadEntry(cfg, v.members[k].value, k + 1 == |v.members|);
            Gives(cfg, doc, q, first, r) &&
            (first.Some? ==> TokenAt(doc, r, if k + 1 == |v.members| then ObjectEnd else ArraySeparator, s))
    ensures if k + 1 == |v.members| then s == j else Spans(doc, s, NamedTokens(v, k + 1, cfg.show), j)
    decreases v, |v.members| - k, 0
  {
    var mark, more := MembersRest(v, k, cfg.show);
    var ts := FastTokens(v.members[k].value, cfg.show, true) + ([mark] + more);
    p, q := NameSplits(cfg, doc, i, v.members[k].key, ts, j);
    r, s := ReadsEntry(cfg, doc, q, v.members[k].value, mark, more, j);
    if more == [] { SpansNothing(doc, s, j); }
  }

  lemma {:induction false} ReadsDroppedMembers(cfg: Config, doc: string, i: nat, v: Value, ms: seq<Member>,
                                               nameEmpty: bool, j: nat)
    requires Printable(cfg, v) && SameNames(ms, v) && |ms| < |v.members|
    requires Spans(doc, i, NamedTokens(v, |ms|, cfg.show), j)
    ensures GivesMembers(cfg, doc, i, ms, nameEmpty, RereadMembers(cfg, v, |ms|), j)
    decreases v, |v.members| - |ms|, 1
  {
    var p, q, r, s := ReadsMember(cfg, doc, i, v, |ms|, j);
    var first := RereadEntry(cfg, v.members[|ms|].value, |ms| + 1 == |v.members|);
    if |ms| + 1 < |v.members| && first.Some? {
      var key := v.members[|ms|].key;
      NextName(cfg, v, ms, first.value);
      ReadsDroppedMembers(cfg, doc, s, v, ms + [Member(key, first.value)], key == "", j);
    }
    MemberGiven(cfg, doc, i, v, ms, nameEmpty, p, q, first, r, s, j);
  }

  /** A member, and those behind it. */
  lemma MemberGiven(cfg: Config, doc: string, i: nat, v: Value, ms: seq<Member>, nameEmpty: bool, p: nat, q: nat,
                    first: Option<Value>, r: nat, s: nat, j: nat)
    requires Printable(cfg, v) && SameNames(ms, v) && |ms| < |v.members|
    requires first == RereadEntry(cfg, v.members[|ms|].value, |ms| + 1 == |v.members|)
    requires NameAt(cfg, doc, i, v.members[|ms|].key, p) && TokenAt(doc, p, MemberSeparator, q)
    requires Gives(cfg, doc, q, first, r)
    requires first.Some? ==> if |ms| + 1 == |v.members| then TokenAt(doc, r, ObjectEnd, j)
             else TokenAt(doc, r, ArraySeparator, s) &&
                  GivesMembers(cfg, doc, s, ms + [Member(v.members[|ms|].key, first.value)], v.members[|ms|].key == "",
                               RereadMembers(cfg, v, |ms| + 1), j)
    ensures GivesMembers(cfg, doc, i, ms, nameEmpty, RereadMembers(cfg, v, |ms|), j)
  {
    var key := v.members[|ms|].key;
    if first.None? {
      MembersFail(cfg, doc, i, ms, nameEmpty, key, p, q, r, j);
    } else {
      NextName(cfg, v, ms, first.value);
      if |ms| + 1 == |v.members| {
        MembersEnd(cfg, doc, i, ms, nameEmpty, key, p, q, first.value, r, j);
        assert [Member(key, first.value)] + [] == [Member(key, first.value)];
      } else {
        MembersGoOn(cfg, doc, i, ms, nameEmpty, key, p, q, first.value, r, s, RereadMembers(cfg, v, |ms| + 1), j);
      }
    }
  }

  lemma {:induction false} ReadsDroppedObject(cfg: Config, doc: string, i: nat, v: Value, j: nat)
    requires Printable(cfg, v) && v.Obj? && Spans(doc, i, FastTokens(v, cfg.show, true), j)
    ensures Gives(cfg, doc, i, Reread(cfg, v), j)
    decreases v, |v.members| + 1
  {
    var ts := FastMembers(v, 0, cfg.show, true);
    var p := SpansSplit(doc, i, ["{"], ts, j);
    ReadsMark(doc, i, "{", p);
    if v.members == [] {
      ReadsMark(doc, p, "}", j);
      EmptyObject(cfg, doc, p, j);
      ObjectValue(cfg, doc, i, p, Obj([]), j);
      ValueGives(cfg, doc, i, Obj([]), j);
    } else {
      assert ts == NamedTokens(v, 0, cfg.show);
      ReadsDroppedMembers(cfg, doc, p, v, [], true, j);
      ObjectGives(cfg, doc, i, p, RereadMembers(cfg, v, 0), j);
    }
  }

  /** A text written without nulls is read, or refused, as foretold. */
  lemma LaidRereads(cfg: Config, v: Value, text: string)
    requires Printable(cfg, v) && Laid(text, FastTokens(v, cfg.show, true))
    ensures var r := ParseDocument(cfg, text);
            if Reread(cfg, v).None? || (cfg.strictRoot && IsScalar(v)) then r.Fail?
            else r.Done? && r.value == Reread(cfg, v).value
  {
    var j: nat :| LaidTo(text, FastTokens(v, cfg.show, true), j);
    if v.Null? {
      SpansNothing(text, 0, j);
      assert text[0..] == text;
      BlankFails(cfg, text);
    } else {
      if j < |text| { assert IsWs(text[j..][0]); }
      ReadsDropped(cfg, text, 0, v, j);
      assert Seal(Parses, 0);
    }
  }

  lemma {:induction false} SkipsAll(text: string, i: nat)
    requires Blank(text) && i <= |text|
    ensures SkipSpaces(text, i) == |text|
    decreases |text| - i
  {
    if i < |text| { SkipsAll(text, i + 1); }
  }

  lemma BlankFails(cfg: Config, text: string)
    requires Blank(text)
    ensures ParseValue(cfg, text, 0) == Fail
  {
    SkipsAll(text, 0);
  }
}
