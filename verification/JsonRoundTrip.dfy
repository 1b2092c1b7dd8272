/** What the writers write, the reader reads back. */
module JsonRoundTrip {
  import opened Sealing
  import opened JsonText
  import opened JsonGrammar
  import opened JsonLayout
  import opened JsonSqueeze
  import opened JsonReader
  import opened JsonWriter
  import opened JsonDropped

  lemma {:induction false} PrintableRanged(cfg: Config, v: Value)
    requires Printable(cfg, v)
    ensures Ranged(v)
    decreases v
  {
    if v.Arr? {
      forall k | 0 <= k < |v.items| ensures Ranged(v.items[k]) { PrintableRanged(cfg, v.items[k]); }
    } else if v.Obj? {
      forall k | 0 <= k < |v.members| ensures Ranged(v.members[k].value) { PrintableRanged(cfg, v.members[k].value); }
    }
  }

  lemma NormalScalar(cfg: Config, v: Value)
    requires Printable(cfg, v)
    ensures IsScalar(Normal(cfg, v)) == IsScalar(v)
  {
  }

  /** Any layout of a value's tokens is read as that value, or refused as a root because it is no array or object. */
  lemma LaidReads(cfg: Config, v: Value, text: string)
    requires Printable(cfg, v) && Laid(text, TokensOf(v, cfg.show))
    ensures var r := ParseDocument(cfg, text);
            if cfg.strictRoot && IsScalar(v) then r.Fail? else r.Done? && r.value == Normal(cfg, v)
  {
    var j: nat :| LaidTo(text, TokensOf(v, cfg.show), j);
    if j < |text| { assert IsWs(text[j..][0]); }
    ReadsTokens(cfg, text, 0, v, j);
    NormalScalar(cfg, v);
    assert Seal(Parses, 0);
  }

  /** A value without the distinction of signed and unsigned numbers. */
  function Untagged(v: Value): Value
    decreases v
  {
    match v
    case UInt(u) => Int(u)
    case Arr(items) => Arr(seq(|items|, k requires 0 <= k < |items| => Untagged(items[k])))
    case Obj(ms) => Obj(seq(|ms|, k requires 0 <= k < |ms| => Member(ms[k].key, Untagged(ms[k].value))))
    case _ => v
  }

  predicate NoReals(v: Value)
    decreases v
  {
    match v
    case Real(_) => false
    case Arr(items) => forall k :: 0 <= k < |items| ==> NoReals(items[k])
    case Obj(ms) => forall k :: 0 <= k < |ms| ==> NoReals(ms[k].value)
    case _ => true
  }

  /** The reader's choice of tags changes nothing else. */
  lemma {:induction false} NormalIsSame(cfg: Config, v: Value)
    requires Printable(cfg, v) && NoReals(v)
    ensures Untagged(Normal(cfg, v)) == Untagged(v)
    decreases v
  {
    if v.Arr? {
      var a, b := Untagged(Normal(cfg, v)).items, Untagged(v).items;
      forall k | 0 <= k < |v.items| ensures a[k] == b[k] { NormalIsSame(cfg, v.items[k]); }
      assert a == b;
    } else if v.Obj? {
      var a, b := Untagged(Normal(cfg, v)).members, Untagged(v).members;
      forall k | 0 <= k < |v.members| ensures a[k] == b[k] { NormalIsSame(cfg, v.members[k].value); }
      assert a == b;
    }
  }

  /** Different values are never written alike, in whatever layout. */
  lemma TextDeterminesValue(cfg: Config, v: Value, w: Value, text: string)
    requires Printable(cfg, v) && Printable(cfg, w) && NoReals(v) && NoReals(w)
    requires Laid(text, TokensOf(v, cfg.show)) && Laid(text, TokensOf(w, cfg.show))
    ensures Untagged(v) == Untagged(w)
  {
    var any := cfg.(strictRoot := false);
    SamePrintable(cfg, any, v);
    SamePrintable(cfg, any, w);
    LaidReads(any, v, text);
    LaidReads(any, w, text);
    NormalIsSame(any, v);
    NormalIsSame(any, w);
  }

  lemma {:induction false} SamePrintable(cfg: Config, other: Config, v: Value)
    requires Printable(cfg, v) && other.scan == cfg.scan && other.show == cfg.show
    ensures Printable(other, v)
    decreases v
  {
    if v.Arr? {
      forall k | 0 <= k < |v.items| ensures Printable(other, v.items[k]) { SamePrintable(cfg, other, v.items[k]); }
    } else if v.Obj? {
      forall k | 0 <= k < |v.members|
        ensures Printable(other, v.members[k].value)
      {
        SamePrintable(cfg, other, v.members[k].value);
      }
    }
  }

  method ReadBack(cfg: Config, text: string, ghost v: Value) returns (ok: bool, value: Value)
    requires Printable(cfg, v) && Laid(text, TokensOf(v, cfg.show))
    ensures ok <==> !(cfg.strictRoot && IsScalar(v))
    ensures ok ==> value == Normal(cfg, v)
  {
    var reader := new Reader(cfg);
    ok, value := reader.Parse(text, Null);
    LaidReads(cfg, v, text);
  }

  /** The round trip through either writer, and the agreement of the two: the same text once white space outside
      literals is removed. */
  method WriteAndRead(cfg: Config, v: Value, yaml: bool, omitLineFeed: bool)
    returns (fast: string, styled: string, fastOk: bool, fromFast: Value, styledOk: bool, fromStyled: Value)
    requires Printable(cfg, v) && Shows(cfg.show)
    ensures Squeeze(fast, false) == Squeeze(styled, false) == Concat(TokensOf(v, cfg.show))
    ensures fastOk == styledOk == !(cfg.strictRoot && IsScalar(v))
    ensures fastOk ==> fromFast == fromStyled == Normal(cfg, v)
    ensures fastOk && NoReals(v) ==> Untagged(fromFast) == Untagged(v)
  {
    PrintableRanged(cfg, v);
    var fastWriter := new FastWriter(cfg.show);
    fastWriter.yamlCompatibilityEnabled := yaml;
    fastWriter.omitEndingLineFeed := omitLineFeed;
    fast := fastWriter.Write(v);
    var styledWriter := new StyledWriter(cfg.show);
    styled := styledWriter.Write(v);
    SqueezeLaid(fast, TokensOf(v, cfg.show));
    SqueezeLaid(styled, TokensOf(v, cfg.show));
    fastOk, fromFast := ReadBack(cfg, fast, v);
    styledOk, fromStyled := ReadBack(cfg, styled, v);
    if NoReals(v) { NormalIsSame(cfg, v); }
  }

  /** The round trip through FastWriter without nulls: the value comes back exactly when it is no null itself, no null
      ends an array or an object in it, and the reader allows the others to be missing. */
  method WriteWithoutNulls(cfg: Config, v: Value, yaml: bool, omitLineFeed: bool)
    returns (text: string, ok: bool, value: Value)
    requires Printable(cfg, v) && Shows(cfg.show)
    ensures ok <==> Reread(cfg, v).Some? && !(cfg.strictRoot && IsScalar(v))
    ensures ok ==> value == Reread(cfg, v).value
    ensures ok && value == Normal(cfg, v) <==> Survives(v, cfg.allowDropped) && !(cfg.strictRoot && IsScalar(v))
  {
    PrintableRanged(cfg, v);
    var writer := new FastWriter(cfg.show);
    writer.yamlCompatibilityEnabled := yaml;
    writer.omitEndingLineFeed := omitLineFeed;
    writer.dropNullPlaceholders := true;
    text := writer.Write(v);
    var reader := new Reader(cfg);
    ok, value := reader.Parse(text, Null);
    LaidRereads(cfg, v, text);
    KeptExactly(cfg, v);
  }

  /** What goes wrong otherwise: an array of one null comes back empty, a null behind a comma is refused. */
  lemma LostNulls(cfg: Config, key: string)
    requires NulFree(key)
    ensures var one, last, member := Arr([Null]), Arr([Int(1), Null]), Obj([Member(key, Null)]);
            Printable(cfg, one) && Reread(cfg, one) == Some(Arr([])) &&
            Printable(cfg, last) && Reread(cfg, last) == None &&
            Printable(cfg, member) && Reread(cfg, member) == None && Reread(cfg, Null) == None
  {
    var last, member := Arr([Int(1), Null]), Obj([Member(key, Null)]);
    assert last.items[1] == Null && last.items != [Null] && RereadEntry(cfg, last.items[1], true) == None;
    assert RereadItems(cfg, last, 1) == None;
    assert member.members[0].value == Null && RereadEntry(cfg, member.members[0].value, true) == None;
    assert RereadMembers(cfg, member, 0) == None;
  }
}
