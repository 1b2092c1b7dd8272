/**
 * How options are written on a command line for lib/util/getopt_long.c, and what each spelling means; every argument
 * list is such a spelling, and the scanner reports what it means.
 */
module GetoptSpelling {
  import opened Getopt

  // ---------- command lines ----------

  /** An argument is left out, attached to its option, or the next element. */
  datatype Given = Bare | Attached(arg: string) | Following(arg: string)

  /** How an element ends after letters that stand by themselves: there; with a letter that takes an argument; with the
      letter W and a name; or with a name. */
  datatype Tail =
    | End
    | Takes(letter: char, given: Given)
    | Worded(attached: bool, name: string, m: Match, given: Given)
    | Named(dash: bool, name: string, m: Match, given: Given)

  datatype Item =
    | Word(text: string)
    | Element(letters: string, tail: Tail)
    | Lone(given: Given)

  /** Items, and perhaps a double dash with what follows it. */
  datatype Line = Line(items: seq<Item>, end: Option<seq<string>>)

  // ---------- spelling ----------

  function NamedText(name: string, given: Given): string {
    name + if given.Attached? then "=" + given.arg else ""
  }

  function Extra(given: Given): seq<string> {
    if given.Following? then [given.arg] else []
  }

  function TailText(tail: Tail): string {
    match tail
    case End => ""
    case Takes(c, given) => [c] + if given.Attached? then given.arg else ""
    case Worded(attached, name, _, given) => "W" + if attached then NamedText(name, given) else ""
    case Named(dash, name, _, given) => (if dash then "-" else "") + NamedText(name, given)
  }

  function TailExtra(tail: Tail): seq<string> {
    match tail
    case End => []
    case Takes(_, given) => Extra(given)
    case Worded(attached, name, _, given) => (if attached then [] else [NamedText(name, given)]) + Extra(given)
    case Named(_, _, _, given) => Extra(given)
  }

  function Spell(item: Item): (s: seq<string>)
    ensures s != []
  {
    match item
    case Word(text) => [text]
    case Element(letters, tail) => ["-" + (letters + TailText(tail))] + TailExtra(tail)
    case Lone(given) => ["-"] + Extra(given)
  }

  function SpellAll(items: seq<Item>): seq<string> {
    if items == [] then [] else Spell(items[0]) + SpellAll(items[1..])
  }

  function SpellLine(line: Line): seq<string> {
    SpellAll(line.items) + if line.end.Some? then ["--"] + line.end.value else []
  }

  // ---------- meaning ----------

  /** What the option string says of a letter: `c`, `c:`, `c::`, `W;` or nothing. */
  datatype Kind = Unlisted | Plain | Needs | MayHave | Names

  function KindOf(options: string, c: char): Kind {
    var k := Find(options, c);
    if c == ':' || c !in options then Unlisted
    else if c == 'W' && CharAt(options, k + 1, ';') then Names
    else if !CharAt(options, k + 1, ':') then Plain
    else if !CharAt(options, k + 2, ':') then Needs
    else MayHave
  }

  function ArgOf(given: Given): Option<string> {
    if given.Bare? then None else Some(given.arg)
  }

  /** An argument where there should be none, or none where there should be one. */
  predicate Amiss(hasArg: HasArg, given: Given) {
    (hasArg == NoArgument && !given.Bare?) || (hasArg == RequiredArgument && given.Bare?)
  }

  function NamedEvent(cfg: Config, m: Match, given: Given): Event
    requires m.Found? ==> m.index < |cfg.table|
  {
    if !m.Found? then Event(BADCH, None, None, Some(0))
    else
      var o := cfg.table[m.index];
      var code := if o.flag == 0 then o.val else 0;
      if Amiss(o.hasArg, given) then Event(cfg.BadArg(), None, None, Some(code))
      else Event(code, ArgOf(given), Some(m.index), None)
  }

  function LetterEvent(cfg: Config, c: char, given: Given): Event {
    match KindOf(cfg.options, c)
    case Unlisted => Event(BADCH, None, None, Some(c as int))
    case Plain => Event(c as int, None, None, None)
    case MayHave => Event(c as int, ArgOf(given), None, None)
    case Needs =>
      if given.Bare? then Event(cfg.BadArg(), None, None, Some(c as int))
      else Event(c as int, ArgOf(given), None, None)
    case Names => Event(cfg.BadArg(), None, None, Some(c as int))
  }

  function LetterEvents(cfg: Config, letters: string): seq<Event> {
    if letters == "" then [] else [LetterEvent(cfg, letters[0], Bare)] + LetterEvents(cfg, letters[1..])
  }

  predicate Indexed(cfg: Config, tail: Tail) {
    (tail.Worded? || tail.Named?) && tail.m.Found? ==> tail.m.index < |cfg.table|
  }

  function TailEvents(cfg: Config, tail: Tail): seq<Event>
    requires Indexed(cfg, tail)
  {
    match tail
    case End => []
    case Takes(c, given) => [LetterEvent(cfg, c, given)]
    case Worded(_, _, m, given) => [NamedEvent(cfg, m, given)]
    case Named(_, _, m, given) => [NamedEvent(cfg, m, given)]
  }

  // ---------- what is well spelled ----------

  /** The name denotes what is meant; its argument can be told from what follows. */
  ghost predicate NameOk(cfg: Config, name: string, m: Match, given: Given, shortToo: bool, last: bool) {
    '=' !in name && Denotes(cfg, name, shortToo, m) && (m.Found? ==> m.index < |cfg.table|) &&
    var needs := m.Found? && cfg.table[m.index].hasArg == RequiredArgument;
    (given.Following? ==> needs) && (given.Bare? && needs ==> last)
  }

  /** Not the start of a name: no dash, and where names need only one dash, a listed letter and no name. */
  ghost predicate ReadAsLetter(cfg: Config, s: string)
    requires s != ""
  {
    s[0] != '-' && (cfg.longOnly ==> MayBeShort(cfg, s) && Denotes(cfg, s[..Find(s, '=')], true, Unknown))
  }

  predicate MayBeShort(cfg: Config, s: string)
    requires s != ""
  {
    s[0] != ':' && s[0] in cfg.options
  }

  ghost predicate LettersOk(cfg: Config, letters: string, tail: string) {
    forall i :: 0 <= i < |letters| ==>
      ReadAsLetter(cfg, letters[i..] + tail) && KindOf(cfg.options, letters[i]) in {Unlisted, Plain}
  }

  ghost predicate LetterOk(cfg: Config, c: char, given: Given, last: bool) {
    match KindOf(cfg.options, c)
    case Needs => (given.Attached? ==> given.arg != "") && (given.Bare? ==> last)
    case MayHave => !given.Following? && (given.Attached? ==> given.arg != "")
    case Names => given.Bare? && last
    case _ => false
  }

  ghost predicate TailOk(cfg: Config, tail: Tail, last: bool) {
    match tail
    case End => true
    case Takes(c, given) => ReadAsLetter(cfg, TailText(tail)) && LetterOk(cfg, c, given, last)
    case Worded(attached, name, m, given) =>
      ReadAsLetter(cfg, TailText(tail)) && KindOf(cfg.options, 'W') == Names &&
      NameOk(cfg, name, m, given, false, last) && (attached ==> NamedText(name, given) != "")
    case Named(dash, name, m, given) =>
      if dash then NameOk(cfg, name, m, given, false, last)
      else cfg.longOnly && TailText(tail) != "" && TailText(tail)[0] != '-' &&
           NameOk(cfg, name, m, given, MayBeShort(cfg, TailText(tail)), last) &&
           (MayBeShort(cfg, TailText(tail)) ==> m != Unknown)
  }

  ghost predicate ItemOk(cfg: Config, item: Item, last: bool) {
    match item
    case Word(text) => text == "" || text[0] != '-' || (text == "-" && '-' !in cfg.options)
    case Element(letters, tail) =>
      letters + TailText(tail) != "" && letters + TailText(tail) != "-" && LettersOk(cfg, letters, TailText(tail)) &&
      TailOk(cfg, tail, last)
    case Lone(given) =>
      '-' in cfg.options && !given.Attached? &&
      ((KindOf(cfg.options, '-') == Plain && given.Bare?) || LetterOk(cfg, '-', given, last))
  }

  /** Something follows every item but the last, and that too if there is a double dash. */
  ghost predicate LineOk(cfg: Config, items: seq<Item>, ended: bool) {
    forall i :: 0 <= i < |items| ==> ItemOk(cfg, items[i], i == |items| - 1 && !ended)
  }

  function ItemEvents(cfg: Config, item: Item): seq<Event>
    requires item.Element? ==> Indexed(cfg, item.tail)
  {
    match item
    case Word(_) => []
    case Element(letters, tail) => LetterEvents(cfg, letters) + TailEvents(cfg, tail)
    case Lone(given) => [LetterEvent(cfg, '-', given)]
  }

  predicate AllIndexed(cfg: Config, items: seq<Item>) {
    forall i :: 0 <= i < |items| && items[i].Element? ==> Indexed(cfg, items[i].tail)
  }

  function AfterItem(cfg: Config, item: Item, r: Reading): Reading
    requires item.Element? ==> Indexed(cfg, item.tail)
  {
    if item.Word? then r.After([], [], [item.text]) else r.After(ItemEvents(cfg, item), Spell(item), [])
  }

  /** What the items mean: the reports in order; the elements of options; the words. */
  function Meaning(cfg: Config, line: Line): Reading
    requires AllIndexed(cfg, line.items)
    decreases |line.items|
  {
    if line.items == [] then
      if line.end.Some? then Reading([], ["--"], line.end.value) else Reading([], [], [])
    else AfterItem(cfg, line.items[0], Meaning(cfg, Line(line.items[1..], line.end)))
  }

  // ---------- names ----------

  lemma FindEquals(name: string, given: Given)
    requires '=' !in name
    ensures var text := NamedText(name, given);
            Find(text, '=') == |name| && text[..|name|] == name &&
            (given.Attached? <==> |name| < |text|) && (given.Attached? ==> text[|name| + 1..] == given.arg)
  {
    var text := NamedText(name, given);
    var k := Find(text, '=');
    assert text[..|name|] == name;
    if given.Attached? {
      assert text[|name|] == '=';
    } else {
      assert text == name;
    }
  }

  lemma DenotedIsLookedUp(cfg: Config, name: string, shortToo: bool, m: Match)
    requires Denotes(cfg, name, shortToo, m)
    ensures LookUp(cfg, name, shortToo) == m
  {
    DenotesOnce(cfg, name, shortToo, m, LookUp(cfg, name, shortToo));
  }

  /** A name is read as it is meant, with the argument it is given. */
  lemma NameReads(cfg: Config, name: string, m: Match, given: Given, shortToo: bool, head: string, more: seq<string>)
    requires NameOk(cfg, name, m, given, shortToo, more == []) && !(shortToo && m == Unknown)
    ensures LongOutcome(cfg, NamedText(name, given), [head] + Extra(given) + more, shortToo) ==
            Some(Outcome(NamedEvent(cfg, m, given), 1 + |Extra(given)|, ""))
  {
    FindEquals(name, given);
    DenotedIsLookedUp(cfg, name, shortToo, m);
    var rest := [head] + Extra(given) + more;
    if given.Following? { assert rest[1] == given.arg; }
  }

  lemma NoNameReads(cfg: Config, s: string, rest: seq<string>)
    requires s != "" && rest != [] && Denotes(cfg, s[..Find(s, '=')], true, Unknown)
    ensures LongOutcome(cfg, s, rest, true) == None
  {
    DenotedIsLookedUp(cfg, s[..Find(s, '=')], true, Unknown);
  }

  /** What is not a name is a letter. */
  lemma LetterIsRead(cfg: Config, s: string, rest: seq<string>)
    requires s != "" && rest != [] && ReadAsLetter(cfg, s)
    ensures OneOption(cfg, s, false, rest) == ShortOutcome(cfg, s, rest)
  {
    if cfg.longOnly { NoNameReads(cfg, s, rest); }
  }

  // ---------- letters ----------

  lemma LoneLetterReads(cfg: Config, s: string, rest: seq<string>)
    requires s != "" && rest != [] && (s[0] == '-' ==> s == "-" && '-' in cfg.options)
    requires KindOf(cfg.options, s[0]) in {Unlisted, Plain}
    ensures ShortOutcome(cfg, s, rest) ==
            Outcome(LetterEvent(cfg, s[0], Bare), if |s| == 1 then 1 else 0, s[1..])
  {
    assert s[0] in cfg.options <==> Find(cfg.options, s[0]) < |cfg.options| by {
      var k := Find(cfg.options, s[0]);
      assert cfg.options == cfg.options[..k] + cfg.options[k..];
    }
  }

  lemma Listed(options: string, c: char)
    ensures c in options <==> Find(options, c) < |options|
  {
    var k := Find(options, c);
    assert options == options[..k] + options[k..];
  }

  /** A letter that takes an argument is read with it. */
  lemma LetterTakes(cfg: Config, c: char, given: Given, head: string, more: seq<string>)
    requires LetterOk(cfg, c, given, more == [])
    requires c == '-' ==> !given.Attached?
    ensures ShortOutcome(cfg, TailText(Takes(c, given)), [head] + Extra(given) + more) ==
            Outcome(LetterEvent(cfg, c, given), 1 + |Extra(given)|, "")
  {
    Listed(cfg.options, c);
    var s, rest := TailText(Takes(c, given)), [head] + Extra(given) + more;
    assert s[0] == c && s[1..] == if given.Attached? then given.arg else "";
    if given.Following? { assert rest[1] == given.arg; }
  }

  /** The letter W is read with the name it is given. */
  lemma WordReads(cfg: Config, attached: bool, name: string, m: Match, given: Given, head: string, more: seq<string>)
    requires KindOf(cfg.options, 'W') == Names && NameOk(cfg, name, m, given, false, more == [])
    requires attached ==> NamedText(name, given) != ""
    ensures var tail := Worded(attached, name, m, given);
            ShortOutcome(cfg, TailText(tail), [head] + TailExtra(tail) + more) ==
            Outcome(NamedEvent(cfg, m, given), 1 + |TailExtra(tail)|, "")
  {
    Listed(cfg.options, 'W');
    var tail, text := Worded(attached, name, m, given), NamedText(name, given);
    var s, rest := TailText(tail), [head] + TailExtra(tail) + more;
    if attached {
      assert s[1..] == text;
      NameReads(cfg, name, m, given, false, head, more);
    } else {
      assert s == "W" && s[1..] == "";
      NameReads(cfg, name, m, given, false, text, more);
      assert rest[1] == text && rest[1..] == [text] + Extra(given) + more;
    }
  }

  // ---------- elements ----------

  lemma {:induction false} TailReads(cfg: Config, tail: Tail, head: string, more: seq<string>)
    requires tail != End && TailOk(cfg, tail, more == []) && TailText(tail) != ""
    ensures OneOption(cfg, TailText(tail), false, [head] + TailExtra(tail) + more) ==
            Outcome(TailEvents(cfg, tail)[0], 1 + |TailExtra(tail)|, "")
  {
    var rest := [head] + TailExtra(tail) + more;
    match tail
    case Takes(c, given) =>
      LetterIsRead(cfg, TailText(tail), rest);
      LetterTakes(cfg, c, given, head, more);
    case Worded(attached, name, m, given) =>
      LetterIsRead(cfg, TailText(tail), rest);
      WordReads(cfg, attached, name, m, given, head, more);
    case Named(dash, name, m, given) =>
      if dash {
        assert TailText(tail)[1..] == NamedText(name, given);
        NameReads(cfg, name, m, given, false, head, more);
      } else {
        assert TailText(tail) == NamedText(name, given);
        NameReads(cfg, name, m, given, MayBeShort(cfg, TailText(tail)), head, more);
      }
  }

  lemma FewerLetters(cfg: Config, letters: string, tail: string)
    requires letters != "" && LettersOk(cfg, letters, tail)
    ensures LettersOk(cfg, letters[1..], tail)
  {
    forall i | 0 <= i < |letters[1..]|
      ensures ReadAsLetter(cfg, letters[1..][i..] + tail) && KindOf(cfg.options, letters[1..][i]) in {Unlisted, Plain}
    {
      assert letters[1..][i..] == letters[i + 1..];
    }
  }

  /** The next option of an element, when the rest of it is still to be read. */
  lemma ElementGoesOn(cfg: Config, place: string, args: seq<string>, o: Outcome, rest: Reading)
    requires args != [] && place != "" && o == OneOption(cfg, place, false, args) && o.place != ""
    requires ReadElement(cfg, o.place, false, args) == rest
    ensures ReadElement(cfg, place, false, args) == rest.After([o.event], [], [])
  {
  }

  lemma ElementEnds(cfg: Config, place: string, whole: bool, args: seq<string>, o: Outcome, used: seq<string>,
                    more: seq<string>)
    requires args != [] && place != "" && (whole ==> place == "-" && '-' in cfg.options)
    requires o == OneOption(cfg, place, whole, args) && o.place == ""
    requires args == used + more && o.advance == |used|
    ensures ReadElement(cfg, place, whole, args) == ReadArgs(cfg, more).After([o.event], used, [])
  {
    assert args[o.advance..] == more && args[..o.advance] == used;
  }

  lemma NothingLeft(cfg: Config, tail: Tail, last: bool)
    requires TailText(tail) == "" && TailOk(cfg, tail, last)
    ensures tail == End
  {
  }

  lemma AfterOne(r: Reading, e: Event, events: seq<Event>, opts: seq<string>)
    ensures r.After(events, opts, []).After([e], [], []) == r.After([e] + events, opts, [])
  {
  }

  /** The first letter of several. */
  lemma OneLetter(cfg: Config, s: string, args: seq<string>)
    requires s != "" && args != [] && ReadAsLetter(cfg, s) && KindOf(cfg.options, s[0]) in {Unlisted, Plain}
    ensures OneOption(cfg, s, false, args) == Outcome(LetterEvent(cfg, s[0], Bare), if |s| == 1 then 1 else 0, s[1..])
  {
    LetterIsRead(cfg, s, args);
    LoneLetterReads(cfg, s, args);
  }

  lemma LastLetterReads(cfg: Config, c: char, head: string, more: seq<string>)
    requires ReadAsLetter(cfg, [c]) && KindOf(cfg.options, c) in {Unlisted, Plain}
    ensures ReadElement(cfg, [c], false, [head] + more) ==
            ReadArgs(cfg, more).After([LetterEvent(cfg, c, Bare)], [head], [])
  {
    var args := [head] + more;
    OneLetter(cfg, [c], args);
    ElementEnds(cfg, [c], false, args, Outcome(LetterEvent(cfg, c, Bare), 1, ""), [head], more);
  }

  lemma FirstLetterReads(cfg: Config, s: string, args: seq<string>, more: seq<string>, events: seq<Event>,
                         used: seq<string>)
    requires |s| > 1 && args != [] && ReadAsLetter(cfg, s) && KindOf(cfg.options, s[0]) in {Unlisted, Plain}
    requires ReadElement(cfg, s[1..], false, args) == ReadArgs(cfg, more).After(events, used, [])
    ensures ReadElement(cfg, s, false, args) ==
            ReadArgs(cfg, more).After([LetterEvent(cfg, s[0], Bare)] + events, used, [])
  {
    OneLetter(cfg, s, args);
    var e := LetterEvent(cfg, s[0], Bare);
    ElementGoesOn(cfg, s, args, Outcome(e, 0, s[1..]), ReadArgs(cfg, more).After(events, used, []));
    AfterOne(ReadArgs(cfg, more), e, events, used);
  }

  lemma TailAlone(cfg: Config, tail: Tail, head: string, more: seq<string>)
    requires TailOk(cfg, tail, more == []) && TailText(tail) != ""
    ensures ReadElement(cfg, TailText(tail), false, [head] + TailExtra(tail) + more) ==
            ReadArgs(cfg, more).After(TailEvents(cfg, tail), [head] + TailExtra(tail), [])
  {
    var used, e := [head] + TailExtra(tail), TailEvents(cfg, tail)[0];
    TailReads(cfg, tail, head, more);
    ElementEnds(cfg, TailText(tail), false, used + more, Outcome(e, |used|, ""), used, more);
    assert TailEvents(cfg, tail) == [e];
  }

  lemma {:induction false} LettersRead(cfg: Config, letters: string, tail: Tail, head: string, more: seq<string>)
    requires LettersOk(cfg, letters, TailText(tail)) && TailOk(cfg, tail, more == []) && letters + TailText(tail) != ""
    ensures ReadElement(cfg, letters + TailText(tail), false, [head] + TailExtra(tail) + more) ==
            ReadArgs(cfg, more).After(LetterEvents(cfg, letters) + TailEvents(cfg, tail), [head] + TailExtra(tail), [])
    decreases |letters|
  {
    var text := TailText(tail);
    var s, used := letters + text, [head] + TailExtra(tail);
    if letters == "" {
      assert s == text && LetterEvents(cfg, letters) + TailEvents(cfg, tail) == TailEvents(cfg, tail);
      TailAlone(cfg, tail, head, more);
    } else {
      assert letters[0..] + text == s && s[1..] == letters[1..] + text && s[0] == letters[0];
      assert KindOf(cfg.options, letters[0]) in {Unlisted, Plain};
      var e, events := LetterEvent(cfg, s[0], Bare), LetterEvents(cfg, letters[1..]) + TailEvents(cfg, tail);
      assert LetterEvents(cfg, letters) + TailEvents(cfg, tail) == [e] + events;
      if |s| == 1 {
        NothingLeft(cfg, tail, more == []);
        assert s == [s[0]] && letters[1..] == "" && used == [head] && [e] + events == [e];
        LastLetterReads(cfg, s[0], head, more);
      } else {
        FewerLetters(cfg, letters, text);
        LettersRead(cfg, letters[1..], tail, head, more);
        FirstLetterReads(cfg, s, used + more, more, events, used);
      }
    }
  }

  // ---------- items and lines ----------

  lemma LoneReads(cfg: Config, given: Given, more: seq<string>)
    requires ItemOk(cfg, Lone(given), more == [])
    ensures ReadArgs(cfg, ["-"] + Extra(given) + more) ==
            ReadArgs(cfg, more).After([LetterEvent(cfg, '-', given)], ["-"] + Extra(given), [])
  {
    var used := ["-"] + Extra(given);
    var args := used + more;
    var o := Outcome(LetterEvent(cfg, '-', given), |used|, "");
    assert OneOption(cfg, "-", true, args) == o by {
      if KindOf(cfg.options, '-') == Plain {
        LoneLetterReads(cfg, "-", args);
        assert "-"[1..] == "";
      } else {
        assert TailText(Takes('-', given)) == "-";
        LetterTakes(cfg, '-', given, "-", more);
      }
    }
    ElementEnds(cfg, "-", true, args, o, used, more);
    assert args[0] == "-" && FirstPlace("-") == "-";
  }

  lemma IsElement(cfg: Config, s: string, args: seq<string>)
    requires s != "" && s != "-" && args != [] && args[0] == "-" + s
    ensures ReadArgs(cfg, args) == ReadElement(cfg, s, false, args)
  {
    assert args[0][0] == '-' && args[0][1..] == s && "--"[1..] == "-";
  }

  lemma ElementReads(cfg: Config, letters: string, tail: Tail, more: seq<string>)
    requires ItemOk(cfg, Element(letters, tail), more == [])
    ensures ReadArgs(cfg, Spell(Element(letters, tail)) + more) ==
            ReadArgs(cfg, more).After(LetterEvents(cfg, letters) + TailEvents(cfg, tail), Spell(Element(letters, tail)),
                                      [])
  {
    var s := letters + TailText(tail);
    var head := "-" + s;
    LettersRead(cfg, letters, tail, head, more);
    IsElement(cfg, s, [head] + TailExtra(tail) + more);
  }

  lemma WordReadsAsWord(cfg: Config, text: string, more: seq<string>)
    requires ItemOk(cfg, Word(text), more == [])
    ensures ReadArgs(cfg, [text] + more) == ReadArgs(cfg, more).After([], [], [text])
  {
    assert ([text] + more)[1..] == more;
  }

  lemma RestOk(cfg: Config, items: seq<Item>, ended: bool)
    requires items != [] && LineOk(cfg, items, ended)
    ensures LineOk(cfg, items[1..], ended) && ItemOk(cfg, items[0], |items| == 1 && !ended)
  {
    forall i | 0 <= i < |items[1..]| ensures ItemOk(cfg, items[1..][i], i == |items[1..]| - 1 && !ended) {
      assert items[1..][i] == items[i + 1];
    }
  }

  lemma OkIsIndexed(cfg: Config, items: seq<Item>, ended: bool)
    requires LineOk(cfg, items, ended)
    ensures AllIndexed(cfg, items)
  {
    forall i | 0 <= i < |items| && items[i].Element? ensures Indexed(cfg, items[i].tail) {
      assert ItemOk(cfg, items[i], i == |items| - 1 && !ended);
    }
  }

  /** Something is spelled after every item but the last. */
  lemma NothingFollows(line: Line)
    ensures SpellLine(line) == [] <==> line.items == [] && line.end.None?
  {
  }

  lemma ItemReads(cfg: Config, item: Item, more: seq<string>)
    requires ItemOk(cfg, item, more == [])
    ensures (item.Element? ==> Indexed(cfg, item.tail)) &&
            ReadArgs(cfg, Spell(item) + more) == AfterItem(cfg, item, ReadArgs(cfg, more))
  {
    match item
    case Word(text) => WordReadsAsWord(cfg, text, more);
    case Element(letters, tail) => ElementReads(cfg, letters, tail, more);
    case Lone(given) => LoneReads(cfg, given, more);
  }

  lemma EndReads(cfg: Config, end: Option<seq<string>>)
    ensures ReadArgs(cfg, SpellLine(Line([], end))) == Meaning(cfg, Line([], end))
  {
    if end.Some? {
      var args := ["--"] + end.value;
      assert SpellLine(Line([], end)) == args && args[1..] == end.value;
    }
  }

  lemma SpellRest(line: Line)
    requires line.items != []
    ensures SpellLine(line) == Spell(line.items[0]) + SpellLine(Line(line.items[1..], line.end))
  {
  }

  /** A command line is read as what it means: exactly these options with these arguments, in order, and exactly these
      words. */
  lemma {:induction false} LineReads(cfg: Config, line: Line)
    requires LineOk(cfg, line.items, line.end.Some?)
    ensures AllIndexed(cfg, line.items) && ReadArgs(cfg, SpellLine(line)) == Meaning(cfg, line)
    decreases |line.items|
  {
    OkIsIndexed(cfg, line.items, line.end.Some?);
    if line.items == [] {
      EndReads(cfg, line.end);
      assert line == Line([], line.end);
    } else {
      var rest := Line(line.items[1..], line.end);
      RestOk(cfg, line.items, line.end.Some?);
      LineReads(cfg, rest);
      NothingFollows(rest);
      SpellRest(line);
      ItemReads(cfg, line.items[0], SpellLine(rest));
    }
  }

  // ---------- every argument list is a command line ----------

  lemma {:induction false} FirstExact(t: seq<LongOption>, name: string, i: nat) returns (k: nat)
    requires i < |t| && t[i].name == name
    ensures k < |t| && t[k].name == name && forall j :: 0 <= j < k ==> t[j].name != name
  {
    if j :| 0 <= j < i && t[j].name == name {
      k := FirstExact(t, name, j);
    } else {
      k := i;
    }
  }

  lemma {:induction false} FirstPartial(t: seq<LongOption>, name: string, shortToo: bool, i: nat) returns (k: nat)
    requires i < |t| && Abbreviates(name, t[i], shortToo)
    ensures FirstAbbreviated(t, name, shortToo, k)
  {
    if j :| 0 <= j < i && Abbreviates(name, t[j], shortToo) {
      k := FirstPartial(t, name, shortToo, j);
    } else {
      k := i;
    }
  }

  /** Every name denotes something, if only that it is unknown. */
  lemma DenotesSome(cfg: Config, name: string, shortToo: bool) returns (m: Match)
    ensures Denotes(cfg, name, shortToo, m) && (m.Found? ==> m.index < |cfg.table|)
  {
    var t := cfg.table;
    if i :| 0 <= i < |t| && t[i].name == name {
      var k := FirstExact(t, name, i);
      m := Found(k);
    } else if i :| 0 <= i < |t| && Abbreviates(name, t[i], shortToo) {
      var k := FirstPartial(t, name, shortToo, i);
      m := if HasRival(cfg, name, shortToo, k) then Ambiguous else Found(k);
    } else {
      m := Unknown;
    }
  }

  /** The full name of an entry, or the beginning of the names of none but one, stands for that entry. */
  lemma OneEntry(cfg: Config, name: string, shortToo: bool, k: nat)
    requires k < |cfg.table| && name <= cfg.table[k].name
    requires forall i :: 0 <= i < |cfg.table| && i != k ==> !(name <= cfg.table[i].name)
    requires shortToo && |name| == 1 ==> name == cfg.table[k].name
    ensures Denotes(cfg, name, shortToo, Found(k))
  {
    var t := cfg.table;
    assert name == t[k].name || Abbreviates(name, t[k], shortToo);
    assert forall i :: 0 <= i < |t| && i != k ==> !Abbreviates(name, t[i], shortToo);
  }

  /** The beginning of two names that do not do the same is ambiguous, unless it is a name itself. */
  lemma TwoEntries(cfg: Config, name: string, shortToo: bool, i: nat, j: nat)
    requires i < j < |cfg.table| && name < cfg.table[i].name && name < cfg.table[j].name
    requires Conflicts(cfg, cfg.table[i], cfg.table[j]) && !(shortToo && |name| == 1)
    requires forall k :: 0 <= k < |cfg.table| ==> cfg.table[k].name != name
    ensures Denotes(cfg, name, shortToo, Ambiguous)
  {
    var t := cfg.table;
    assert Abbreviates(name, t[i], shortToo) && Abbreviates(name, t[j], shortToo);
    var k := FirstPartial(t, name, shortToo, i);
    assert Conflicts(cfg, t[j], t[k]) || (k < i && Conflicts(cfg, t[i], t[k]));
    assert HasRival(cfg, name, shortToo, k);
  }

  /** What a name and the elements after it say. */
  lemma DissectName(cfg: Config, text: string, shortToo: bool, rest: seq<string>)
    returns (name: string, m: Match, given: Given)
    ensures text == NamedText(name, given) && name == text[..Find(text, '=')] && Extra(given) <= rest
    ensures NameOk(cfg, name, m, given, shortToo, rest[|Extra(given)|..] == [])
  {
    var k := Find(text, '=');
    name := text[..k];
    m := DenotesSome(cfg, name, shortToo);
    var needs := m.Found? && cfg.table[m.index].hasArg == RequiredArgument;
    if k < |text| {
      given := Attached(text[k + 1..]);
      assert text == text[..k] + ["="[0]] + text[k + 1..];
    } else if needs && rest != [] {
      given := Following(rest[0]);
    } else {
      given := Bare;
    }
  }

  /** A letter that takes an argument or a name. */
  lemma DissectTaker(cfg: Config, s: string, rest: seq<string>) returns (tail: Tail)
    requires s != "" && ReadAsLetter(cfg, s) && KindOf(cfg.options, s[0]) in {Needs, MayHave}
    ensures s == TailText(tail) && TailExtra(tail) <= rest && TailOk(cfg, tail, rest[|TailExtra(tail)|..] == [])
  {
    var c, arg := s[0], s[1..];
    assert s == [c] + arg;
    if arg != "" {
      tail := Takes(c, Attached(arg));
    } else if KindOf(cfg.options, c) == Needs && rest != [] {
      tail := Takes(c, Following(rest[0]));
    } else {
      tail := Takes(c, Bare);
    }
  }

  lemma DissectWord(cfg: Config, s: string, rest: seq<string>) returns (tail: Tail)
    requires s != "" && ReadAsLetter(cfg, s) && KindOf(cfg.options, s[0]) == Names
    ensures s == TailText(tail) && TailExtra(tail) <= rest && TailOk(cfg, tail, rest[|TailExtra(tail)|..] == [])
  {
    var text := s[1..];
    assert s == "W" + text;
    if text != "" {
      var name, m, given := DissectName(cfg, text, false, rest);
      tail := Worded(true, name, m, given);
    } else if rest == [] {
      tail := Takes('W', Bare);
    } else {
      var name, m, given := DissectName(cfg, rest[0], false, rest[1..]);
      tail := Worded(false, name, m, given);
      assert TailExtra(tail) == [rest[0]] + Extra(given);
      assert rest[|TailExtra(tail)|..] == rest[1..][|Extra(given)|..];
    }
  }

  /** What does not start with a letter is a name. */
  lemma DissectNamed(cfg: Config, s: string, rest: seq<string>) returns (tail: Tail)
    requires s != "" && !ReadAsLetter(cfg, s)
    ensures s == TailText(tail) && TailExtra(tail) <= rest && TailOk(cfg, tail, rest[|TailExtra(tail)|..] == [])
  {
    if s[0] == '-' {
      var name, m, given := DissectName(cfg, s[1..], false, rest);
      tail := Named(true, name, m, given);
      assert s == "-" + s[1..];
    } else {
      var name, m, given := DissectName(cfg, s, MayBeShort(cfg, s), rest);
      tail := Named(false, name, m, given);
    }
  }

  lemma DissectTail(cfg: Config, s: string, rest: seq<string>) returns (tail: Tail)
    requires s != "" ==> !ReadAsLetter(cfg, s) || KindOf(cfg.options, s[0]) in {Needs, MayHave, Names}
    ensures s == TailText(tail) && TailExtra(tail) <= rest && TailOk(cfg, tail, rest[|TailExtra(tail)|..] == [])
  {
    if s == "" {
      tail := End;
    } else if !ReadAsLetter(cfg, s) {
      tail := DissectNamed(cfg, s, rest);
    } else if KindOf(cfg.options, s[0]) == Names {
      tail := DissectWord(cfg, s, rest);
    } else {
      tail := DissectTaker(cfg, s, rest);
    }
  }

  /** The letters and the tail of an element. */
  lemma {:induction false} DissectElement(cfg: Config, s: string, rest: seq<string>)
    returns (letters: string, tail: Tail)
    ensures s == letters + TailText(tail) && LettersOk(cfg, letters, TailText(tail)) && TailExtra(tail) <= rest
    ensures TailOk(cfg, tail, rest[|TailExtra(tail)|..] == [])
    decreases |s|
  {
    if s != "" && ReadAsLetter(cfg, s) && KindOf(cfg.options, s[0]) in {Unlisted, Plain} {
      var c, others, text := s[0], "", "";
      others, tail := DissectElement(cfg, s[1..], rest);
      text := TailText(tail);
      LetterFirst(s, c, others, text);
      OneMoreLetter(cfg, c, others, text);
      letters := [c] + others;
    } else {
      letters := "";
      tail := DissectTail(cfg, s, rest);
    }
  }

  lemma LetterFirst(s: string, c: char, letters: string, tail: string)
    requires s != "" && c == s[0] && s[1..] == letters + tail
    ensures s == [c] + (letters + tail) == [c] + letters + tail
  {
    assert s == [c] + s[1..];
  }

  lemma OneMoreLetter(cfg: Config, c: char, letters: string, tail: string)
    requires LettersOk(cfg, letters, tail) && ReadAsLetter(cfg, [c] + (letters + tail))
    requires KindOf(cfg.options, c) in {Unlisted, Plain}
    ensures LettersOk(cfg, [c] + letters, tail)
  {
    var all := [c] + letters;
    forall i | 0 <= i < |all|
      ensures ReadAsLetter(cfg, all[i..] + tail) && KindOf(cfg.options, all[i]) in {Unlisted, Plain}
    {
      if i == 0 {
        assert all[0..] + tail == [c] + (letters + tail);
      } else {
        assert all[i..] == letters[i - 1..] && all[i] == letters[i - 1];
      }
    }
  }

  lemma DissectLone(cfg: Config, rest: seq<string>) returns (given: Given)
    requires '-' in cfg.options
    ensures Extra(given) <= rest && ItemOk(cfg, Lone(given), rest[|Extra(given)|..] == [])
  {
    given := if KindOf(cfg.options, '-') == Needs && rest != [] then Following(rest[0]) else Bare;
  }

  /** The first item of an argument list, and what is left. */
  lemma DissectItem(cfg: Config, args: seq<string>) returns (item: Item, more: seq<string>)
    requires args != [] && args[0] != "--"
    ensures args == Spell(item) + more && ItemOk(cfg, item, more == [])
  {
    var arg, rest := args[0], args[1..];
    if arg == "" || arg[0] != '-' || (arg == "-" && '-' !in cfg.options) {
      item, more := Word(arg), rest;
    } else if arg == "-" {
      var given := DissectLone(cfg, rest);
      item, more := Lone(given), rest[|Extra(given)|..];
    } else {
      var letters, tail := DissectElement(cfg, arg[1..], rest);
      item, more := Element(letters, tail), rest[|TailExtra(tail)|..];
      assert arg == "-" + arg[1..] && arg[1..] != "";
      assert arg[1..] == "-" ==> arg == "-" + "-" == "--";
    }
  }

  /** Every argument list spells a command line. */
  lemma {:induction false} Dissect(cfg: Config, args: seq<string>) returns (line: Line)
    ensures LineOk(cfg, line.items, line.end.Some?) && SpellLine(line) == args
    decreases |args|
  {
    if args == [] {
      line := Line([], None);
    } else if args[0] == "--" {
      line := Line([], Some(args[1..]));
    } else {
      var item, more := DissectItem(cfg, args);
      var rest := Dissect(cfg, more);
      line := Line([item] + rest.items, rest.end);
      NothingFollows(rest);
      assert line.items[1..] == rest.items;
      SpellRest(line);
    }
  }

  // ---------- whole runs ----------

  /** What a run on the command line leaves: its reports, and its arguments with the options before the words. */
  ghost predicate Understood(cfg: Config, line: Line, program: seq<string>, reports: seq<Report>, optind: nat,
                             argv: seq<string>)
  {
    AllIndexed(cfg, line.items) &&
    var r := Meaning(cfg, line);
    reports == Seen(r.events, -1, '?' as int) && optind == 1 + |r.opts| && argv == program + r.opts + r.others
  }

  /** Whatever the arguments, they spell a command line, and every command line they spell is understood. */
  method ReadCommandLine(cfg: Config, argv: array<string>)
    returns (reports: seq<Report>, optind: nat, ghost line: Line)
    requires cfg.Valid() && argv.Length >= 1
    modifies argv
    ensures LineOk(cfg, line.items, line.end.Some?) && SpellLine(line) == old(argv[1..])
    ensures forall l: Line :: LineOk(cfg, l.items, l.end.Some?) && SpellLine(l) == old(argv[1..]) ==>
              Understood(cfg, l, old(argv[..1]), reports, optind, argv[..])
  {
    ghost var args := argv[1..];
    line := Dissect(cfg, args);
    forall l: Line | LineOk(cfg, l.items, l.end.Some?) && SpellLine(l) == args
      ensures AllIndexed(cfg, l.items) && ReadArgs(cfg, args) == Meaning(cfg, l)
    {
      LineReads(cfg, l);
    }
    reports, optind := ReadAll(cfg, argv);
  }
}
