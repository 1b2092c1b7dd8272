/** The option scanner of lib/util/getopt_long.c in its permuting mode: a resumable machine over
    `optind`, `place` and the pending block of non-options, against a left-to-right reading of the
    original arguments that never moves anything. */
module Getopt {
  import opened BlockExchange
  import opened Sealing

  datatype Option<T> = None | Some(value: T)

  datatype HasArg = NoArgument | RequiredArgument | OptionalArgument

  /** One row of the long option table; `flag` is the address to store through, 0 for none. */
  datatype LongOption = LongOption(name: string, hasArg: HasArg, flag: nat, val: int)

  datatype Config = Config(options: string, table: seq<LongOption>, longOnly: bool) {
    /** What the scanner asks of its caller: no entry answers with the end marker -1,
        and the option string selects the permuting mode. */
    predicate Valid() {
      (forall i :: 0 <= i < |table| ==> table[i].flag == 0 ==> table[i].val != -1) &&
      (options != "" ==> options[0] != '+' && options[0] != '-')
    }

    /** The answer to a missing or superfluous argument. */
    function BadArg(): int {
      if options != "" && options[0] == ':' then ':' as int else '?' as int
    }
  }

  const BADCH: int := '?' as int

  /** What one call reports: its return value, `optarg`, and `*idx` and `optopt` where it sets them. */
  datatype Event = Event(code: int, arg: Option<string>, index: Option<nat>, optopt: Option<int>)

  /** One option: what is reported, how many arguments it used up, what is left of a cluster. */
  datatype Outcome = Outcome(event: Event, advance: nat, place: string)

  // ---------- reading one option ----------

  /** Position of the first c in s, or |s|. */
  function Find(s: string, c: char): (k: nat)
    ensures k <= |s| && (k < |s| ==> s[k] == c) && c !in s[..k]
  {
    if s == "" then 0
    else if s[0] == c then 0
    else
      var k := 1 + Find(s[1..], c);
      assert s[..k] == [s[0]] + s[1..][..k - 1];
      k
  }

  /** Whether the character at k is c; false past the end. */
  predicate CharAt(s: string, k: nat, c: char) {
    k < |s| && s[k] == c
  }

  predicate Abbreviates(name: string, o: LongOption, shortToo: bool) {
    |name| < |o.name| && o.name[..|name|] == name && !(shortToo && |name| == 1)
  }

  predicate Conflicts(cfg: Config, o: LongOption, p: LongOption) {
    cfg.longOnly || o.hasArg != p.hasArg || o.flag != p.flag || o.val != p.val
  }

  datatype Match = Unknown | Ambiguous | Found(index: nat)

  /** What a long name stands for: the first exact entry; failing that the first entry it abbreviates,
      unless another such entry conflicts with it. */
  ghost predicate Denotes(cfg: Config, name: string, shortToo: bool, m: Match) {
    var t := cfg.table;
    if exists i :: 0 <= i < |t| && t[i].name == name then
      m.Found? && m.index < |t| && t[m.index].name == name && forall i :: 0 <= i < m.index ==> t[i].name != name
    else match m
      case Unknown => forall i :: 0 <= i < |t| ==> !Abbreviates(name, t[i], shortToo)
      case Found(k) => FirstAbbreviated(t, name, shortToo, k) && !HasRival(cfg, name, shortToo, k)
      case Ambiguous =>
        exists k :: 0 <= k < |t| && FirstAbbreviated(t, name, shortToo, k) && HasRival(cfg, name, shortToo, k)
  }

  ghost predicate FirstAbbreviated(t: seq<LongOption>, name: string, shortToo: bool, k: nat) {
    k < |t| && Abbreviates(name, t[k], shortToo) && forall i :: 0 <= i < k ==> !Abbreviates(name, t[i], shortToo)
  }

  ghost predicate HasRival(cfg: Config, name: string, shortToo: bool, k: nat)
    requires k < |cfg.table|
  {
    exists i :: k < i < |cfg.table| && Abbreviates(name, cfg.table[i], shortToo) &&
        Conflicts(cfg, cfg.table[i], cfg.table[k])
  }

  /** A name denotes at most one thing. */
  lemma DenotesOnce(cfg: Config, name: string, shortToo: bool, m: Match, n: Match)
    requires Denotes(cfg, name, shortToo, m) && Denotes(cfg, name, shortToo, n)
    ensures m == n
  {
  }

  ghost function LookUp(cfg: Config, name: string, shortToo: bool): (m: Match)
    ensures (exists n :: Denotes(cfg, name, shortToo, n)) ==> Denotes(cfg, name, shortToo, m)
    ensures m.Found? ==> m.index < |cfg.table|
  {
    if n :| Denotes(cfg, name, shortToo, n) then n else Unknown
  }

  /** The search loop of `parse_long_options`. */
  method SearchTable(cfg: Config, name: string, shortToo: bool) returns (m: Match)
    ensures Denotes(cfg, name, shortToo, m) && m == LookUp(cfg, name, shortToo)
  {
    m := SearchLoop(cfg, name, shortToo);
    DenotesOnce(cfg, name, shortToo, m, LookUp(cfg, name, shortToo));
  }

  method SearchLoop(cfg: Config, name: string, shortToo: bool) returns (m: Match)
    ensures Denotes(cfg, name, shortToo, m)
  {
    var t := cfg.table;
    var found: int := -1;
    var second := false;
    for i := 0 to |t|
      invariant forall j :: 0 <= j < i ==> t[j].name != name
      invariant found == -1 ==> !second && forall j :: 0 <= j < i ==> !Abbreviates(name, t[j], shortToo)
      invariant found != -1 ==> 0 <= found < i && FirstAbbreviated(t, name, shortToo, found)
      invariant found != -1 ==>
          (second <==> exists j :: found < j < i && Abbreviates(name, t[j], shortToo) && Conflicts(cfg, t[j], t[found]))
    {
      if |name| > |t[i].name| || t[i].name[..|name|] != name {
        assert t[i].name != name;
        continue;
      }
      if |t[i].name| == |name| {
        return Found(i);
      }
      if shortToo && |name| == 1 {
        continue;
      }
      assert Abbreviates(name, t[i], shortToo);
      if found == -1 {
        found := i;
      } else if Conflicts(cfg, t[i], t[found]) {
        second := true;
      }
    }
    if second {
      return Ambiguous;
    }
    return if found == -1 then Unknown else Found(found);
  }

  /** The option of table entry k, with what was given after an equals sign. */
  ghost function FoundOutcome(cfg: Config, k: nat, given: Option<string>, rest: seq<string>): (r: Outcome)
    requires k < |cfg.table| && rest != []
    ensures r.place == "" && 1 <= r.advance <= |rest|
    ensures cfg.Valid() ==> r.event.code != -1
  {
    var o := cfg.table[k];
    var code := if o.flag == 0 then o.val else 0;
    match o.hasArg
    case NoArgument =>
      if given.Some? then Outcome(Event(cfg.BadArg(), None, None, Some(code)), 1, "")
      else Outcome(Event(code, None, Some(k), None), 1, "")
    case OptionalArgument => Outcome(Event(code, given, Some(k), None), 1, "")
    case RequiredArgument =>
      if given.Some? then Outcome(Event(code, given, Some(k), None), 1, "")
      else if |rest| > 1 then Outcome(Event(code, Some(rest[1]), Some(k), None), 2, "")
      else Outcome(Event(cfg.BadArg(), None, None, Some(code)), 1, "")
  }

  /** A long option read from `text`, the arguments from the current one on being `rest`.
      None: not a long option after all, when a short one is possible. */
  ghost function LongOutcome(cfg: Config, text: string, rest: seq<string>, shortToo: bool): (r: Option<Outcome>)
    requires rest != []
    ensures !shortToo ==> r.Some?
    ensures r.Some? ==> r.value.place == "" && 1 <= r.value.advance <= |rest|
    ensures cfg.Valid() && r.Some? ==> r.value.event.code != -1
  {
    var eq := Find(text, '=');
    var given := if eq < |text| then Some(text[eq + 1..]) else None;
    match LookUp(cfg, text[..eq], shortToo)
    case Ambiguous => Some(Outcome(Event(BADCH, None, None, Some(0)), 1, ""))
    case Unknown => if shortToo then None else Some(Outcome(Event(BADCH, None, None, Some(0)), 1, ""))
    case Found(k) => Some(FoundOutcome(cfg, k, given, rest))
  }

  /** A short option at the head of `place`. A dash counts as a letter only as the argument "-". */
  ghost function ShortOutcome(cfg: Config, place: string, rest: seq<string>): (r: Outcome)
    requires rest != [] && place != "" && (place[0] == '-' ==> place == "-" && '-' in cfg.options)
    ensures if r.place == "" then 1 <= r.advance <= |rest| else r.advance == 0 && |r.place| < |place|
    ensures cfg.Valid() ==> r.event.code != -1
  {
    var c, tail, k := place[0], place[1..], Find(cfg.options, place[0]);
    var used := if tail == "" then 1 else 0;
    if c == ':' || k == |cfg.options| then
      Outcome(Event(BADCH, None, None, Some(c as int)), used, tail)
    else if c == 'W' && CharAt(cfg.options, k + 1, ';') then
      if tail != "" then LongOutcome(cfg, tail, rest, false).value
      else if |rest| == 1 then Outcome(Event(cfg.BadArg(), None, None, Some(c as int)), 1, "")
      else var o := LongOutcome(cfg, rest[1], rest[1..], false).value; o.(advance := o.advance + 1)
    else if !CharAt(cfg.options, k + 1, ':') then
      Outcome(Event(c as int, None, None, None), used, tail)
    else if tail != "" then
      Outcome(Event(c as int, Some(tail), None, None), 1, "")
    else if CharAt(cfg.options, k + 2, ':') then
      Outcome(Event(c as int, None, None, None), 1, "")
    else if |rest| > 1 then
      Outcome(Event(c as int, Some(rest[1]), None, None), 2, "")
    else
      Outcome(Event(cfg.BadArg(), None, None, Some(c as int)), 1, "")
  }

  /** The next option of the element rest[0], of which `place` is left; `whole` when that is all of it, "-". */
  ghost function OneOption(cfg: Config, place: string, whole: bool, rest: seq<string>): (r: Outcome)
    requires rest != [] && place != "" && (whole ==> place == "-" && '-' in cfg.options)
    ensures if r.place == "" then 1 <= r.advance <= |rest| else r.advance == 0 && |r.place| < |place|
    ensures cfg.Valid() ==> r.event.code != -1
  {
    if whole then ShortOutcome(cfg, place, rest)
    else if place[0] == '-' then LongOutcome(cfg, place[1..], rest, false).value
    else if cfg.longOnly then
      match LongOutcome(cfg, place, rest, place[0] != ':' && place[0] in cfg.options)
      case Some(o) => o
      case None => ShortOutcome(cfg, place, rest)
    else ShortOutcome(cfg, place, rest)
  }

  // ---------- reading the whole argument list, moving nothing ----------

  /** The reports in order; the arguments that are options or option arguments; the others. */
  datatype Reading = Reading(events: seq<Event>, opts: seq<string>, others: seq<string>) {
    function After(events': seq<Event>, opts': seq<string>, others': seq<string>): Reading {
      Reading(events' + events, opts' + opts, others' + others)
    }
  }

  predicate IsNonOption(cfg: Config, arg: string) {
    arg == "" || arg[0] != '-' || (arg == "-" && '-' !in cfg.options)
  }

  /** What is left to read of an element once its leading dash is gone. */
  function FirstPlace(arg: string): string
    requires arg != ""
  {
    if |arg| > 1 then arg[1..] else arg
  }

  ghost function ReadArgs(cfg: Config, args: seq<string>): (r: Reading)
    ensures |r.opts| + |r.others| == |args|
    decreases |args|, 1, 0
  {
    if args == [] then Reading([], [], [])
    else
      if IsNonOption(cfg, args[0]) then ReadArgs(cfg, args[1..]).After([], [], [args[0]])
      else if args[0] == "--" then Reading([], ["--"], args[1..])
      else ReadElement(cfg, FirstPlace(args[0]), |args[0]| == 1, args)
  }

  ghost function ReadElement(cfg: Config, place: string, whole: bool, args: seq<string>): (r: Reading)
    requires args != [] && place != "" && (whole ==> place == "-" && '-' in cfg.options)
    ensures |r.opts| + |r.others| == |args|
    decreases |args|, 0, |place|
  {
    var o := OneOption(cfg, place, whole, args);
    if o.place == "" then
      ReadArgs(cfg, args[o.advance..]).After([o.event], args[..o.advance], [])
    else
      ReadElement(cfg, o.place, false, args).After([o.event], [], [])
  }

  /** args is an interleaving of a and b: each keeps its order and together they lose nothing. */
  ghost predicate Interleaves(a: seq<string>, b: seq<string>, args: seq<string>)
    decreases |args|
  {
    if args == [] then a == [] && b == []
    else (a != [] && a[0] == args[0] && Interleaves(a[1..], b, args[1..])) ||
         (b != [] && b[0] == args[0] && Interleaves(a, b[1..], args[1..]))
  }

  lemma {:induction false} InterleavesPrefix(p: seq<string>, a: seq<string>, b: seq<string>, args: seq<string>)
    requires Interleaves(a, b, args)
    ensures Interleaves(p + a, b, p + args)
    decreases |p|
  {
    if p == [] {
      assert p + a == a && p + args == args;
    } else {
      InterleavesPrefix(p[1..], a, b, args);
      assert (p + a)[1..] == p[1..] + a && (p + args)[1..] == p[1..] + args;
    }
  }

  lemma {:induction false} InterleavesNone(b: seq<string>)
    ensures Interleaves([], b, b)
  {
    if b != [] { InterleavesNone(b[1..]); }
  }

  lemma {:induction false} InterleavesMultiset(a: seq<string>, b: seq<string>, args: seq<string>)
    requires Interleaves(a, b, args)
    ensures multiset(a + b) == multiset(args)
    decreases |args|
  {
    if args != [] {
      assert args == [args[0]] + args[1..];
      if a != [] && a[0] == args[0] && Interleaves(a[1..], b, args[1..]) {
        InterleavesMultiset(a[1..], b, args[1..]);
        assert a + b == [a[0]] + (a[1..] + b);
      } else {
        InterleavesMultiset(a, b[1..], args[1..]);
        assert b == [b[0]] + b[1..];
        assert multiset(a + b) == multiset(a) + multiset(b);
        assert multiset(a + b[1..]) == multiset(a) + multiset(b[1..]);
      }
    }
  }

  /** Options and non-options both keep their original order, and nothing is lost or invented. */
  lemma {:induction false} ReadingKeepsOrder(cfg: Config, args: seq<string>)
    ensures var r := ReadArgs(cfg, args); Interleaves(r.opts, r.others, args)
    decreases |args|, 1, 0
  {
    if args != [] {
      if IsNonOption(cfg, args[0]) {
        ReadingKeepsOrder(cfg, args[1..]);
        var r, r' := ReadArgs(cfg, args[1..]), ReadArgs(cfg, args);
        assert r'.opts == r.opts && r'.others[1..] == r.others;
      } else if args[0] == "--" {
        InterleavesNone(args[1..]);
      } else {
        ElementKeepsOrder(cfg, FirstPlace(args[0]), |args[0]| == 1, args);
      }
    }
  }

  lemma {:induction false} ElementKeepsOrder(cfg: Config, place: string, whole: bool, args: seq<string>)
    requires args != [] && place != "" && (whole ==> place == "-" && '-' in cfg.options)
    ensures var r := ReadElement(cfg, place, whole, args); Interleaves(r.opts, r.others, args)
    decreases |args|, 0, |place|
  {
    var o := OneOption(cfg, place, whole, args);
    if o.place == "" {
      ReadingKeepsOrder(cfg, args[o.advance..]);
      var r := ReadArgs(cfg, args[o.advance..]);
      InterleavesPrefix(args[..o.advance], r.opts, r.others, args[o.advance..]);
      assert args == args[..o.advance] + args[o.advance..];
      assert ReadElement(cfg, place, whole, args).others == r.others;
    } else {
      var r := ReadElement(cfg, o.place, false, args);
      assert ReadElement(cfg, place, whole, args).opts == r.opts &&
          ReadElement(cfg, place, whole, args).others == r.others;
      ElementKeepsOrder(cfg, o.place, false, args);
    }
  }

  /** What is still to be read at argument `i` when `place` is left of its element. */
  ghost function Remaining(cfg: Config, orig: seq<string>, i: nat, place: string, whole: bool): Reading
    requires i <= |orig|
    requires place != "" ==> i < |orig| && (whole ==> place == "-" && '-' in cfg.options)
  {
    if place == "" then ReadArgs(cfg, orig[i..]) else ReadElement(cfg, place, whole, orig[i..])
  }

  /** What is done, followed by what remains at argument i, is everything. */
  ghost predicate Completes(cfg: Config, orig: seq<string>, i: nat, place: string, whole: bool, done: Reading,
                            all: Reading)
    requires i <= |orig|
    requires place != "" ==> i < |orig| && (whole ==> place == "-" && '-' in cfg.options)
  {
    forall k :: Seal(Readings, k) ==>
        all == Remaining(cfg, orig, i, place, whole).After(done.events, done.opts, done.others)
  }

  ghost predicate IsOutcome(o: Outcome, cfg: Config, place: string, whole: bool, rest: seq<string>)
    requires rest != [] && place != "" && (whole ==> place == "-" && '-' in cfg.options)
  {
    forall k :: Seal(Outcomes, k) ==> o == OneOption(cfg, place, whole, rest)
  }

  lemma SkipReads(cfg: Config, orig: seq<string>, i: nat, done: Reading, all: Reading)
    requires i < |orig| && IsNonOption(cfg, orig[i]) && Completes(cfg, orig, i, "", false, done, all)
    ensures Completes(cfg, orig, i + 1, "", false, done.(others := done.others + [orig[i]]), all)
  {
    assert Seal(Readings, 0);
    assert orig[i..][1..] == orig[i + 1..];
  }

  lemma ElementReads(cfg: Config, orig: seq<string>, i: nat, done: Reading, all: Reading)
    requires i < |orig| && !IsNonOption(cfg, orig[i]) && orig[i] != "--"
    requires Completes(cfg, orig, i, "", false, done, all)
    ensures Completes(cfg, orig, i, FirstPlace(orig[i]), |orig[i]| == 1, done, all)
  {
    assert Seal(Readings, 0);
  }

  lemma DashesRead(cfg: Config, orig: seq<string>, i: nat, done: Reading, all: Reading)
    requires i < |orig| && orig[i] == "--" && Completes(cfg, orig, i, "", false, done, all)
    ensures all == Reading(done.events, done.opts + ["--"], done.others + orig[i + 1..])
  {
    assert Seal(Readings, 0);
    assert orig[i..][1..] == orig[i + 1..];
  }

  lemma EndReads(cfg: Config, orig: seq<string>, done: Reading, all: Reading)
    requires Completes(cfg, orig, |orig|, "", false, done, all)
    ensures all == done
  {
    assert Seal(Readings, 0);
  }

  lemma AfterAfter(r: Reading, e: Event, opts: seq<string>, done: Reading)
    ensures r.After([e], opts, []).After(done.events, done.opts, done.others)
         == r.After(done.events + [e], done.opts + opts, done.others)
  {
  }

  lemma ElementStep(cfg: Config, orig: seq<string>, i: nat, place: string, whole: bool, o: Outcome)
    requires i < |orig| && place != "" && (whole ==> place == "-" && '-' in cfg.options)
    requires o == OneOption(cfg, place, whole, orig[i..])
    ensures i + o.advance <= |orig| && (o.place != "" ==> o.advance == 0)
    ensures ReadElement(cfg, place, whole, orig[i..])
         == Remaining(cfg, orig, i + o.advance, o.place, false).After([o.event], orig[i..i + o.advance], [])
  {
    if o.place == "" {
      assert orig[i..][o.advance..] == orig[i + o.advance..];
      assert orig[i..][..o.advance] == orig[i..i + o.advance];
    }
  }

  lemma OptionReads(cfg: Config, orig: seq<string>, i: nat, place: string, whole: bool, done: Reading, all: Reading,
                    o: Outcome)
    requires i < |orig| && place != "" && (whole ==> place == "-" && '-' in cfg.options)
    requires Completes(cfg, orig, i, place, whole, done, all) && IsOutcome(o, cfg, place, whole, orig[i..])
    ensures (o.place == "" ==> o.advance > 0) && (o.place != "" ==> o.advance == 0) && i + o.advance <= |orig|
    ensures cfg.Valid() ==> o.event.code != -1
    ensures Completes(cfg, orig, i + o.advance, o.place, false,
                      Reading(done.events + [o.event], done.opts + orig[i..i + o.advance], done.others), all)
  {
    assert Seal(Readings, 0) && Seal(Outcomes, 0);
    ElementStep(cfg, orig, i, place, whole, o);
    AfterAfter(Remaining(cfg, orig, i + o.advance, o.place, false), o.event, orig[i..i + o.advance], done);
  }

  // ---------- where the arguments are during a run ----------

  /** The pending block of non-options: none (-1, -1), still open (start, -1), or followed by options. */
  predicate Block(from: nat, start: int, stop: int, end: nat) {
    from <= end &&
    if start == -1 then stop == -1
    else from <= start < end && (stop == -1 || start < stop <= end)
  }

  /** The arguments between `from` and `end` are the options read with the pending block among them;
      those outside are where they were. */
  ghost predicate Contents(orig: seq<string>, a: seq<string>, from: nat, start: int, stop: int, end: nat,
                           opts: seq<string>, others: seq<string>)
    requires |a| == |orig| && end <= |a| && Block(from, start, stop, end)
  {
    a[..from] == orig[..from] && a[end..] == orig[end..] &&
    if start == -1 then others == [] && a[from..end] == opts
    else if stop == -1 then a[from..start] == opts && a[start..end] == others
    else a[from..start] + a[stop..end] == opts && a[start..stop] == others
  }

  ghost predicate Layout(orig: seq<string>, a: seq<string>, from: nat, start: int, stop: int, end: nat,
                         opts: seq<string>, others: seq<string>) {
    |a| == |orig| && 1 <= from && end <= |a| && Block(from, start, stop, end) &&
    forall k :: Seal(Layouts, k) ==> Contents(orig, a, from, start, stop, end, opts, others)
  }

  lemma EmptyLayout(orig: seq<string>, from: nat)
    requires 1 <= from <= |orig|
    ensures Layout(orig, orig, from, -1, -1, from, [], [])
  {
  }

  lemma NextIsOriginal(orig: seq<string>, a: seq<string>, from: nat, start: int, stop: int, end: nat, opts: seq<string>,
                       others: seq<string>)
    requires Layout(orig, a, from, start, stop, end, opts, others)
    ensures a[end..] == orig[end..] && (end < |a| ==> a[end] == orig[end])
  {
    assert Seal(Layouts, 0);
    assert end < |a| ==> a[end] == a[end..][0];
  }

  /** Exchanging the pending block with the options after it leaves it pending at the end. */
  lemma GatherLayout(orig: seq<string>, a: seq<string>, from: nat, start: int, stop: int, end: nat, opts: seq<string>,
                     others: seq<string>)
    requires Layout(orig, a, from, start, stop, end, opts, others) && start != -1 && start < stop < end
    ensures Layout(orig, Exchanged(a, start, stop, end), from, end - (stop - start), -1, end, opts, others)
  {
    assert Seal(Layouts, 0);
    var r := Exchanged(a, start, stop, end);
    var k := end - (stop - start);
    assert r[from..k] == a[from..start] + a[stop..end];
    assert r[k..end] == a[start..stop];
    assert r[..from] == a[..from] && r[end..] == a[end..];
  }

  lemma ExtendLayout(orig: seq<string>, a: seq<string>, from: nat, start: int, end: nat, opts: seq<string>,
                     others: seq<string>)
    requires Layout(orig, a, from, start, -1, end, opts, others) && end < |a|
    ensures Layout(orig, a, from, if start == -1 then end else start, -1, end + 1, opts, others + [orig[end]])
  {
    NextIsOriginal(orig, a, from, start, -1, end, opts, others);
    assert Seal(Layouts, 0);
    assert a[end + 1..] == a[end..][1..] && orig[end + 1..] == orig[end..][1..];
    if start == -1 {
      assert a[end..end + 1] == [a[end]];
    } else {
      assert a[start..end + 1] == a[start..end] + [a[end]];
    }
  }

  /** The first option after the pending block closes it. */
  lemma CloseLayout(orig: seq<string>, a: seq<string>, from: nat, start: int, end: nat, opts: seq<string>,
                    others: seq<string>)
    requires Layout(orig, a, from, start, -1, end, opts, others) && start != -1
    ensures Layout(orig, a, from, start, end, end, opts, others)
  {
    assert Seal(Layouts, 0);
  }

  /** An option and its arguments join the options. */
  lemma ConsumeLayout(orig: seq<string>, a: seq<string>, from: nat, start: int, stop: int, end: nat, n: nat,
                      opts: seq<string>, others: seq<string>)
    requires Layout(orig, a, from, start, stop, end, opts, others) && (start == -1 || stop != -1) && end + n <= |a|
    ensures Layout(orig, a, from, start, stop, end + n, opts + orig[end..end + n], others)
  {
    assert Seal(Layouts, 0);
    assert a[end..end + n] == a[end..][..n] == orig[end..][..n] == orig[end..end + n];
    assert a[end + n..] == a[end..][n..] && orig[end + n..] == orig[end..][n..];
    if start == -1 {
      assert a[from..end + n] == a[from..end] + a[end..end + n];
    } else {
      assert a[stop..end + n] == a[stop..end] + a[end..end + n];
    }
  }

  lemma SettledLayout(orig: seq<string>, a: seq<string>, from: nat, start: int, end: nat, opts: seq<string>,
                      others: seq<string>)
    requires Layout(orig, a, from, start, -1, end, opts, others)
    ensures a == orig[..from] + opts + (others + orig[end..])
    ensures (if start == -1 then end else start) == from + |opts|
  {
    assert Seal(Layouts, 0);
    var k := if start == -1 then end else start;
    assert a == a[..from] + a[from..k] + a[k..end] + a[end..];
  }

  lemma ConsumeKeeps(cfg: Config, orig: seq<string>, from: nat, a: seq<string>, i: nat, place: string, whole: bool,
                     start: int, stop: int, all: Reading, done: Reading, o: Outcome, next: Reading)
    requires Layout(orig, a, from, start, stop, i, done.opts, done.others) && (start == -1 || stop != -1)
    requires i < |a| && place != "" && (whole ==> place == "-" && '-' in cfg.options)
    requires Completes(cfg, orig, i, place, whole, done, all) && IsOutcome(o, cfg, place, whole, a[i..])
    requires i + o.advance <= |a|
    requires next == Reading(done.events + [o.event], done.opts + orig[i..i + o.advance], done.others)
    ensures (o.place == "" ==> o.advance > 0) && (o.place != "" ==> i + o.advance < |a|)
    ensures cfg.Valid() ==> o.event.code != -1
    ensures Layout(orig, a, from, start, stop, i + o.advance, next.opts, next.others)
    ensures Completes(cfg, orig, i + o.advance, o.place, false, next, all)
  {
    NextIsOriginal(orig, a, from, start, stop, i, done.opts, done.others);
    OptionReads(cfg, orig, i, place, whole, done, all, o);
    ConsumeLayout(orig, a, from, start, stop, i, o.advance, done.opts, done.others);
  }

  // ---------- the scanner ----------

  class Scanner {
    const cfg: Config
    const argv: array<string>
    var optind: nat
    var optreset: bool
    var place: string
    var nonoptStart: int
    var nonoptEnd: int
    var optarg: Option<string>
    var optopt: int
    var index: int
    // where the run began, the arguments then, their reading, and the part of it the run has done
    ghost var from: nat
    ghost var orig: seq<string>
    ghost var all: Reading
    ghost var done: Reading

    constructor (cfg: Config, argv: array<string>)
      requires cfg.Valid() && argv.Length >= 1
      ensures this.cfg == cfg && this.argv == argv && Running()
      ensures from == 1 && orig == argv[..] && all == ReadArgs(cfg, argv[1..]) && done == Reading([], [], [])
      ensures index == -1 && optopt == '?' as int
    {
      this.cfg, this.argv := cfg, argv;
      optind, optreset, place := 1, false, "";
      nonoptStart, nonoptEnd := -1, -1;
      optarg, optopt, index := None, '?' as int, -1;
      from, orig, all, done := 1, argv[..], ReadArgs(cfg, argv[1..]), Reading([], [], []);
      new;
      EmptyLayout(orig, from);
    }

    /** The arguments already read are laid out as options and pending non-options; the others are untouched. */
    ghost predicate Placed()
      reads this, argv
    {
      cfg.Valid() && Layout(orig, argv[..], from, nonoptStart, nonoptEnd, optind, done.opts, done.others)
    }

    /** Moves the pending block up to optind, past the options read since it began. */
    method Gather() returns (first: int)
      requires Placed() && -1 != nonoptEnd < optind
      modifies argv
      ensures first == optind - (nonoptEnd - nonoptStart)
      ensures Layout(orig, argv[..], from, first, -1, optind, done.opts, done.others)
    {
      GatherLayout(orig, argv[..], from, nonoptStart, nonoptEnd, optind, done.opts, done.others);
      PermuteArgs(argv, nonoptStart, nonoptEnd, optind);
      first := optind - (nonoptEnd - nonoptStart);
    }

    /** A non-option: it joins the pending block, which first moves up to it past the options read since. */
    method SkipNonOption()
      requires Placed() && optind < argv.Length && nonoptEnd < optind
      modifies this`optind, this`nonoptStart, this`nonoptEnd, this`done, argv
      ensures Placed() && optind == old(optind) + 1 && nonoptEnd == -1
      ensures done == old(done.(others := done.others + [orig[optind]]))
    {
      ghost var s := nonoptStart;
      if nonoptStart == -1 {
        nonoptStart := optind;
      } else if nonoptEnd != -1 {
        nonoptStart := Gather();
        nonoptEnd := -1;
        s := nonoptStart;
      }
      ExtendLayout(orig, argv[..], from, s, optind, done.opts, done.others);
      done := done.(others := done.others + [orig[optind]]);
      optind := optind + 1;
    }

    /** End of the run: the pending block goes last, and optind points at it. */
    method Settle()
      requires Placed() && nonoptEnd < optind
      modifies this`optind, this`nonoptStart, this`nonoptEnd, argv
      ensures argv[..] == orig[..from] + done.opts + (done.others + orig[old(optind)..])
      ensures optind == from + |done.opts| && nonoptStart == -1 && nonoptEnd == -1
    {
      ghost var end, start := optind, nonoptStart;
      if nonoptEnd != -1 {
        optind := Gather();
        start := optind;
      } else if nonoptStart != -1 {
        optind := nonoptStart;
      }
      SettledLayout(orig, argv[..], from, start, end, done.opts, done.others);
      nonoptStart, nonoptEnd := -1, -1;
    }

    /** What a call reported; `*idx` and `optopt` keep their values unless set. */
    twostate predicate Reported(e: Event)
      reads this
    {
      optarg == e.arg &&
      index == (match e.index case Some(i) => i case None => old(index)) &&
      optopt == (match e.optopt case Some(c) => c case None => old(optopt))
    }

    /** The part of `parse_long_options` from where an option is found; `optind` is past its element. */
    method ParseFound(k: nat, given: Option<string>) returns (code: int)
      requires k < |cfg.table| && 0 < optind <= argv.Length && optarg == None
      modifies this`optind, this`optarg, this`optopt, this`index
      ensures var o := FoundOutcome(cfg, k, given, argv[old(optind) - 1..]);
              code == o.event.code && optind == old(optind) - 1 + o.advance && Reported(o.event)
    {
      var o := cfg.table[k];
      if o.hasArg == NoArgument && given.Some? {
        optopt := if o.flag == 0 then o.val else 0;
        return cfg.BadArg();
      }
      if o.hasArg != NoArgument {
        if given.Some? {
          optarg := given;
        } else if o.hasArg == RequiredArgument {
          // argv[argc] is null
          optarg := if optind < argv.Length then Some(argv[optind]) else None;
          optind := optind + 1;
        }
      }
      if o.hasArg == RequiredArgument && optarg == None {
        optopt := if o.flag == 0 then o.val else 0;
        optind := optind - 1;
        return cfg.BadArg();
      }
      index := k;
      return if o.flag != 0 then 0 else o.val;
    }

    /** The source's `parse_long_options`. */
    method ParseLong(shortToo: bool) returns (code: int)
      requires optind < argv.Length && optarg == None
      modifies this`optind, this`optarg, this`optopt, this`index
      ensures match LongOutcome(cfg, place, argv[old(optind)..], shortToo)
              case Some(o) => code == o.event.code && optind == old(optind) + o.advance && Reported(o.event)
              case None => code == -1 && unchanged(this)
    {
      optind := optind + 1;
      var eq := Find(place, '=');
      var hasEqual := eq < |place|;
      var m := SearchTable(cfg, place[..eq], shortToo);
      match m {
        case Ambiguous =>
          optopt := 0;
          return BADCH;
        case Unknown =>
          if shortToo {
            optind := optind - 1;
            return -1;
          }
          optopt := 0;
          return BADCH;
        case Found(k) =>
          code := ParseFound(k, if hasEqual then Some(place[eq + 1..]) else None);
      }
    }

    /** The short option part of `getopt_internal`. */
    method ParseShort() returns (code: int)
      requires optind < argv.Length && optarg == None
      requires place != "" && (place[0] == '-' ==> place == "-" && '-' in cfg.options)
      modifies this`optind, this`place, this`optarg, this`optopt, this`index
      ensures var o := ShortOutcome(cfg, old(place), argv[old(optind)..]);
              code == o.event.code && optind == old(optind) + o.advance && place == o.place && Reported(o.event)
    {
      var c := place[0];
      place := place[1..];
      var k := Find(cfg.options, c);
      if c == ':' || (c == '-' && place != "") || k == |cfg.options| {
        if place == "" {
          optind := optind + 1;
        }
        optopt := c as int;
        return BADCH;
      }
      if c == 'W' && CharAt(cfg.options, k + 1, ';') {
        if place == "" {
          optind := optind + 1;
          if optind >= argv.Length {
            optopt := c as int;
            return cfg.BadArg();
          }
          place := argv[optind];
        }
        code := ParseLong(false);
        place := "";
        return;
      }
      if !CharAt(cfg.options, k + 1, ':') {
        if place == "" {
          optind := optind + 1;
        }
      } else {
        if place != "" {
          optarg := Some(place);
        } else if !CharAt(cfg.options, k + 2, ':') {
          optind := optind + 1;
          if optind >= argv.Length {
            optopt := c as int;
            return cfg.BadArg();
          }
          optarg := Some(argv[optind]);
        }
        place := "";
        optind := optind + 1;
      }
      return c as int;
    }

    /** From the long option test of `getopt_internal` to its end. */
    method ParseOption(whole: bool) returns (code: int, ghost o: Outcome)
      requires cfg.Valid() && optind < argv.Length && optarg == None
      requires place != "" && (whole ==> place == "-" && '-' in cfg.options)
      modifies this`optind, this`place, this`optarg, this`optopt, this`index
      ensures IsOutcome(o, cfg, old(place), whole, argv[old(optind)..])
      ensures code == o.event.code && optind == old(optind) + o.advance <= argv.Length && place == o.place
      ensures Reported(o.event)
    {
      o := OneOption(cfg, place, whole, argv[optind..]);
      if !whole && (place[0] == '-' || cfg.longOnly) {
        var shortToo := false;
        if place[0] == '-' {
          place := place[1..];
        } else if place[0] != ':' && place[0] in cfg.options {
          shortToo := true;
        }
        code := ParseLong(shortToo);
        if code != -1 {
          place := "";
          return;
        }
      }
      code := ParseShort();
    }

    /** What has been read, followed by what remains, is the reading of the original arguments. */
    ghost predicate Reads(whole: bool)
      reads this, argv
      requires Placed()
    {
      (place != "" ==> optind < |orig| && (whole ==> place == "-" && '-' in cfg.options)) &&
      Completes(cfg, orig, optind, place, whole, done, all)
    }

    /** Between two calls of a run. */
    ghost predicate Running()
      reads this, argv
    {
      !optreset && Placed() && Reads(false) &&
      if place == "" then nonoptEnd < optind else nonoptStart == -1 || nonoptEnd != -1
    }

    /** After the run: options first, in order, then everything else, in order. */
    ghost predicate Finished()
      reads this, argv
    {
      1 <= from <= |orig| == argv.Length && place == "" && nonoptStart == -1 && nonoptEnd == -1 &&
      argv[..] == orig[..from] + all.opts + all.others && optind == from + |all.opts| && done.events == all.events
    }

    /** Skipping a non-option keeps the run going. */
    method SkipArgument()
      requires Running() && place == "" && optind < argv.Length && IsNonOption(cfg, argv[optind])
      modifies this`optind, this`nonoptStart, this`nonoptEnd, this`done, argv
      ensures Running() && optind == old(optind) + 1 && done.events == old(done.events)
    {
      NextIsOriginal(orig, argv[..], from, nonoptStart, nonoptEnd, optind, done.opts, done.others);
      SkipReads(cfg, orig, optind, done, all);
      SkipNonOption();
    }

    /** The end of the argument vector. */
    method FinishAtEnd()
      requires Running() && place == "" && optind == argv.Length
      modifies this`optind, this`nonoptStart, this`nonoptEnd, argv
      ensures Finished()
    {
      EndReads(cfg, orig, done, all);
      Settle();
    }

    /** The argument "--": an option itself, and everything after it is not. */
    method FinishAtDashes()
      requires Placed() && place == "" && Reads(false) && optind < argv.Length && argv[optind] == "--"
      requires nonoptStart == -1 || nonoptEnd != -1
      modifies this`optind, this`nonoptStart, this`nonoptEnd, this`done, argv
      ensures Finished() && done.events == old(done.events)
    {
      NextIsOriginal(orig, argv[..], from, nonoptStart, nonoptEnd, optind, done.opts, done.others);
      DashesRead(cfg, orig, optind, done, all);
      ConsumeLayout(orig, argv[..], from, nonoptStart, nonoptEnd, optind, 1, done.opts, done.others);
      assert orig[optind..optind + 1] == ["--"] && optind + 1 <= |orig|;
      done := done.(opts := done.opts + ["--"]);
      optind := optind + 1;
      Settle();
    }

    /** From the label `start` on: skip non-options up to the next option element, or end the run. */
    method FetchElement() returns (more: bool, whole: bool)
      requires Running() && place == ""
      modifies this`optind, this`place, this`nonoptStart, this`nonoptEnd, this`done, argv
      ensures done.events == old(done.events)
      ensures if more then Placed() && place != "" && Reads(whole) && (nonoptStart == -1 || nonoptEnd != -1)
              else Finished()
    {
      while optind < argv.Length && IsNonOption(cfg, argv[optind])
        invariant Running() && place == "" && done.events == old(done.events)
        decreases argv.Length - optind
      {
        SkipArgument();
      }
      if optind >= argv.Length {
        FinishAtEnd();
        return false, false;
      }
      if nonoptStart != -1 && nonoptEnd == -1 {
        CloseLayout(orig, argv[..], from, nonoptStart, optind, done.opts, done.others);
        nonoptEnd := optind;
      }
      if argv[optind] == "--" {
        FinishAtDashes();
        return false, false;
      }
      NextIsOriginal(orig, argv[..], from, nonoptStart, nonoptEnd, optind, done.opts, done.others);
      ElementReads(cfg, orig, optind, done, all);
      place := FirstPlace(argv[optind]);
      return true, |argv[optind]| == 1;
    }

    /** Reading one option of the current element keeps the run going. */
    method ConsumeOption(whole: bool) returns (code: int, ghost e: Event)
      requires !optreset && Placed() && place != "" && Reads(whole) && (nonoptStart == -1 || nonoptEnd != -1)
      requires optarg == None
      modifies this`optind, this`place, this`optarg, this`optopt, this`index, this`done
      ensures Running() && e.code == code != -1 && Reported(e) && done.events == old(done.events) + [e]
    {
      ghost var i, place0, a, done0 := optind, place, argv[..], done;
      ghost var o;
      code, o := ParseOption(whole);
      e := o.event;
      done := Reading(done.events + [e], done.opts + orig[i..optind], done.others);
      assert argv[..] == a && argv[i..] == a[i..];
      ConsumeKeeps(cfg, orig, from, a, i, place0, whole, nonoptStart, nonoptEnd, all, done0, o, done);
    }

    /** One call in the middle of a run. */
    method Continue() returns (code: int, ghost e: Option<Event>)
      requires Running()
      modifies this`optind, this`place, this`nonoptStart, this`nonoptEnd, this`optarg, this`optopt, this`index,
          this`done, argv
      ensures match e
              case None => code == -1 && Finished() && done.events == old(done.events)
              case Some(e) => Running() && e.code == code != -1 && Reported(e) && done.events == old(done.events) + [e]
    {
      optarg := None;
      var more, whole := true, false;
      if place == "" {
        more, whole := FetchElement();
      }
      if more {
        ghost var v;
        code, v := ConsumeOption(whole);
        e := Some(v);
      } else {
        code, e := -1, None;
      }
    }

    lemma DoneWithinAll()
      requires Running()
      ensures |done.events| <= |all.events|
    {
      assert Seal(Readings, 0);
    }

    /** A restart has been asked for, through `optreset` or by setting optind to 0. */
    ghost predicate Restarting()
      reads this
    {
      cfg.Valid() && 1 <= argv.Length && optind <= argv.Length && (optreset || optind == 0)
    }

    /** The first statements of `getopt_internal`: honour a restart. */
    method Restart()
      requires Restarting()
      modifies this
      ensures Running() && from == (if old(optind) == 0 then 1 else old(optind)) && orig == argv[..]
      ensures all == ReadArgs(cfg, argv[from..]) && done == Reading([], [], [])
      ensures optopt == old(optopt) && index == old(index)
    {
      if optind == 0 {
        optind := 1;
      }
      optreset, place := false, "";
      nonoptStart, nonoptEnd := -1, -1;
      from, orig, all, done := optind, argv[..], ReadArgs(cfg, argv[optind..]), Reading([], [], []);
      EmptyLayout(orig, from);
    }

    /** One call of `getopt_long`. */
    method Next() returns (code: int, ghost e: Option<Event>)
      requires Running() || Restarting()
      modifies this, argv
      ensures old(!Restarting()) ==> from == old(from) && orig == old(orig) && all == old(all)
      ensures old(Restarting()) ==>
        from == (if old(optind) == 0 then 1 else old(optind)) && orig == old(argv[..]) &&
        all == ReadArgs(cfg, orig[from..])
      ensures var before := if old(Restarting()) then [] else old(done.events);
        match e
        case None => code == -1 && Finished() && done.events == before
        case Some(e) => Running() && e.code == code != -1 && Reported(e) && done.events == before + [e]
    {
      if optreset || optind == 0 {
        Restart();
      }
      code, e := Continue();
    }
  }

  /** What the caller finds after a call: the answer, `optarg`, `*idx` and `optopt`. */
  datatype Report = Report(code: int, arg: Option<string>, index: int, optopt: int)

  /** `*idx` and `optopt` keep their values unless set. */
  function See(e: Event, index: int, optopt: int): Report {
    Report(e.code, e.arg, if e.index.Some? then e.index.value else index,
           if e.optopt.Some? then e.optopt.value else optopt)
  }

  function Seen(events: seq<Event>, index: int, optopt: int): (r: seq<Report>)
    ensures |r| == |events|
  {
    if events == [] then []
    else var r := See(events[0], index, optopt); [r] + Seen(events[1..], r.index, r.optopt)
  }

  /** The values that the last report leaves. */
  function LastIndex(reports: seq<Report>, index: int): int {
    if reports == [] then index else reports[|reports| - 1].index
  }

  function LastOptopt(reports: seq<Report>, optopt: int): int {
    if reports == [] then optopt else reports[|reports| - 1].optopt
  }

  lemma {:induction false} SeenSnoc(events: seq<Event>, e: Event, index: int, optopt: int)
    ensures var r := Seen(events, index, optopt);
            Seen(events + [e], index, optopt) == r + [See(e, LastIndex(r, index), LastOptopt(r, optopt))]
    decreases |events|
  {
    if events != [] {
      var r := See(events[0], index, optopt);
      SeenSnoc(events[1..], e, r.index, r.optopt);
      assert (events + [e])[1..] == events[1..] + [e];
    }
  }

  /** The final arrangement is a permutation of the original that keeps the order on both sides. */
  lemma RunIsStable(cfg: Config, a: seq<string>, b: seq<string>)
    requires |a| >= 1
    requires var r := ReadArgs(cfg, a[1..]); b == a[..1] + r.opts + r.others
    ensures var k := 1 + |ReadArgs(cfg, a[1..]).opts|;
            multiset(b) == multiset(a) && k <= |b| && Interleaves(b[1..k], b[k..], a[1..])
  {
    var r := ReadArgs(cfg, a[1..]);
    ReadingKeepsOrder(cfg, a[1..]);
    InterleavesMultiset(r.opts, r.others, a[1..]);
    assert a == a[..1] + a[1..] && b == a[..1] + (r.opts + r.others);
    assert b[1..1 + |r.opts|] == r.opts && b[1 + |r.opts|..] == r.others;
  }

  /** A whole run, as callers write it: call until the answer is -1. The reports are those of a reading that
      moves nothing; afterwards the options with their arguments come first and the rest follows, each in its
      original order, with optind at the first of the rest. */
  method ReadAll(cfg: Config, argv: array<string>) returns (reports: seq<Report>, optind: nat)
    requires cfg.Valid() && argv.Length >= 1
    modifies argv
    ensures var r := ReadArgs(cfg, old(argv[1..]));
            reports == Seen(r.events, -1, '?' as int) && optind == 1 + |r.opts| &&
            argv[..] == old(argv[..1]) + r.opts + r.others
    ensures multiset(argv[..]) == multiset(old(argv[..]))
    ensures Interleaves(argv[1..optind], argv[optind..], old(argv[1..]))
  {
    var s := new Scanner(cfg, argv);
    ghost var all := s.all;
    reports := [];
    var code := 0;
    while code != -1
      invariant s.argv == argv && s.cfg == cfg && s.all == all && s.from == 1 && s.orig == old(argv[..])
      invariant |s.done.events| <= |all.events| && reports == Seen(s.done.events, -1, '?' as int)
      invariant code != -1 ==> s.index == LastIndex(reports, -1) && s.optopt == LastOptopt(reports, '?' as int)
      invariant if code == -1 then s.Finished() else s.Running()
      decreases if code == -1 then 0 else 1, |all.events| - |s.done.events|
    {
      ghost var before := s.done.events;
      ghost var e;
      code, e := s.Next();
      if code != -1 {
        SeenSnoc(before, e.value, -1, '?' as int);
        reports := reports + [Report(code, s.optarg, s.index, s.optopt)];
        s.DoneWithinAll();
      }
    }
    optind := s.optind;
    RunIsStable(cfg, old(argv[..]), argv[..]);
  }
}
