/** The section tracker of lib/catch.hpp: a test case is run again and again, one path of sections a time,
    until every section has been executed. */
module Sections {
  import opened Sealing

  /** A test case or a section, with the sections its body contains in document order. */
  datatype Section = Section(name: string, children: seq<Section>)

  datatype CycleState = NotStarted | Executing | ExecutingChildren | NeedsAnotherRun | CompletedSuccessfully | Failed

  datatype Tracker = Tracker(name: string, state: CycleState, children: seq<Tracker>) {
    predicate IsComplete() {
      state == CompletedSuccessfully || state == Failed
    }

    predicate IsOpen() {
      state != NotStarted && !IsComplete()
    }
  }

  /** Sections of one body are told apart by their names. */
  predicate DistinctNames(s: Section) {
    (forall i, j :: 0 <= i < j < |s.children| ==> s.children[i].name != s.children[j].name) &&
    (forall i :: 0 <= i < |s.children| ==> DistinctNames(s.children[i]))
  }

  // ---------- leaves and paths ----------

  function Leaves(s: Section): (n: nat)
    ensures n >= 1
    decreases s, |s.children| + 1
  {
    if s.children == [] then 1 else Before(s, |s.children|)
  }

  /** Leaves in the first i children. */
  function Before(s: Section, i: nat): (n: nat)
    requires i <= |s.children|
    ensures i > 0 ==> n >= 1
    decreases s, i
  {
    if i == 0 then 0 else Before(s, i - 1) + Leaves(s.children[i - 1])
  }

  lemma {:induction false} BeforeMonotone(s: Section, i: nat, j: nat)
    requires i < j <= |s.children|
    ensures Before(s, i) + Leaves(s.children[i]) <= Before(s, j)
    decreases j
  {
    if i + 1 < j { BeforeMonotone(s, i, j - 1); }
  }

  /** The names from s down to its leaf number k. */
  function PathTo(s: Section, k: nat): seq<string>
    requires k < Leaves(s)
    decreases s, |s.children| + 1
  {
    [s.name] + if s.children == [] then [] else PathWithin(s, |s.children|, k)
  }

  /** The same among the first i children. */
  function PathWithin(s: Section, i: nat, k: nat): seq<string>
    requires i <= |s.children| && k < Before(s, i)
    decreases s, i
  {
    if k >= Before(s, i - 1) then PathTo(s.children[i - 1], k - Before(s, i - 1)) else PathWithin(s, i - 1, k)
  }

  /** The child that leaf k lies in. */
  lemma {:induction false} ChildOfLeaf(s: Section, i: nat, k: nat) returns (c: nat)
    requires i <= |s.children| && k < Before(s, i)
    ensures c < i && Before(s, c) <= k < Before(s, c) + Leaves(s.children[c])
    ensures PathWithin(s, i, k) == PathTo(s.children[c], k - Before(s, c))
    decreases i
  {
    if k >= Before(s, i - 1) { c := i - 1; } else { c := ChildOfLeaf(s, i - 1, k); }
  }

  /** Different leaves have different paths: listing every path once is executing every leaf once. */
  lemma {:induction false} PathsDiffer(s: Section, j: nat, k: nat)
    requires DistinctNames(s) && j < k < Leaves(s)
    ensures PathTo(s, j) != PathTo(s, k)
    decreases s
  {
    var n := |s.children|;
    var c := ChildOfLeaf(s, n, j);
    var d := ChildOfLeaf(s, n, k);
    var p, q := PathTo(s.children[c], j - Before(s, c)), PathTo(s.children[d], k - Before(s, d));
    assert PathTo(s, j)[1..] == p && PathTo(s, k)[1..] == q;
    if c == d {
      PathsDiffer(s.children[c], j - Before(s, c), k - Before(s, c));
    } else {
      assert p[0] == s.children[c].name != s.children[d].name == q[0];
    }
  }

  /** Every root-to-leaf path, listed depth first: the order of the document. */
  function AllPaths(s: Section): seq<seq<string>>
    decreases s, |s.children| + 1
  {
    if s.children == [] then [[s.name]] else PathsWithin(s, |s.children|)
  }

  function PathsWithin(s: Section, i: nat): seq<seq<string>>
    requires i <= |s.children|
    decreases s, i
  {
    if i == 0 then [] else PathsWithin(s, i - 1) + Under(s.name, AllPaths(s.children[i - 1]))
  }

  function Under(name: string, paths: seq<seq<string>>): (r: seq<seq<string>>)
    ensures |r| == |paths|
    ensures forall i :: 0 <= i < |r| ==> r[i] == [name] + paths[i]
  {
    seq(|paths|, i requires 0 <= i < |paths| => [name] + paths[i])
  }

  /** Leaf number k is the end of the k-th path. */
  lemma {:induction false} PathsInOrder(s: Section)
    ensures |AllPaths(s)| == Leaves(s)
    ensures forall k :: 0 <= k < Leaves(s) ==> AllPaths(s)[k] == PathTo(s, k)
    decreases s, |s.children| + 1
  {
    if s.children != [] {
      PathsWithinInOrder(s, |s.children|);
    }
  }

  lemma {:induction false} PathsWithinInOrder(s: Section, i: nat)
    requires i <= |s.children|
    ensures |PathsWithin(s, i)| == Before(s, i)
    ensures forall k :: 0 <= k < Before(s, i) ==> PathsWithin(s, i)[k] == [s.name] + PathWithin(s, i, k)
    decreases s, i
  {
    if i > 0 {
      PathsWithinInOrder(s, i - 1);
      PathsInOrder(s.children[i - 1]);
    }
  }

  // ---------- the trackers after d leaves ----------

  function Clamp(d: int, top: nat): (r: nat)
    ensures r <= top
  {
    if d < 0 then 0 else if d > top then top else d
  }

  /** The tracker of s once d of its leaves have been executed. */
  function TrackerOf(s: Section, d: nat): (t: Tracker)
    requires d <= Leaves(s)
    ensures t.name == s.name
    decreases s
  {
    if d == 0 then Tracker(s.name, NotStarted, [])
    else Tracker(s.name, if d == Leaves(s) then CompletedSuccessfully else ExecutingChildren,
                 seq(|s.children|, i requires 0 <= i < |s.children| => TrackerOf(s.children[i],
                     Clamp(d - Before(s, i), Leaves(s.children[i])))))
  }

  function Kid(s: Section, d: nat, i: nat): Tracker
    requires i < |s.children|
  {
    TrackerOf(s.children[i], Clamp(d - Before(s, i), Leaves(s.children[i])))
  }

  function Kids(s: Section, d: nat): (r: seq<Tracker>)
    ensures |r| == |s.children|
    ensures forall i :: 0 <= i < |r| ==> r[i] == Kid(s, d, i)
  {
    seq(|s.children|, i requires 0 <= i < |s.children| => Kid(s, d, i))
  }

  lemma KidsOf(s: Section, d: nat)
    requires 0 < d <= Leaves(s)
    ensures TrackerOf(s, d).children == Kids(s, d)
  {
  }

  /** The last section of a body is complete exactly when the whole body is. */
  lemma LastKid(s: Section, d: nat)
    requires s.children != [] && d <= Leaves(s)
    ensures Kid(s, d, |s.children| - 1).IsComplete() <==> d == Leaves(s)
  {
    var n := |s.children| - 1;
    assert Leaves(s) == Before(s, n) + Leaves(s.children[n]);
  }

  // ---------- trackers by their path from the root ----------

  predicate Exists(r: Tracker, p: seq<nat>)
    decreases |p|
  {
    p == [] || (p[0] < |r.children| && Exists(r.children[p[0]], p[1..]))
  }

  function GetAt(r: Tracker, p: seq<nat>): Tracker
    requires Exists(r, p)
    decreases |p|
  {
    if p == [] then r else GetAt(r.children[p[0]], p[1..])
  }

  function SetAt(r: Tracker, p: seq<nat>, t: Tracker): Tracker
    requires Exists(r, p)
    decreases |p|
  {
    if p == [] then t else r.(children := r.children[p[0] := SetAt(r.children[p[0]], p[1..], t)])
  }

  lemma {:induction false} GetSet(r: Tracker, p: seq<nat>, t: Tracker)
    requires Exists(r, p)
    ensures Exists(SetAt(r, p, t), p) && GetAt(SetAt(r, p, t), p) == t
    decreases |p|
  {
    if p != [] { GetSet(r.children[p[0]], p[1..], t); }
  }

  lemma {:induction false} SetSet(r: Tracker, p: seq<nat>, t: Tracker, u: Tracker)
    requires Exists(r, p)
    ensures Exists(SetAt(r, p, t), p) && SetAt(SetAt(r, p, t), p, u) == SetAt(r, p, u)
    decreases |p|
  {
    if p != [] { SetSet(r.children[p[0]], p[1..], t, u); }
  }

  lemma {:induction false} SetSame(r: Tracker, p: seq<nat>)
    requires Exists(r, p)
    ensures SetAt(r, p, GetAt(r, p)) == r
    decreases |p|
  {
    if p != [] { SetSame(r.children[p[0]], p[1..]); }
  }

  lemma {:induction false} Below(r: Tracker, p: seq<nat>, j: nat)
    requires Exists(r, p)
    ensures Exists(r, p + [j]) <==> j < |GetAt(r, p).children|
    ensures Exists(r, p + [j]) ==> GetAt(r, p + [j]) == GetAt(r, p).children[j]
    ensures Exists(r, p + [j]) ==>
        forall t :: SetAt(r, p + [j], t) == SetAt(r, p, GetAt(r, p).(children := GetAt(r, p).children[j := t]))
    decreases |p|
  {
    if p == [] {
      assert p + [j] == [j] && [j][1..] == [];
    } else {
      assert (p + [j])[1..] == p[1..] + [j];
      Below(r.children[p[0]], p[1..], j);
    }
  }

  // ---------- the context ----------

  datatype RunState = Idle | Running | CompletedCycle

  /** The child with that name, or the number of children. */
  function FindChild(kids: seq<Tracker>, name: string): (j: nat)
    ensures j <= |kids| && (j < |kids| ==> kids[j].name == name)
    ensures forall i :: 0 <= i < j ==> kids[i].name != name
  {
    if kids == [] then 0
    else if kids[0].name == name then 0
    else
      var j := 1 + FindChild(kids[1..], name);
      assert forall i :: 1 <= i < j ==> kids[i] == kids[1..][i - 1];
      j
  }

  /** The tracker at p marked as having open children, and so on towards the root until one already is. */
  function OpenChain(r: Tracker, p: seq<nat>): Tracker
    requires Exists(r, p)
    decreases |p|
  {
    var t := GetAt(r, p);
    if t.state == ExecutingChildren then r
    else if p == [] then r.(state := ExecutingChildren)
    else
      var q := p[..|p| - 1];
      ParentExists(r, p);
      GetSet(r, p, t.(state := ExecutingChildren));
      ParentExists(SetAt(r, p, t.(state := ExecutingChildren)), p);
      OpenChain(SetAt(r, p, t.(state := ExecutingChildren)), q)
  }

  lemma {:induction false} ParentExists(r: Tracker, p: seq<nat>)
    requires Exists(r, p) && p != []
    ensures Exists(r, p[..|p| - 1]) && p[|p| - 1] < |GetAt(r, p[..|p| - 1]).children|
    decreases |p|
  {
    if |p| > 1 {
      ParentExists(r.children[p[0]], p[1..]);
      assert p[..|p| - 1][1..] == p[1..][..|p| - 2];
    }
  }

  /** The tracker above p is executing children, so opening p stops there. */
  predicate ParentOpen(r: Tracker, p: seq<nat>)
    requires Exists(r, p)
  {
    p == [] || (Exists(r, p[..|p| - 1]) && GetAt(r, p[..|p| - 1]).state == ExecutingChildren)
  }

  lemma {:induction false} ParentKept(r: Tracker, p: seq<nat>, t: Tracker)
    requires Exists(r, p) && ParentOpen(r, p)
    ensures Exists(SetAt(r, p, t), p) && ParentOpen(SetAt(r, p, t), p)
  {
    GetSet(r, p, t);
    if p != [] {
      var q := p[..|p| - 1];
      ParentExists(r, p);
      Below(r, q, p[|p| - 1]);
      assert q + [p[|p| - 1]] == p;
      var u := GetAt(r, q).(children := GetAt(r, q).children[p[|p| - 1] := t]);
      GetSet(r, q, u);
    }
  }

  lemma OpenStops(r: Tracker, p: seq<nat>)
    requires Exists(r, p) && ParentOpen(r, p)
    ensures OpenChain(r, p) == SetAt(r, p, GetAt(r, p).(state := ExecutingChildren))
  {
    var t := GetAt(r, p);
    if t.state == ExecutingChildren {
      SetSame(r, p);
      assert t == t.(state := ExecutingChildren);
    } else if p != [] {
      ParentKept(r, p, t.(state := ExecutingChildren));
    }
  }

  // ---------- the trackers in the middle of a body ----------

  /** The trackers of the sections of s in the cycle that executes leaf e, after the first k of them. */
  function Mixed(s: Section, e: nat, k: nat): (r: seq<Tracker>)
    requires e < Leaves(s) && k <= |s.children|
    ensures |r| == if e == 0 then k else |s.children|
    ensures forall m :: 0 <= m < |r| ==> r[m] == Kid(s, if m < k then e + 1 else e, m)
  {
    Kids(s, e + 1)[..k] + if e == 0 then [] else Kids(s, e)[k..]
  }

  lemma FoundIn(kids: seq<Tracker>, name: string, k: nat)
    requires k <= |kids| && (forall m :: 0 <= m < k ==> kids[m].name != name) && (k < |kids| ==> kids[k].name == name)
    ensures FindChild(kids, name) == k
  {
  }

  /** Where the tracker of section k is found, or goes. */
  lemma FoundAt(s: Section, e: nat, k: nat)
    requires DistinctNames(s) && e < Leaves(s) && k < |s.children|
    ensures FindChild(Mixed(s, e, k), s.children[k].name) == k
  {
    var r := Mixed(s, e, k);
    forall m | 0 <= m < |r| ensures r[m].name == s.children[m].name {
      assert r[m] == Kid(s, if m < k then e + 1 else e, m);
    }
    FoundIn(r, s.children[k].name, k);
  }

  /** How far section k is, before and after. */
  lemma KidProgress(s: Section, e: nat, k: nat)
    requires e < Leaves(s) && k < |s.children|
    ensures var l, d := Leaves(s.children[k]), e - Before(s, k);
            Clamp(d + 1, l) == if 0 <= d < l then Clamp(d, l) + 1 else Clamp(d, l)
    ensures Before(s, k + 1) > e <==> e - Before(s, k) < Leaves(s.children[k])
  {
  }

  /** Section k of s when it has not been acquired yet in this run. */
  lemma FreshKid(s: Section, k: nat)
    requires k < |s.children|
    ensures Kid(s, 0, k) == TrackerOf(s.children[k], 0) == Tracker(s.children[k].name, NotStarted, [])
  {
  }

  /** The tracker of s in the middle of its body. */
  function Midway(s: Section, e: nat, k: nat): Tracker
    requires e < Leaves(s) && k <= |s.children|
  {
    Tracker(s.name, if Before(s, k) > e then ExecutingChildren else Executing, Mixed(s, e, k))
  }

  /** The node n after its section s, whose tracker stood at e, has been executed or not. */
  function After(n: Tracker, s: Section, e: nat, runs: bool): Tracker
    requires runs ==> e < Leaves(s)
  {
    var j := FindChild(n.children, s.name);
    var kids := if j < |n.children| then n.children else n.children + [TrackerOf(s, 0)];
    if runs then n.(state := ExecutingChildren, children := kids[j := TrackerOf(s, e + 1)]) else n.(children := kids)
  }

  lemma MixedKid(s: Section, e: nat, k: nat)
    requires e < Leaves(s) && k < |s.children|
    ensures var kids, d := Mixed(s, e, k), Clamp(e - Before(s, k), Leaves(s.children[k]));
            if k < |kids| then kids[k] == TrackerOf(s.children[k], d) else d == 0
  {
  }

  lemma MixedNext(s: Section, e: nat, k: nat)
    requires e < Leaves(s) && k < |s.children|
    ensures var kids := Mixed(s, e, k);
            var all := if k < |kids| then kids else kids + [TrackerOf(s.children[k], 0)];
            Mixed(s, e, k + 1) == all[k := Kid(s, e + 1, k)]
  {
    var kids, next := Mixed(s, e, k), Mixed(s, e, k + 1);
    var all := if k < |kids| then kids else kids + [TrackerOf(s.children[k], 0)];
    forall m | 0 <= m < |next| ensures next[m] == all[k := Kid(s, e + 1, k)][m] {
      if m != k { assert next[m] == kids[m]; }
    }
  }

  /** One section of the body done: executed, passed over as complete, or only registered. */
  lemma MidwayStep(s: Section, e: nat, k: nat)
    requires DistinctNames(s) && e < Leaves(s) && k < |s.children|
    ensures var c := s.children[k]; var d, runs := Clamp(e - Before(s, k), Leaves(c)),
        Before(s, k) <= e < Before(s, k + 1);
            (runs <==> Before(s, k) <= e && d < Leaves(c)) && After(Midway(s, e, k), c, d, runs) == Midway(s, e, k + 1)
  {
    FoundAt(s, e, k);
    KidProgress(s, e, k);
    MixedKid(s, e, k);
    MixedNext(s, e, k);
    var kids := Mixed(s, e, k);
    if k == |kids| { assert (kids + [TrackerOf(s.children[k], 0)])[k] == TrackerOf(s.children[k], 0); }
  }

  // ---------- the same, folded ----------

  ghost predicate IsMidway(t: Tracker, s: Section, e: nat, k: nat) {
    e < Leaves(s) && k <= |s.children| && forall z :: Seal(Trackers, z) ==> t == Midway(s, e, k)
  }

  /** The section s of the body at n, registered or not, has e leaves done. */
  ghost predicate Stands(n: Tracker, s: Section, e: nat) {
    e <= Leaves(s) && forall z :: Seal(Trackers, z) ==>
      var j := FindChild(n.children, s.name); if j < |n.children| then n.children[j] == TrackerOf(s, e) else e == 0
  }

  ghost predicate IsAfter(m: Tracker, n: Tracker, s: Section, e: nat, runs: bool) {
    (runs ==> e < Leaves(s)) && forall z :: Seal(Trackers, z) ==> m == After(n, s, e, runs)
  }

  /** The children of n with a section of that name registered. */
  function Registered(n: Tracker, name: string): (kids: seq<Tracker>)
    ensures FindChild(n.children, name) < |kids|
  {
    if FindChild(n.children, name) < |n.children| then n.children else n.children + [Tracker(name, NotStarted, [])]
  }

  /** What `close` makes of an open tracker. */
  function Closed(t: Tracker): Tracker {
    if t.state == Executing ||
        (t.state == ExecutingChildren && (t.children == [] || t.children[|t.children| - 1].IsComplete()))
    then t.(state := CompletedSuccessfully) else t
  }

  lemma RegisteredKid(n: Tracker, s: Section, e: nat)
    requires Stands(n, s, e)
    ensures Registered(n, s.name)[FindChild(n.children, s.name)] == TrackerOf(s, e)
  {
    assert Seal(Trackers, 0);
  }

  /** Whether the section can be opened, and what is then at hand. */
  lemma CanOpen(n: Tracker, s: Section, e: nat)
    requires Stands(n, s, e)
    ensures var t := Registered(n, s.name)[FindChild(n.children, s.name)];
            (t.IsComplete() <==> e == Leaves(s)) && (t.IsOpen() <==> 0 < e < Leaves(s)) &&
            (e < Leaves(s) ==> IsMidway(t.(state := Executing), s, e, 0))
  {
    RegisteredKid(n, s, e);
    if e < Leaves(s) {
      if e > 0 { KidsOf(s, e); }
      assert Mixed(s, e, 0) == if e == 0 then [] else Kids(s, e);
    }
  }

  lemma PassedOver(n: Tracker, s: Section, e: nat)
    requires Stands(n, s, e)
    ensures IsAfter(n.(children := Registered(n, s.name)), n, s, e, false)
  {
  }

  lemma MidwayState(t: Tracker, s: Section, e: nat)
    requires IsMidway(t, s, e, |s.children|)
    ensures t.state == Executing || t.state == ExecutingChildren
  {
    assert Seal(Trackers, 0);
  }

  lemma MidwayAtEnd(s: Section, e: nat)
    requires e < Leaves(s)
    ensures Midway(s, e, |s.children|) == Tracker(s.name, if s.children == [] then Executing
        else ExecutingChildren, Kids(s, e + 1))
  {
    assert Mixed(s, e, |s.children|) == Kids(s, e + 1);
  }

  lemma ClosedKids(name: string, kids: seq<Tracker>, complete: bool)
    requires kids != [] && (kids[|kids| - 1].IsComplete() <==> complete)
    ensures Closed(Tracker(name, ExecutingChildren, kids)) == Tracker(name, if complete then CompletedSuccessfully
        else ExecutingChildren, kids)
  {
  }

  lemma ClosedMidway(s: Section, e: nat)
    requires e < Leaves(s)
    ensures Closed(Midway(s, e, |s.children|)) == TrackerOf(s, e + 1)
  {
    MidwayAtEnd(s, e);
    KidsOf(s, e + 1);
    if s.children != [] {
      LastKid(s, e + 1);
      ClosedKids(s.name, Kids(s, e + 1), e + 1 == Leaves(s));
    }
  }

  /** Closing the tracker of s at the end of its body leaves it one leaf further. */
  lemma Executed(n: Tracker, s: Section, e: nat, t: Tracker)
    requires Stands(n, s, e) && IsMidway(t, s, e, |s.children|)
    ensures IsAfter(n.(state := ExecutingChildren,
        children := Registered(n, s.name)[FindChild(n.children, s.name) := Closed(t)]), n, s, e, true)
  {
    assert Seal(Trackers, 0);
    ClosedMidway(s, e);
  }

  /** How section k of the body of s stands when its turn comes. */
  lemma NextStands(t: Tracker, s: Section, e: nat, k: nat)
    requires DistinctNames(s) && k < |s.children| && IsMidway(t, s, e, k)
    ensures Stands(t, s.children[k], Clamp(e - Before(s, k), Leaves(s.children[k])))
  {
    assert Seal(Trackers, 0);
    FoundAt(s, e, k);
    MixedKid(s, e, k);
  }

  lemma NextDone(t: Tracker, s: Section, e: nat, k: nat, u: Tracker)
    requires DistinctNames(s) && k < |s.children| && IsMidway(t, s, e, k)
    requires var d := Clamp(e - Before(s, k), Leaves(s.children[k]));
             IsAfter(u, t, s.children[k], d, Before(s, k) <= e && d < Leaves(s.children[k]))
    ensures IsMidway(u, s, e, k + 1)
    ensures Before(s, k) <= e < Before(s, k + 1) <==>
        Before(s, k) <= e && Clamp(e - Before(s, k), Leaves(s.children[k])) < Leaves(s.children[k])
  {
    assert Seal(Trackers, 0);
    MidwayStep(s, e, k);
  }

  /** What executing section k of the body adds to the path to leaf e. */
  lemma PathReached(s: Section, e: nat, k: nat)
    requires k < |s.children|
    ensures var d := Clamp(e - Before(s, k), Leaves(s.children[k]));
            (Before(s, k) <= e && d < Leaves(s.children[k]) <==> Before(s, k) <= e < Before(s, k + 1)) &&
            (Before(s, k) <= e && d < Leaves(s.children[k]) ==> PathWithin(s, k + 1, e) == PathTo(s.children[k], d)) &&
            (Before(s, k) > e ==> d == 0)
  {
  }

  class TrackerContext {
    var root: Tracker
    var current: seq<nat>
    var runState: RunState
    // the sections executed in this cycle
    var executed: seq<string>

    constructor ()
      ensures root == Tracker("{root}", NotStarted, []) && current == [] && runState == Idle
    {
      root := Tracker("{root}", NotStarted, []);
      current, runState, executed := [], Idle, [];
    }

    method StartCycle()
      modifies this
      ensures root == old(root) && current == [] && runState == Running && executed == []
    {
      current, runState, executed := [], Running, [];
    }

    method OpenChild(p: seq<nat>)
      requires Exists(root, p)
      modifies this`root
      ensures root == OpenChain(old(root), p)
      decreases |p|
    {
      var t := GetAt(root, p);
      if t.state != ExecutingChildren {
        GetSet(root, p, t.(state := ExecutingChildren));
        root := SetAt(root, p, t.(state := ExecutingChildren));
        if p != [] {
          ParentExists(root, p);
          OpenChild(p[..|p| - 1]);
        }
      }
    }

    /** `SectionTracker::acquire` for a section of the current body, and `tryOpen`. */
    method Acquire(name: string) returns (j: nat)
      requires Exists(root, current) && ParentOpen(root, current)
      modifies this`root, this`current
      ensures var n := old(GetAt(root, current)); var kids := Registered(n, name);
              j == FindChild(n.children, name) &&
              var opens := runState != CompletedCycle && !kids[j].IsComplete();
              if opens then
                current == old(current) + [j] &&
                root == SetAt(old(root), old(current),
                    n.(state := ExecutingChildren, children := kids[j := kids[j].(state := Executing)]))
              else
                current == old(current) && root == SetAt(old(root), old(current), n.(children := kids))
    {
      ghost var r, p := root, current;
      var n := GetAt(root, current);
      SetSame(root, current);
      j := FindChild(n.children, name);
      if j == |n.children| {
        n := n.(children := n.children + [Tracker(name, NotStarted, [])]);
        ParentKept(root, current, n);
        GetSet(root, current, n);
        root := SetAt(root, current, n);
      }
      assert n == n.(children := n.children);
      if runState != CompletedCycle && !n.children[j].IsComplete() {
        Below(root, current, j);
        var t := n.children[j].(state := Executing);
        ghost var m := n.(children := n.children[j := t]);
        ParentKept(root, current, m);
        GetSet(root, current, m);
        SetSet(r, p, n, m);
        root := SetAt(root, current + [j], t);
        var parent := current;
        current := current + [j];
        OpenStops(root, p);
        SetSet(r, p, m, m.(state := ExecutingChildren));
        OpenChild(parent);
      }
    }

    /** `TrackerBase::close` on the current tracker. */
    method Close()
      requires Exists(root, current) && current != []
      requires GetAt(root, current).state in {Executing, ExecutingChildren, NeedsAnotherRun}
      modifies this`root, this`current, this`runState
      ensures root == SetAt(old(root), old(current), Closed(old(GetAt(root, current))))
      ensures current == old(current[..|current| - 1]) && runState == CompletedCycle
    {
      var t := GetAt(root, current);
      SetSame(root, current);
      match t.state {
        case NeedsAnotherRun =>
        case Executing =>
          root := SetAt(root, current, t.(state := CompletedSuccessfully));
        case ExecutingChildren =>
          if t.children == [] || t.children[|t.children| - 1].IsComplete() {
            root := SetAt(root, current, t.(state := CompletedSuccessfully));
          }
      }
      current := current[..|current| - 1];
      runState := CompletedCycle;
    }

    /** Whether the body of the section that was acquired as child j of p is to run. */
    method Included(p: seq<nat>, j: nat) returns (open: bool)
      requires Exists(root, p + [j])
      ensures open == GetAt(root, p + [j]).IsOpen()
    {
      open := GetAt(root, p + [j]).IsOpen();
    }

    /** The sections of the body of s, in turn. */
    method RunBody(s: Section, ghost e: nat) returns (ghost t: Tracker)
      requires DistinctNames(s) && Exists(root, current) && ParentOpen(root, current)
      requires IsMidway(GetAt(root, current), s, e, 0) && runState != CompletedCycle
      modifies this
      ensures current == old(current) && root == SetAt(old(root), current, t) && IsMidway(t, s, e, |s.children|)
      ensures executed == old(executed) + PathTo(s, e)[1..]
      decreases s, 0, 1
    {
      ghost var r, p := root, current;
      t := GetAt(root, current);
      SetSame(root, current);
      for k := 0 to |s.children|
        invariant current == p && root == SetAt(r, p, t) && IsMidway(t, s, e, k)
        invariant Before(s, k) > e <==> runState == CompletedCycle
        invariant executed == old(executed) + if Before(s, k) > e then PathWithin(s, k, e) else []
      {
        t := RunNext(s, e, k, r, t);
      }
    }

    /** Section k of the body of s. */
    method RunNext(s: Section, ghost e: nat, k: nat, ghost r: Tracker, ghost t: Tracker) returns (ghost u: Tracker)
      requires DistinctNames(s) && k < |s.children| && Exists(r, current) && ParentOpen(r, current)
      requires root == SetAt(r, current, t) && IsMidway(t, s, e, k)
      requires (Before(s, k) > e <==> runState == CompletedCycle)
      modifies this
      ensures current == old(current) && root == SetAt(r, current, u) && IsMidway(u, s, e, k + 1)
      ensures Before(s, k + 1) > e <==> runState == CompletedCycle
      ensures executed == old(executed) + if Before(s, k) <= e < Before(s, k + 1) then PathWithin(s, k + 1, e) else []
      decreases s, 0, 0
    {
      GetSet(r, current, t);
      ParentKept(r, current, t);
      NextStands(t, s, e, k);
      PathReached(s, e, k);
      u := RunSection(s.children[k], Clamp(e - Before(s, k), Leaves(s.children[k])));
      NextDone(t, s, e, k, u);
      SetSet(r, current, t, u);
    }

    /** A section with its body, from `sectionStarted` to `sectionEnded`, when its tracker is that of e leaves done.
        The body runs if neither the cycle nor the section has been completed; then exactly the path to
        leaf e is executed. */
    method RunSection(s: Section, ghost e: nat) returns (ghost m: Tracker)
      requires DistinctNames(s) && Exists(root, current) && ParentOpen(root, current)
      requires Stands(GetAt(root, current), s, e)
      requires runState == CompletedCycle ==> e == 0 || e == Leaves(s)
      modifies this
      ensures current == old(current) && root == SetAt(old(root), current, m)
      ensures var runs := old(runState) != CompletedCycle && e < Leaves(s);
              IsAfter(m, old(GetAt(root, current)), s, e, runs) &&
              runState == (if runs then CompletedCycle else old(runState)) &&
              executed == old(executed) + if runs then PathTo(s, e) else []
      decreases s, 1
    {
      ghost var r, p, n := root, current, GetAt(root, current);
      var parent := current;
      CanOpen(n, s, e);
      PassedOver(n, s, e);
      var j := Acquire(s.name);
      ghost var kids := Registered(n, s.name);
      ghost var opens := runState != CompletedCycle && e < Leaves(s);
      m := if opens then n.(state := ExecutingChildren, children := kids[j := kids[j].(state := Executing)])
          else n.(children := kids);
      GetSet(r, p, m);
      Below(root, p, j);
      if !GetAt(root, parent + [j]).IsOpen() {
        return;
      }
      executed := executed + [s.name];
      assert current[..|current| - 1] == p;
      ghost var t := RunBody(s, e);
      Executed(n, s, e, t);
      m := Finish(s, r, p, j, m, t, e);
      assert m == n.(state := ExecutingChildren, children := kids[j := Closed(t)]);
    }

    /** The end of a section whose body has run. */
    method Finish(s: Section, ghost r: Tracker, ghost p: seq<nat>, ghost j: nat, ghost m: Tracker, ghost t: Tracker,
                  ghost e: nat)
        returns (ghost m': Tracker)
      requires Exists(r, p) && j < |m.children| && Exists(SetAt(r, p, m), p + [j])
      requires current == p + [j] && root == SetAt(SetAt(r, p, m), p + [j], t) && IsMidway(t, s, e, |s.children|)
      modifies this`root, this`current, this`runState
      ensures current == p && runState == CompletedCycle && root == SetAt(r, p, m')
      ensures m' == m.(children := m.children[j := Closed(t)])
    {
      ghost var r1 := SetAt(r, p, m);
      GetSet(r, p, m);
      Below(r1, p, j);
      GetSet(r1, p + [j], t);
      MidwayState(t, s, e);
      Close();
      SetSet(r1, p + [j], t, Closed(t));
      m' := m.(children := m.children[j := Closed(t)]);
      SetSet(r, p, m, m');
      assert current == p;
    }
  }

  // ---------- the run ----------

  /** The root of the trackers after k cycles of a test case. */
  ghost predicate AfterCycles(root: Tracker, test: Section, k: nat) {
    k <= Leaves(test) &&
    if k == 0 then root == Tracker("{root}", NotStarted, [])
    else root == Tracker("{root}", ExecutingChildren, [TrackerOf(test, k)])
  }

  lemma TestStands(root: Tracker, test: Section, k: nat)
    requires AfterCycles(root, test, k)
    ensures Stands(root, test, k)
  {
    if k > 0 { FoundIn(root.children, test.name, 0); }
  }

  lemma CycleDone(root: Tracker, test: Section, k: nat, m: Tracker)
    requires AfterCycles(root, test, k) && k < Leaves(test) && IsAfter(m, root, test, k, true)
    ensures AfterCycles(m, test, k + 1)
  {
    assert Seal(Trackers, 0);
    if k > 0 { FoundIn(root.children, test.name, 0); }
  }

  /** One cycle: the test case is started over, and the path to the next leaf is executed. */
  method RunCycle(ctx: TrackerContext, test: Section, ghost k: nat) returns (path: seq<string>, complete: bool)
    requires DistinctNames(test) && AfterCycles(ctx.root, test, k) && k < Leaves(test)
    modifies ctx
    ensures AfterCycles(ctx.root, test, k + 1) && path == PathTo(test, k) && complete == (k + 1 == Leaves(test))
  {
    ctx.StartCycle();
    TestStands(ctx.root, test, k);
    ghost var r := ctx.root;
    ghost var m := ctx.RunSection(test, k);
    CycleDone(r, test, k, m);
    path := ctx.executed;
    complete := ctx.root.children[0].state == CompletedSuccessfully;
  }

  /** The loop of `RunContext::runTest`: cycles until the test case is complete. Each cycle executes one path from the
      test case to a leaf, and over the whole run every leaf is reached exactly once, in the order of the document. */
  method RunTest(test: Section) returns (cycles: seq<seq<string>>)
    requires DistinctNames(test)
    ensures cycles == AllPaths(test)
  {
    var ctx := new TrackerContext();
    cycles := [];
    var complete := false;
    while !complete
      invariant fresh(ctx) && AfterCycles(ctx.root, test, |cycles|) && complete == (|cycles| == Leaves(test))
      invariant forall i :: 0 <= i < |cycles| ==> cycles[i] == PathTo(test, i)
      decreases Leaves(test) - |cycles|
    {
      var path;
      path, complete := RunCycle(ctx, test, |cycles|);
      cycles := cycles + [path];
    }
    PathsInOrder(test);
  }
}
