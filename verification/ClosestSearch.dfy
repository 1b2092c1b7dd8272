/** `findClosestVBlocking` of src/scp/LocalNode.cpp as it runs, with and without a node that it is told to leave out,
    and exactly when its result blocks although it leaves out a node that the set names. */
module ClosestSearch {
  import opened Quorum
  import opened QuorumSets
  import opened QuorumClosest
  import opened QuorumDuality

  // ---------- the search ----------

  /** A node that is left out counts as up, but is not taken. */
  function Up(nodes: set<NodeID>, excluded: Option<NodeID>): set<NodeID> {
    if excluded.Some? then nodes + {excluded.value} else nodes
  }

  function Usable(nodes: set<NodeID>, excluded: Option<NodeID>): set<NodeID> {
    if excluded.Some? then nodes - {excluded.value} else nodes
  }

  lemma PickedSnoc(vs: seq<NodeID>, k: nat, use: set<NodeID>)
    requires k < |vs|
    ensures Picked(vs[..k + 1], use) == Picked(vs[..k], use) + if vs[k] in use then [vs[k]] else []
  {
    assert vs[..k + 1][..k] == vs[..k];
  }

  lemma {:induction false} MissingPart(vs: seq<NodeID>, k: nat, up: set<NodeID>)
    requires k <= |vs|
    ensures k - CountNodes(vs[..k], up) <= |vs| - CountNodes(vs, up)
    decreases |vs| - k
  {
    if k < |vs| {
      CountNodesSnoc(vs, k, up);
      MissingPart(vs, k + 1, up);
    } else {
      assert vs[..k] == vs;
    }
  }

  /** Once the counter has reached zero, more that is missing makes no difference. */
  lemma StaysDown(start: nat, times: nat, more: nat)
    requires 0 < times <= more && CountedDown(start, times) <= 0
    ensures CountedDown(start, more) <= 0
  {
  }

  /** The counter after so many decrements, of which none made it zero. */
  predicate Counting(start: nat, times: nat, left: nat) {
    left == CountedDown(start, times) && (times > 0 ==> left > 0)
  }

  method Decrement(left: nat, ghost start: nat, ghost times: nat) returns (now: nat)
    requires Counting(start, times, left)
    ensures if now == 0 then CountedDown(start, times + 1) <= 0 else Counting(start, times + 1, now)
  {
    now := if left == 0 then SIZE_T - 1 else left - 1;
  }

  /** The validators that could be taken, and the counter behind them, unless it has reached zero. */
  method ScanValidators(vs: seq<NodeID>, nodes: set<NodeID>, excluded: Option<NodeID>, start: nat)
    returns (blocked: bool, left: nat, res: seq<NodeID>)
    ensures var missing := |vs| - CountNodes(vs, Up(nodes, excluded));
            if blocked then missing > 0 && CountedDown(start, missing) <= 0
            else Counting(start, missing, left)
    ensures !blocked ==> res == Picked(vs, Usable(nodes, excluded))
  {
    blocked, left, res := false, start, [];
    ghost var missing: nat := 0;
    for i := 0 to |vs|
      invariant missing == i - CountNodes(vs[..i], Up(nodes, excluded))
      invariant Counting(start, missing, left)
      invariant res == Picked(vs[..i], Usable(nodes, excluded))
    {
      CountNodesSnoc(vs, i, Up(nodes, excluded));
      PickedSnoc(vs, i, Usable(nodes, excluded));
      if excluded.None? || vs[i] != excluded.value {
        if vs[i] !in nodes {
          left := Decrement(left, start, missing);
          missing := missing + 1;
          if left == 0 {
            MissingPart(vs, i + 1, Up(nodes, excluded));
            StaysDown(start, missing, |vs| - CountNodes(vs, Up(nodes, excluded)));
            return true, 0, [];
          }
        } else {
          res := res + [vs[i]];
        }
      }
    }
    assert vs[..|vs|] == vs;
  }

  lemma {:induction false} InternalsAscending(q: QSet, k: nat, up: set<NodeID>, use: set<NodeID>)
    requires k <= |q.inner|
    ensures Ascending(Sizes(Internals(q, k, up, use)))
    decreases k
  {
    if k > 0 {
      InternalsAscending(q, k - 1, up, use);
      var ls, v := Internals(q, k - 1, up, use), Closest(q.inner[k - 1], up, use);
      var p := FindPlace(ls, v);
      InsertAt(ls, v, p);
      PlacedAscending(ls, v, p);
    }
  }

  lemma {:induction false} InternalsPart(q: QSet, k: nat, n: nat, up: set<NodeID>, use: set<NodeID>)
    requires k <= n <= |q.inner|
    ensures k - |Internals(q, k, up, use)| <= n - |Internals(q, n, up, use)|
    decreases n
  {
    if k < n {
      InternalsPart(q, k, n - 1, up, use);
      InsertSize(Internals(q, n - 1, up, use), Closest(q.inner[n - 1], up, use));
    }
  }

  /** Inserting into the sets ordered by size. */
  method Insert(internals: seq<seq<NodeID>>, v: seq<NodeID>) returns (now: seq<seq<NodeID>>)
    requires Ascending(Sizes(internals))
    ensures now == InsertBySize(internals, v)
  {
    var p := 0;
    while p < |internals| && |internals[p]| <= |v|
      invariant p <= |internals| && forall i :: 0 <= i < p ==> |internals[i]| <= |v|
    {
      p := p + 1;
    }
    forall i | p <= i < |internals| ensures |internals[i]| > |v| { assert Sizes(internals)[p] <= Sizes(internals)[i]; }
    InsertAt(internals, v, p);
    now := internals[..p] + [v] + internals[p..];
  }

  /** The search in one inner set: its result is collected unless it is empty. */
  method SearchInner(q: QSet, i: nat, nodes: set<NodeID>, excluded: Option<NodeID>, internals: seq<seq<NodeID>>)
    returns (now: seq<seq<NodeID>>)
    requires i < |q.inner|
    requires internals == Internals(q, i, Up(nodes, excluded), Usable(nodes, excluded))
    ensures now == Internals(q, i + 1, Up(nodes, excluded), Usable(nodes, excluded))
    ensures |internals| <= |now| <= |internals| + 1
    decreases q, 0
  {
    ghost var up, use := Up(nodes, excluded), Usable(nodes, excluded);
    var v := FindClosest(q.inner[i], nodes, excluded);
    InternalsStep(q, i + 1, up, use);
    now := internals;
    if |v| != 0 {
      InternalsAscending(q, i, up, use);
      InsertSize(internals, v);
      now := Insert(internals, v);
    }
  }

  /** The results for the inner sets, and the counter behind them, unless it has reached zero. */
  method ScanInner(q: QSet, nodes: set<NodeID>, excluded: Option<NodeID>, left0: nat, ghost start: nat,
                   ghost before: nat)
    returns (blocked: bool, left: nat, internals: seq<seq<NodeID>>)
    requires Counting(start, before, left0)
    ensures var ls := Internals(q, |q.inner|, Up(nodes, excluded), Usable(nodes, excluded));
            var missing := before + (|q.inner| - |ls|);
            if blocked then CountedDown(start, missing) <= 0
            else Counting(start, missing, left) && internals == ls
    decreases q, 1
  {
    ghost var up, use := Up(nodes, excluded), Usable(nodes, excluded);
    blocked, left, internals := false, left0, [];
    ghost var missing := before;
    for i := 0 to |q.inner|
      invariant internals == Internals(q, i, up, use) && missing == before + (i - |internals|)
      invariant Counting(start, missing, left)
    {
      var found := |internals|;
      internals := SearchInner(q, i, nodes, excluded, internals);
      if |internals| == found {
        left := Decrement(left, start, missing);
        missing := missing + 1;
        if left == 0 {
          InnerStaysDown(q, i + 1, up, use, start, before);
          return true, 0, [];
        }
      }
    }
  }

  lemma InnerStaysDown(q: QSet, k: nat, up: set<NodeID>, use: set<NodeID>, start: nat, before: nat)
    requires k <= |q.inner| && before + (k - |Internals(q, k, up, use)|) > 0
    requires CountedDown(start, before + (k - |Internals(q, k, up, use)|)) <= 0
    ensures CountedDown(start, before + (|q.inner| - |Internals(q, |q.inner|, up, use)|)) <= 0
  {
    InternalsPart(q, k, |q.inner|, up, use);
    var times := before + (k - |Internals(q, k, up, use)|);
    StaysDown(start, times, before + (|q.inner| - |Internals(q, |q.inner|, up, use)|));
  }

  /** The first sets, as many as are still needed. */
  method TakeSets(start: seq<NodeID>, internals: seq<seq<NodeID>>, needed: nat) returns (res: seq<NodeID>)
    ensures res == start + Join(internals[..if needed <= |internals| then needed else |internals|])
  {
    res := start;
    var left, it := needed, 0;
    assert res == start + Join(internals[..0]);
    while left != 0 && it != |internals|
      invariant 0 <= left && it <= |internals| && left + it == needed && res == start + Join(internals[..it])
      decreases left
    {
      assert internals[..it + 1][..it] == internals[..it];
      res := res + internals[it];
      left := left - 1;
      it := it + 1;
    }
  }

  /** Validators first, then the smallest sets. */
  method Choose(picked: seq<NodeID>, internals: seq<seq<NodeID>>, left: nat) returns (res: seq<NodeID>)
    ensures res == Chosen(picked, internals, left)
  {
    res := picked;
    if |res| > left {
      res := res[..left];
    }
    assert internals[..0] == [];
    res := TakeSets(res, internals, left - |res|);
  }

  /** The result in terms of the counter at the end. */
  lemma ClosestEnds(q: QSet, up: set<NodeID>, use: set<NodeID>, missing: nat, left: int)
    requires missing == |q.validators| - CountNodes(q.validators, up) + (|q.inner| - |Internals(q, |q.inner|, up, use)|)
    requires left == CountedDown(Countdown(q), missing)
    ensures left <= 0 ==> Closest(q, up, use) == []
    ensures left >= 0 ==>
              Closest(q, up, use) == Chosen(Picked(q.validators, use), Internals(q, |q.inner|, up, use), left)
  {
  }

  /** `findClosestVBlocking`, for any thresholds. */
  method FindClosest(q: QSet, nodes: set<NodeID>, excluded: Option<NodeID>) returns (res: seq<NodeID>)
    ensures res == Closest(q, Up(nodes, excluded), Usable(nodes, excluded))
    decreases q, 2
  {
    ghost var up, use := Up(nodes, excluded), Usable(nodes, excluded);
    ghost var before: nat := |q.validators| - CountNodes(q.validators, up);
    ghost var missing: nat := before + (|q.inner| - |Internals(q, |q.inner|, up, use)|);
    var start := Countdown(q);
    ClosestEnds(q, up, use, missing, CountedDown(start, missing));
    var blocked, left, picked := ScanValidators(q.validators, nodes, excluded, start);
    if blocked {
      StaysDown(start, before, missing);
      return [];
    }
    var internals;
    blocked, left, internals := ScanInner(q, nodes, excluded, left, start, before);
    if blocked {
      return [];
    }
    res := Choose(picked, internals, left);
  }
}
