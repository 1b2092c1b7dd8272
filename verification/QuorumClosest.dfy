/** The search of src/scp/LocalNode.cpp for a closest v-blocking set: the fewest of the given nodes that, together with
    the nodes outside, block. Taking validators first and then the cheapest inner sets is shown to be optimal by weak
    duality: for every price per entry there is a lower bound on any blocking set, and at the price of the last entry
    taken the greedy choice meets it. */
module QuorumClosest {
  import opened Sealing
  import opened Quorum
  import opened QuorumSets

  // ---------- lower bounds ----------

  function Min(a: int, b: int): int {
    if a <= b then a else b
  }

  /** What an entry of the given cost is worth at a price; nothing if it is free. */
  function Gain(cost: nat, price: nat): int {
    if cost == 0 then 0 else Min(0, cost - price)
  }

  function Gains(costs: seq<nat>, price: nat): int {
    if costs == [] then 0 else Gains(costs[..|costs| - 1], price) + Gain(costs[|costs| - 1], price)
  }

  /** All nodes, those that are up, and those of them that may be taken. */
  datatype Net = Net(all: set<NodeID>, up: set<NodeID>, use: set<NodeID>)

  /** The nodes that are not up, and r. */
  function Base(net: Net, r: set<NodeID>): set<NodeID> {
    net.all - net.up + r
  }

  ghost predicate Names(q: QSet, net: Net) {
    forall n :: n in NodeList(q) ==> n in net.all
  }

  /** Of the nodes that are up, r has only such as may be taken. */
  ghost predicate Allowed(net: Net, r: set<NodeID>) {
    forall n :: n in r && n in net.up ==> n in net.use
  }

  /** No set of fewer than `cost` of the nodes named makes q blocked; it is zero exactly if q is blocked already. */
  ghost predicate IsCost(q: QSet, net: Net, cost: nat) {
    (cost == 0 <==> Blocked(q, Base(net, {}))) &&
    forall r: set<NodeID> :: Allowed(net, r) && Blocked(q, Base(net, r)) ==> cost <= CountNodes(NodeList(q), r)
  }

  lemma {:induction false} CountAppend(a: seq<NodeID>, b: seq<NodeID>, s: set<NodeID>)
    ensures CountNodes(a + b, s) == CountNodes(a, s) + CountNodes(b, s)
    decreases |b|
  {
    if b == [] {
      assert a + b == a;
    } else {
      assert (a + b)[..|a + b| - 1] == a + b[..|b| - 1];
      CountAppend(a, b[..|b| - 1], s);
    }
  }

  lemma ElementsAppend(a: seq<NodeID>, b: seq<NodeID>)
    ensures Elements(a + b) == Elements(a) + Elements(b)
  {
    forall n
      ensures n in Elements(a + b) <==> n in Elements(a) + Elements(b)
    {
      assert n in a + b <==> n in a || n in b;
    }
  }

  /** So many nodes pay for so many entries at this price, but for the gain. */
  ghost predicate Pays(share: int, price: int, count: int, gain: int) {
    forall k :: Seal(Digits, k) ==> share - price * count >= gain
  }

  lemma PaysBoth(share: int, price: int, count: int, gain: int, one: int, more: int, now: int)
    requires Pays(share, price, count, gain) && Pays(one, price, more, now)
    ensures Pays(share + one, price, count + more, gain + now)
  {
    assert Seal(Digits, 0);
    assert price * (count + more) == price * count + price * more;
  }

  lemma PaysNothing(price: int)
    ensures Pays(0, price, 0, 0)
  {
  }

  function NodeGains(vs: seq<NodeID>, use: set<NodeID>, price: nat): int {
    if vs == [] then 0 else NodeGains(vs[..|vs| - 1], use, price) + if vs[|vs| - 1] in use then Gain(1, price) else 0
  }

  /** How many entries r adds to those blocked already. */
  function AddedNodes(vs: seq<NodeID>, net: Net, r: set<NodeID>): int {
    CountNodes(vs, Base(net, r)) - CountNodes(vs, Base(net, {}))
  }

  function AddedSets(q: QSet, k: nat, net: Net, r: set<NodeID>): int
    requires k <= |q.inner|
  {
    CountBlocked(q, k, Base(net, r)) - CountBlocked(q, k, Base(net, {}))
  }

  lemma OneNode(n: NodeID, net: Net, r: set<NodeID>, price: nat)
    requires Allowed(net, r)
    ensures var share := if n in r then 1 else 0; var more := if n in r && n in net.up then 1 else 0;
            Pays(share, price, more, if n in net.use then Gain(1, price) else 0)
  {
  }

  lemma {:induction false} NodesBound(vs: seq<NodeID>, net: Net, r: set<NodeID>, price: nat)
    requires Allowed(net, r) && forall n :: n in vs ==> n in net.all
    ensures Pays(CountNodes(vs, r), price, AddedNodes(vs, net, r), NodeGains(vs, net.use, price))
  {
    if vs == [] {
      PaysNothing(price);
    } else {
      var p, n := vs[..|vs| - 1], vs[|vs| - 1];
      forall m | m in p ensures m in net.all { assert m in vs; }
      NodesBound(p, net, r, price);
      assert n in vs;
      OneNode(n, net, r, price);
      PaysBoth(CountNodes(p, r), price, AddedNodes(p, net, r), NodeGains(p, net.use, price), if n in r then 1 else 0,
               if n in r && n in net.up then 1 else 0, if n in net.use then Gain(1, price) else 0);
    }
  }

  lemma {:induction false} SetsBound(q: QSet, k: nat, net: Net, r: set<NodeID>, price: nat, costs: seq<nat>)
    requires Allowed(net, r) && k == |costs| <= |q.inner|
    requires forall j :: 0 <= j < k ==> IsCost(q.inner[j], net, costs[j])
    ensures Pays(CountNodes(InnerNodes(q, k), r), price, AddedSets(q, k, net, r), Gains(costs, price))
    decreases k
  {
    if k == 0 {
      PaysNothing(price);
    } else {
      SetsBound(q, k - 1, net, r, price, costs[..k - 1]);
      CountAppend(InnerNodes(q, k - 1), NodeList(q.inner[k - 1]), r);
      OneSetBound(q.inner[k - 1], net, r, price, costs[k - 1]);
      PaysBoth(CountNodes(InnerNodes(q, k - 1), r), price, AddedSets(q, k - 1, net, r), Gains(costs[..k - 1], price),
               CountNodes(NodeList(q.inner[k - 1]), r), AddedBy(q.inner[k - 1], net, r), Gain(costs[k - 1], price));
    }
  }

  function AddedBy(q: QSet, net: Net, r: set<NodeID>): int {
    (if Blocked(q, Base(net, r)) then 1 else 0) - (if Blocked(q, Base(net, {})) then 1 else 0)
  }

  lemma OneSetBound(q: QSet, net: Net, r: set<NodeID>, price: nat, cost: nat)
    requires Allowed(net, r) && IsCost(q, net, cost)
    ensures Pays(CountNodes(NodeList(q), r), price, AddedBy(q, net, r), Gain(cost, price))
  {
    var share, more := CountNodes(NodeList(q), r), AddedBy(q, net, r);
    if cost == 0 {
      BlockedGrows(q, Base(net, {}), Base(net, r));
    }
    OnePays(share, price, more, cost);
  }

  lemma OnePays(share: nat, price: nat, more: int, cost: nat)
    requires if cost == 0 then more == 0 else more == 0 || (more == 1 && share >= cost)
    ensures Pays(share, price, more, Gain(cost, price))
  {
  }

  lemma Bounded(share: int, price: nat, count: int, gain: int, need: int)
    requires Pays(share, price, count, gain) && count >= need
    ensures share >= price * need + gain
  {
    assert Seal(Digits, 0);
    assert price * count >= price * need;
  }

  /** How many entries are still to be blocked. */
  function Left(q: QSet, net: Net): int {
    Blocking(q) - CountNodes(q.validators, Base(net, {})) - CountBlocked(q, |q.inner|, Base(net, {}))
  }

  ghost predicate AreCosts(q: QSet, net: Net, costs: seq<nat>) {
    |costs| <= |q.inner| && forall j :: 0 <= j < |costs| ==> IsCost(q.inner[j], net, costs[j])
  }

  /** Weak duality: whatever blocks q costs at least this much, at every price. */
  lemma LowerBound(q: QSet, net: Net, r: set<NodeID>, price: nat, costs: seq<nat>)
    requires Names(q, net) && Allowed(net, r) && Blocked(q, Base(net, r))
    requires |costs| == |q.inner| && AreCosts(q, net, costs)
    ensures CountNodes(NodeList(q), r) >= price * Left(q, net) +
        (NodeGains(q.validators, net.use, price) + Gains(costs, price))
  {
    var vs, ins := q.validators, InnerNodes(q, |q.inner|);
    forall n | n in vs ensures n in net.all { assert n in NodeList(q); }
    NodesBound(vs, net, r, price);
    SetsBound(q, |q.inner|, net, r, price, costs);
    CountAppend(vs, ins, r);
    PaysBoth(CountNodes(vs, r), price, AddedNodes(vs, net, r), NodeGains(vs, net.use, price),
             CountNodes(ins, r), AddedSets(q, |q.inner|, net, r), Gains(costs, price));
    Bounded(CountNodes(NodeList(q), r), price, AddedNodes(vs, net, r) + AddedSets(q, |q.inner|, net, r),
            NodeGains(vs, net.use, price) + Gains(costs, price), Left(q, net));
  }

  // ---------- what the greedy choice costs ----------

  function Total(sizes: seq<nat>): nat {
    if sizes == [] then 0 else Total(sizes[..|sizes| - 1]) + sizes[|sizes| - 1]
  }

  predicate Ascending(s: seq<nat>) {
    forall i, j :: 0 <= i <= j < |s| ==> s[i] <= s[j]
  }

  /** Sorted costs, at the price of entry c: those before gain what they save, those behind nothing. */
  lemma {:induction false} GainsSorted(sizes: seq<nat>, k: nat, c: nat, price: nat)
    requires Ascending(sizes) && c <= k <= |sizes| && (forall i :: 0 <= i < |sizes| ==> sizes[i] >= 1)
    requires (forall i :: 0 <= i < c ==> sizes[i] <= price) && (forall i :: c <= i < k ==> sizes[i] >= price)
    ensures Gains(sizes[..k], price) == Total(sizes[..c]) - price * c
    decreases k
  {
    if k > 0 {
      assert sizes[..k][..k - 1] == sizes[..k - 1];
      if k > c {
        GainsSorted(sizes, k - 1, c, price);
      } else {
        GainsSorted(sizes, k - 1, c - 1, price);
        assert sizes[..c][..c - 1] == sizes[..c - 1];
        assert price * c == price * (c - 1) + price;
      }
    }
  }

  /** Where the costs are put in order does not matter. */
  lemma {:induction false} GainsInsert(s: seq<nat>, p: nat, x: nat, price: nat)
    requires p <= |s|
    ensures Gains(s[..p] + [x] + s[p..], price) == Gains(s, price) + Gain(x, price)
    decreases |s| - p
  {
    var t := s[..p] + [x] + s[p..];
    if p == |s| {
      assert t == s + [x];
      assert t[..|s|] == s;
    } else {
      var u := s[..|s| - 1];
      GainsInsert(u, p, x, price);
      assert t[..|t| - 1] == u[..p] + [x] + u[p..];
    }
  }

  // ---------- the nodes picked ----------

  /** Every c of the nodes picked block c validators more. */
  ghost predicate Picks(vs: seq<NodeID>, net: Net, res: seq<NodeID>) {
    |res| == CountNodes(vs, net.use) && Within(res, net.use) &&
    forall c :: 0 <= c <= |res| ==> AddedNodes(vs, net, Elements(res[..c])) >= c
  }

  lemma PicksNext(vs: seq<NodeID>, n: NodeID, net: Net, res: seq<NodeID>)
    requires Picks(vs, net, res) && net.use <= net.up
    ensures Picks(vs + [n], net, if n in net.use then res + [n] else res)
  {
    var ws := vs + [n];
    assert ws[..|vs|] == vs;
    var now := if n in net.use then res + [n] else res;
    forall c | 0 <= c <= |now| ensures AddedNodes(ws, net, Elements(now[..c])) >= c {
      if c <= |res| {
        assert now[..c] == res[..c];
      } else {
        assert now[..c] == now && res[..|res|] == res;
        forall m | m in Elements(res) ensures m in Elements(now) { }
        CountNodesGrows(vs, Base(net, Elements(res)), Base(net, Elements(now)));
        assert n in Elements(now);
      }
    }
  }

  predicate Within(v: seq<NodeID>, use: set<NodeID>) {
    forall n :: n in v ==> n in use
  }

  // ---------- the inner sets collected ----------

  function Sizes(internals: seq<seq<NodeID>>): (s: seq<nat>)
    ensures |s| == |internals|
  {
    seq(|internals|, i requires 0 <= i < |internals| => |internals[i]|)
  }

  /** v closes the gap of the inner set with this number. */
  ghost predicate Closes(q: QSet, net: Net, v: seq<NodeID>, owner: nat) {
    owner < |q.inner| && v != [] && Within(v, net.use) &&
    Blocked(q.inner[owner], Base(net, Elements(v))) && !Blocked(q.inner[owner], Base(net, {}))
  }

  ghost predicate SameGains(internals: seq<seq<NodeID>>, costs: seq<nat>) {
    forall price: nat :: Gains(Sizes(internals), price) == Gains(costs, price)
  }

  /** The sets collected from the first k inner sets, each for one that is not blocked yet. */
  ghost predicate Owned(q: QSet, k: nat, net: Net, internals: seq<seq<NodeID>>, owners: seq<nat>) {
    |owners| == |internals| &&
    (forall j :: 0 <= j < |owners| ==> owners[j] < k && Closes(q, net, internals[j], owners[j])) &&
    (forall i, j :: 0 <= i < j < |owners| ==> owners[i] != owners[j])
  }

  /** The costs of the first k inner sets; those that are not free are the sizes collected, the smallest first. */
  ghost predicate Priced(q: QSet, k: nat, net: Net, costs: seq<nat>, internals: seq<seq<NodeID>>) {
    k == |costs| <= |q.inner| && AreCosts(q, net, costs) && SameGains(internals, costs) &&
    Ascending(Sizes(internals)) &&
    |internals| == k - CountBlocked(q, k, Base(net, {}))
  }

  lemma PlacedAscending(internals: seq<seq<NodeID>>, v: seq<NodeID>, p: nat)
    requires Ascending(Sizes(internals)) && p <= |internals|
    requires (forall i :: 0 <= i < p ==> |internals[i]| <= |v|)
    requires forall i :: p <= i < |internals| ==> |internals[i]| >= |v|
    ensures var now := internals[..p] + [v] + internals[p..];
            Ascending(Sizes(now)) && Sizes(now) == Sizes(internals)[..p] + [|v|] + Sizes(internals)[p..]
  {
    var s, now := Sizes(internals), internals[..p] + [v] + internals[p..];
    var t := Sizes(now);
    assert t == s[..p] + [|v|] + s[p..];
    forall i, j | 0 <= i <= j < |t| ensures t[i] <= t[j] {
      var i' := if i < p then i else i - 1;
      var j' := if j < p then j else j - 1;
      if i != p && j != p { assert s[i'] <= s[j']; }
    }
  }

  lemma PricedPaid(q: QSet, k: nat, net: Net, costs: seq<nat>, internals: seq<seq<NodeID>>, v: seq<NodeID>, p: nat)
    requires Priced(q, k, net, costs, internals) && k < |q.inner| && p <= |internals| && IsCost(q.inner[k], net, |v|)
    requires v != []
    requires (forall i :: 0 <= i < p ==> |internals[i]| <= |v|)
    requires forall i :: p <= i < |internals| ==> |internals[i]| >= |v|
    ensures Priced(q, k + 1, net, costs + [|v|], internals[..p] + [v] + internals[p..])
  {
    var now, paid := internals[..p] + [v] + internals[p..], costs + [|v|];
    PlacedAscending(internals, v, p);
    forall price: nat ensures Gains(Sizes(now), price) == Gains(paid, price) {
      GainsInsert(Sizes(internals), p, |v|, price);
      assert paid[..k] == costs;
    }
  }

  lemma OwnersApart(owners: seq<nat>, k: nat, p: nat)
    requires p <= |owners| && (forall j :: 0 <= j < |owners| ==> owners[j] < k)
    requires forall i, j :: 0 <= i < j < |owners| ==> owners[i] != owners[j]
    ensures var who := owners[..p] + [k] + owners[p..]; forall i, j :: 0 <= i < j < |who| ==> who[i] != who[j]
  {
    var who := owners[..p] + [k] + owners[p..];
    forall i, j | 0 <= i < j < |who| ensures who[i] != who[j] {
      if i != p && j != p {
        assert who[i] == owners[if i < p then i else i - 1] && who[j] == owners[if j < p then j else j - 1];
      }
    }
  }

  lemma OwnedPaid(q: QSet, k: nat, net: Net, internals: seq<seq<NodeID>>, owners: seq<nat>, v: seq<NodeID>, p: nat)
    requires Owned(q, k, net, internals, owners) && p <= |internals| && Closes(q, net, v, k)
    ensures Owned(q, k + 1, net, internals[..p] + [v] + internals[p..], owners[..p] + [k] + owners[p..])
  {
    var now, who := internals[..p] + [v] + internals[p..], owners[..p] + [k] + owners[p..];
    forall j | 0 <= j < |who| ensures who[j] < k + 1 && Closes(q, net, now[j], who[j]) {
      if j < p { assert who[j] == owners[j] && now[j] == internals[j]; }
      else if j > p { assert who[j] == owners[j - 1] && now[j] == internals[j - 1]; }
    }
    OwnersApart(owners, k, p);
  }

  lemma PricedFree(q: QSet, k: nat, net: Net, costs: seq<nat>, internals: seq<seq<NodeID>>)
    requires Priced(q, k, net, costs, internals) && k < |q.inner| && IsCost(q.inner[k], net, 0)
    ensures Priced(q, k + 1, net, costs + [0], internals)
  {
    var paid := costs + [0];
    forall price: nat ensures Gains(Sizes(internals), price) == Gains(paid, price) {
      assert paid[..k] == costs;
    }
  }

  // ---------- the choice ----------

  /** Sets taken at those places block as many entries more. */
  lemma {:induction false} TakenBlocked(q: QSet, k: nat, w: set<nat>, z: set<NodeID>, b: set<NodeID>)
    requires k <= |q.inner| && z <= b
    requires forall j :: j in w ==> j < k && Blocked(q.inner[j], b) && !Blocked(q.inner[j], z)
    ensures CountBlocked(q, k, b) >= CountBlocked(q, k, z) + |w|
    decreases k
  {
    if k > 0 {
      TakenBlocked(q, k - 1, w - {k - 1}, z, b);
      if Blocked(q.inner[k - 1], z) { BlockedGrows(q.inner[k - 1], z, b); }
    } else {
      assert w == {};
    }
  }

  function Join(ls: seq<seq<NodeID>>): seq<NodeID> {
    if ls == [] then [] else Join(ls[..|ls| - 1]) + ls[|ls| - 1]
  }

  lemma {:induction false} JoinHas(ls: seq<seq<NodeID>>, j: nat)
    requires j < |ls|
    ensures forall n :: n in ls[j] ==> n in Join(ls)
  {
    if j < |ls| - 1 {
      JoinHas(ls[..|ls| - 1], j);
      assert ls[..|ls| - 1][j] == ls[j];
    }
  }

  lemma {:induction false} JoinSize(ls: seq<seq<NodeID>>)
    ensures |Join(ls)| == Total(Sizes(ls))
  {
    if ls != [] {
      JoinSize(ls[..|ls| - 1]);
      assert Sizes(ls)[..|ls| - 1] == Sizes(ls[..|ls| - 1]);
    }
  }

  lemma {:induction false} JoinWithin(ls: seq<seq<NodeID>>, use: set<NodeID>)
    requires forall j :: 0 <= j < |ls| ==> Within(ls[j], use)
    ensures Within(Join(ls), use)
  {
    if ls != [] { JoinWithin(ls[..|ls| - 1], use); }
  }

  /** The sets that own the first c collected. */
  function OwnersOf(owners: seq<nat>, c: nat): set<nat>
    requires c <= |owners|
  {
    set j | 0 <= j < c :: owners[j]
  }

  lemma {:induction false} OwnersCount(owners: seq<nat>, c: nat)
    requires c <= |owners| && forall i, j :: 0 <= i < j < |owners| ==> owners[i] != owners[j]
    ensures |OwnersOf(owners, c)| == c
    decreases c
  {
    if c > 0 {
      OwnersCount(owners, c - 1);
      assert OwnersOf(owners, c) == OwnersOf(owners, c - 1) + {owners[c - 1]};
      assert owners[c - 1] !in OwnersOf(owners, c - 1);
    } else {
      assert OwnersOf(owners, 0) == {};
    }
  }

  /** The validators and the sets taken block q. */
  lemma ChoiceBlocks(q: QSet, net: Net, picked: seq<NodeID>, a: nat, internals: seq<seq<NodeID>>, owners: seq<nat>,
                     c: nat)
    requires q.threshold != 0 && Picks(q.validators, net, picked) && a <= |picked| && c <= |internals|
    requires Owned(q, |q.inner|, net, internals, owners) && a + c >= Left(q, net)
    ensures Blocked(q, Base(net, Elements(picked[..a] + Join(internals[..c]))))
  {
    var res := picked[..a] + Join(internals[..c]);
    var z, b := Base(net, {}), Base(net, Elements(res));
    forall n | n in Base(net, Elements(picked[..a])) ensures n in b { if n in picked[..a] { assert n in res; } }
    CountNodesGrows(q.validators, Base(net, Elements(picked[..a])), b);
    var w := OwnersOf(owners, c);
    OwnersCount(owners, c);
    forall k | k in w ensures k < |q.inner| && Blocked(q.inner[k], b) && !Blocked(q.inner[k], z) {
      var j :| 0 <= j < c && owners[j] == k;
      assert Closes(q, net, internals[j], owners[j]);
      JoinHas(internals[..c], j);
      assert internals[..c][j] == internals[j];
      forall n | n in Base(net, Elements(internals[j])) ensures n in b { if n in internals[j] { assert n in res; } }
      BlockedGrows(q.inner[k], Base(net, Elements(internals[j])), b);
    }
    TakenBlocked(q, |q.inner|, w, z, b);
    assert AddedNodes(q.validators, net, Elements(picked[..a])) >= a;
  }

  lemma {:induction false} NodeGainsAt(vs: seq<NodeID>, use: set<NodeID>, price: nat)
    requires price >= 1
    ensures NodeGains(vs, use, price) == CountNodes(vs, use) * (1 - price)
  {
    if vs != [] { NodeGainsAt(vs[..|vs| - 1], use, price); }
  }

  lemma {:induction false} NoNodeGains(vs: seq<NodeID>, use: set<NodeID>)
    ensures NodeGains(vs, use, 1) == 0
  {
    if vs != [] { NoNodeGains(vs[..|vs| - 1], use); }
  }

  lemma {:induction false} NoGains(costs: seq<nat>)
    ensures Gains(costs, 1) == 0
  {
    if costs != [] { NoGains(costs[..|costs| - 1]); }
  }

  lemma BoundMet(count: int, price: int, need: int, nodeGains: int, gains: int, a: int, c: int, total: int)
    requires count >= price * need + (nodeGains + gains) && need == a + c && nodeGains == a * (1 - price)
    requires gains == total - price * c
    ensures count >= a + total
  {
    assert price * (a + c) + (a * (1 - price) + (total - price * c)) == a + total;
  }

  ghost predicate Choice(q: QSet, net: Net, costs: seq<nat>, internals: seq<seq<NodeID>>, a: nat, c: nat) {
    Names(q, net) && Priced(q, |q.inner|, net, costs, internals) &&
    (forall j :: 0 <= j < |internals| ==> internals[j] != []) && c <= |internals| && a + c == Left(q, net) &&
    a <= CountNodes(q.validators, net.use) && (c > 0 ==> a == CountNodes(q.validators, net.use))
  }

  lemma CheapestNodes(q: QSet, net: Net, costs: seq<nat>, internals: seq<seq<NodeID>>, a: nat, r: set<NodeID>)
    requires Choice(q, net, costs, internals, a, 0) && Allowed(net, r) && Blocked(q, Base(net, r))
    ensures a <= CountNodes(NodeList(q), r)
  {
    LowerBound(q, net, r, 1, costs);
    NoNodeGains(q.validators, net.use);
    NoGains(costs);
  }

  lemma CheapestSets(q: QSet, net: Net, costs: seq<nat>, internals: seq<seq<NodeID>>, a: nat, c: nat, r: set<NodeID>)
    requires Choice(q, net, costs, internals, a, c) && c > 0 && Allowed(net, r) && Blocked(q, Base(net, r))
    ensures a + Total(Sizes(internals)[..c]) <= CountNodes(NodeList(q), r)
  {
    var sizes := Sizes(internals);
    var price := sizes[c - 1];
    LowerBound(q, net, r, price, costs);
    NodeGainsAt(q.validators, net.use, price);
    SizesGain(internals, c);
    assert Gains(sizes, price) == Gains(costs, price);
    BoundMet(CountNodes(NodeList(q), r), price, Left(q, net), NodeGains(q.validators, net.use, price),
        Gains(costs, price), a, c,
             Total(sizes[..c]));
  }

  lemma SizesGain(internals: seq<seq<NodeID>>, c: nat)
    requires Ascending(Sizes(internals)) && 0 < c <= |internals|
    requires forall j :: 0 <= j < |internals| ==> internals[j] != []
    ensures var sizes := Sizes(internals); Gains(sizes, sizes[c - 1]) == Total(sizes[..c]) - sizes[c - 1] * c
  {
    var sizes := Sizes(internals);
    assert sizes[..|sizes|] == sizes;
    GainsSorted(sizes, |sizes|, c, sizes[c - 1]);
  }

  // ---------- what the search returns ----------

  /** The validators that may be taken. */
  function Picked(vs: seq<NodeID>, use: set<NodeID>): seq<NodeID> {
    if vs == [] then [] else Picked(vs[..|vs| - 1], use) + if vs[|vs| - 1] in use then [vs[|vs| - 1]] else []
  }

  /** Sets are kept in order of size, and in order of arrival where the sizes are equal. */
  function InsertBySize(internals: seq<seq<NodeID>>, v: seq<NodeID>): seq<seq<NodeID>> {
    if internals == [] then [v]
    else
      var last := internals[|internals| - 1];
      if |last| <= |v| then internals + [v] else InsertBySize(internals[..|internals| - 1], v) + [last]
  }

  /** The results for the first k inner sets that are not empty. */
  function Internals(q: QSet, k: nat, up: set<NodeID>, use: set<NodeID>): (ls: seq<seq<NodeID>>)
    requires k <= |q.inner|
    ensures |ls| <= k
    decreases q, k
  {
    if k == 0 then [] else
      var ls, v := Internals(q, k - 1, up, use), Closest(q.inner[k - 1], up, use);
      if v == [] then ls else InsertSize(ls, v); InsertBySize(ls, v)
  }

  lemma {:induction false} InsertSize(ls: seq<seq<NodeID>>, v: seq<NodeID>)
    ensures |InsertBySize(ls, v)| == |ls| + 1
  {
    if ls != [] { InsertSize(ls[..|ls| - 1], v); }
  }

  /** The values of a size_t. */
  const SIZE_T := 0x1_0000_0000_0000_0000

  /** The counter at its start; a threshold beyond all entries makes it wrap around. */
  function Countdown(q: QSet): nat {
    var n := 1 + q.Size() - q.threshold;
    if n < 0 then n + SIZE_T else n
  }

  /** The counter when it has been decremented so often, not beyond zero again. */
  function CountedDown(start: nat, times: nat): int {
    if start == 0 && times > 0 then SIZE_T - times else start - times
  }

  /** What is left to block besides the validators that are not up and the inner sets with an empty result. */
  function Remaining(q: QSet, up: set<NodeID>, use: set<NodeID>): int
    decreases q, |q.inner| + 1
  {
    var nodes, sets := |q.validators| - CountNodes(q.validators, up), |q.inner| - |Internals(q, |q.inner|, up, use)|;
    CountedDown(Countdown(q), nodes + sets)
  }

  /** Validators first, then the smallest of the results for inner sets. */
  function Closest(q: QSet, up: set<NodeID>, use: set<NodeID>): seq<NodeID>
    decreases q, |q.inner| + 2
  {
    var left := Remaining(q, up, use);
    if left <= 0 then []
    else Chosen(Picked(q.validators, use), Internals(q, |q.inner|, up, use), left)
  }

  function Chosen(picked: seq<NodeID>, internals: seq<seq<NodeID>>, left: nat): seq<NodeID> {
    if |picked| >= left then picked[..left]
    else picked + Join(internals[..if left - |picked| <= |internals| then left - |picked| else |internals|])
  }

  // ---------- it closes the gap at the least cost ----------

  /** Of the validators that are up, fewer than the threshold may not be taken, in every set within. */
  ghost predicate Spares(q: QSet, net: Net)
    decreases q
  {
    CountNodes(q.validators, net.up - net.use) < q.threshold && forall k :: 0 <= k < |q.inner| ==>
        Spares(q.inner[k], net)
  }

  /** What the search is for. */
  ghost predicate IsLeast(q: QSet, net: Net, v: seq<NodeID>) {
    Within(v, net.use) && Blocked(q, Base(net, Elements(v))) &&
    forall r: set<NodeID> :: Allowed(net, r) && Blocked(q, Base(net, r)) ==> |v| <= CountNodes(NodeList(q), r)
  }

  lemma LeastIsCost(q: QSet, net: Net, v: seq<NodeID>)
    requires IsLeast(q, net, v)
    ensures IsCost(q, net, |v|)
  {
    if |v| == 0 { assert Elements(v) == {}; }
    var none: set<NodeID> := {};
    if Blocked(q, Base(net, none)) { CountNothing(NodeList(q)); }
  }

  lemma {:induction false} PickedPicks(vs: seq<NodeID>, net: Net)
    requires net.use <= net.up && forall n :: n in vs ==> n in net.all
    ensures Picks(vs, net, Picked(vs, net.use))
  {
    if vs != [] {
      var ws, n := vs[..|vs| - 1], vs[|vs| - 1];
      forall m | m in ws ensures m in net.all { assert m in vs; }
      PickedPicks(ws, net);
      PicksNext(ws, n, net, Picked(ws, net.use));
      assert ws + [n] == vs;
      assert Picked(vs, net.use) == if n in net.use then Picked(ws, net.use) + [n] else Picked(ws, net.use);
    }
  }

  /** Where in the order a set is put. */
  lemma {:induction false} InsertAt(ls: seq<seq<NodeID>>, v: seq<NodeID>, p: nat)
    requires p <= |ls| && (forall i :: 0 <= i < p ==> |ls[i]| <= |v|) && forall i :: p <= i < |ls| ==> |ls[i]| > |v|
    ensures InsertBySize(ls, v) == ls[..p] + [v] + ls[p..]
    decreases |ls|
  {
    if p < |ls| {
      var ms := ls[..|ls| - 1];
      InsertAt(ms, v, p);
      assert ls[..p] == ms[..p] && ls[p..] == ms[p..] + [ls[|ls| - 1]];
    }
  }

  lemma {:induction false} FindPlace(ls: seq<seq<NodeID>>, v: seq<NodeID>) returns (p: nat)
    requires Ascending(Sizes(ls))
    ensures p <= |ls| && (forall i :: 0 <= i < p ==> |ls[i]| <= |v|) && forall i :: p <= i < |ls| ==> |ls[i]| > |v|
  {
    p := |ls|;
    while p > 0 && |ls[p - 1]| > |v|
      invariant p <= |ls| && forall i :: p <= i < |ls| ==> |ls[i]| > |v|
    {
      p := p - 1;
    }
    forall i | 0 <= i < p ensures |ls[i]| <= |v| { assert Sizes(ls)[i] <= Sizes(ls)[p - 1]; }
  }

  /** The results collected from the first k inner sets are their costs. */
  ghost predicate Collected(q: QSet, k: nat, net: Net, costs: seq<nat>, ls: seq<seq<NodeID>>, owners: seq<nat>) {
    forall s :: Seal(Outcomes, s) ==> Priced(q, k, net, costs, ls) && Owned(q, k, net, ls, owners)
  }

  /** A result that is not empty takes its place among the others. */
  lemma CollectNext(q: QSet, k: nat, net: Net, costs: seq<nat>, ls: seq<seq<NodeID>>, owners: seq<nat>, v: seq<NodeID>)
    returns (costs': seq<nat>, owners': seq<nat>)
    requires k < |q.inner| && Collected(q, k, net, costs, ls, owners) && IsLeast(q.inner[k], net, v)
    ensures Collected(q, k + 1, net, costs', if v == [] then ls else InsertBySize(ls, v), owners')
  {
    assert Seal(Outcomes, 0);
    LeastIsCost(q.inner[k], net, v);
    if v == [] {
      PricedFree(q, k, net, costs, ls);
      costs', owners' := costs + [0], owners;
    } else {
      var p := FindPlace(ls, v);
      InsertAt(ls, v, p);
      PricedPaid(q, k, net, costs, ls, v, p);
      OwnedPaid(q, k, net, ls, owners, v, p);
      owners', costs' := owners[..p] + [k] + owners[p..], costs + [|v|];
    }
  }

  lemma CollectNone(q: QSet, net: Net)
    ensures Collected(q, 0, net, [], [], [])
  {
    assert Sizes([]) == [];
  }

  lemma InternalsStep(q: QSet, k: nat, up: set<NodeID>, use: set<NodeID>)
    requires 0 < k <= |q.inner|
    ensures var ls, v := Internals(q, k - 1, up, use), Closest(q.inner[k - 1], up, use);
            Internals(q, k, up, use) == if v == [] then ls else InsertBySize(ls, v)
  {
  }

  lemma {:induction false} CollectInternals(q: QSet, k: nat, net: Net) returns (costs: seq<nat>, owners: seq<nat>)
    requires k <= |q.inner| && InRange(q, false) && Names(q, net) && net.use <= net.up && Spares(q, net)
    ensures Collected(q, k, net, costs, Internals(q, k, net.up, net.use), owners)
    decreases q, k
  {
    if k == 0 {
      costs, owners := [], [];
      CollectNone(q, net);
    } else {
      costs, owners := CollectInternals(q, k - 1, net);
      InnerNamed(q, k - 1);
      ClosestIsLeast(q.inner[k - 1], net);
      var ls, v := Internals(q, k - 1, net.up, net.use), Closest(q.inner[k - 1], net.up, net.use);
      costs, owners := CollectNext(q, k - 1, net, costs, ls, owners, v);
      InternalsStep(q, k, net.up, net.use);
    }
  }

  lemma InnerNamed(q: QSet, i: nat)
    requires i < |q.inner|
    ensures forall n :: n in NodeList(q.inner[i]) ==> n in NodeList(q)
  {
    InnerPrefix(q, i + 1, |q.inner|);
    forall n | n in NodeList(q.inner[i]) ensures n in NodeList(q) {
      assert n in InnerNodes(q, i + 1);
    }
  }

  /** What remains to be blocked is what is left. */
  lemma RemainingIsLeft(q: QSet, net: Net, costs: seq<nat>)
    requires InRange(q, false) && Names(q, net)
    requires Priced(q, |q.inner|, net, costs, Internals(q, |q.inner|, net.up, net.use))
    ensures Remaining(q, net.up, net.use) == Left(q, net)
  {
    forall n | n in q.validators ensures n in Base(net, {}) <==> n !in net.up { assert n in NodeList(q); }
    NodesEitherWay(q.validators, Base(net, {}), net.up);
  }

  lemma {:induction false} CountDifference(vs: seq<NodeID>, a: set<NodeID>, b: set<NodeID>)
    requires b <= a
    ensures CountNodes(vs, a) == CountNodes(vs, b) + CountNodes(vs, a - b)
  {
    if vs != [] { CountDifference(vs[..|vs| - 1], a, b); }
  }

  /** There are enough entries to close every gap. */
  lemma EnoughEntries(q: QSet, net: Net, m: int)
    requires InRange(q, false) && Names(q, net) && net.use <= net.up && Spares(q, net)
    requires m == |q.inner| - CountBlocked(q, |q.inner|, Base(net, {}))
    ensures CountNodes(q.validators, net.use) + m >= Left(q, net)
  {
    forall n | n in q.validators ensures n in Base(net, {}) <==> n !in net.up { assert n in NodeList(q); }
    NodesEitherWay(q.validators, Base(net, {}), net.up);
    CountDifference(q.validators, net.up, net.use);
  }

  lemma ChoiceWithin(q: QSet, net: Net, picked: seq<NodeID>, a: nat, internals: seq<seq<NodeID>>, owners: seq<nat>,
                     c: nat)
    requires Picks(q.validators, net, picked) && a <= |picked| && c <= |internals|
    requires Owned(q, |q.inner|, net, internals, owners)
    ensures Within(picked[..a] + Join(internals[..c]), net.use)
  {
    forall j | 0 <= j < c ensures Within(internals[..c][j], net.use) {
      assert Closes(q, net, internals[j], owners[j]);
    }
    JoinWithin(internals[..c], net.use);
    forall n | n in picked[..a] ensures n in net.use { assert n in picked; }
  }

  lemma ChoiceIsCheapest(q: QSet, net: Net, picked: seq<NodeID>, costs: seq<nat>, internals: seq<seq<NodeID>>,
                         owners: seq<nat>,
                         a: nat, c: nat, r: set<NodeID>)
    requires Names(q, net) && Picks(q.validators, net, picked) && Allowed(net, r) && Blocked(q, Base(net, r))
    requires Priced(q, |q.inner|, net, costs, internals) && Owned(q, |q.inner|, net, internals, owners)
    requires c <= |internals|
    requires a + c == Left(q, net) && a <= |picked| && (c > 0 ==> a == |picked|)
    ensures |picked[..a] + Join(internals[..c])| <= CountNodes(NodeList(q), r)
  {
    forall j | 0 <= j < |internals| ensures internals[j] != [] { assert Closes(q, net, internals[j], owners[j]); }
    JoinSize(internals[..c]);
    assert Sizes(internals)[..c] == Sizes(internals[..c]);
    if c == 0 {
      CheapestNodes(q, net, costs, internals, a, r);
    } else {
      CheapestSets(q, net, costs, internals, a, c, r);
    }
  }

  lemma ChosenIsLeast(q: QSet, net: Net, costs: seq<nat>, internals: seq<seq<NodeID>>, owners: seq<nat>, left: nat)
    requires InRange(q, false) && Names(q, net) && net.use <= net.up && Spares(q, net) && left == Left(q, net) > 0
    requires Priced(q, |q.inner|, net, costs, internals) && Owned(q, |q.inner|, net, internals, owners)
    ensures IsLeast(q, net, Chosen(Picked(q.validators, net.use), internals, left))
  {
    var picked := Picked(q.validators, net.use);
    forall n | n in q.validators ensures n in net.all { assert n in NodeList(q); }
    PickedPicks(q.validators, net);
    EnoughEntries(q, net, |internals|);
    var a := if |picked| >= left then left else |picked|;
    var c := left - a;
    assert picked[..|picked|] == picked && internals[..0] == [];
    assert Chosen(picked, internals, left) == picked[..a] + Join(internals[..c]);
    ChoiceBlocks(q, net, picked, a, internals, owners, c);
    ChoiceWithin(q, net, picked, a, internals, owners, c);
    NoneCheaper(q, net, picked, costs, internals, owners, a, c);
  }

  lemma NoneCheaper(q: QSet, net: Net, picked: seq<NodeID>, costs: seq<nat>, internals: seq<seq<NodeID>>,
                    owners: seq<nat>, a: nat, c: nat)
    requires Names(q, net) && Picks(q.validators, net, picked) && c <= |internals|
    requires Priced(q, |q.inner|, net, costs, internals) && Owned(q, |q.inner|, net, internals, owners)
    requires a + c == Left(q, net) && a <= |picked| && (c > 0 ==> a == |picked|)
    ensures forall r: set<NodeID> :: Allowed(net, r) && Blocked(q, Base(net, r)) ==>
              |picked[..a] + Join(internals[..c])| <= CountNodes(NodeList(q), r)
  {
    forall r: set<NodeID> | Allowed(net, r) && Blocked(q, Base(net, r))
      ensures |picked[..a] + Join(internals[..c])| <= CountNodes(NodeList(q), r)
    {
      ChoiceIsCheapest(q, net, picked, costs, internals, owners, a, c, r);
    }
  }

  /** If no set within q depends on nodes that may not be taken, the search finds nodes that may be taken and close the
      gap, and no fewer do. */
  lemma {:induction false} ClosestIsLeast(q: QSet, net: Net)
    requires InRange(q, false) && Names(q, net) && net.use <= net.up && Spares(q, net)
    ensures IsLeast(q, net, Closest(q, net.up, net.use))
    decreases q, |q.inner| + 1
  {
    var costs, owners := CollectInternals(q, |q.inner|, net);
    assert Seal(Outcomes, 0);
    RemainingIsLeft(q, net, costs);
    if Left(q, net) <= 0 {
      var none: set<NodeID> := {};
      assert Elements([]) == none;
      assert Blocked(q, Base(net, none));
    } else {
      ChosenIsLeast(q, net, costs, Internals(q, |q.inner|, net.up, net.use), owners, Left(q, net));
    }
  }
}
