/** The ICEP (community permeability) model: each node that was Infected
    before the sweep tries each of its neighbours once, with a probability
    that depends on whether the neighbour shares its community (the share of
    same-community neighbours) or not (an edge threshold scaled by the
    community permeability), and is then Removed. */
module Icep {
  import opened Diffusion

  // available_statuses
  const Susceptible := 0
  const Infected := 1
  const Removed := 2
  const Statuses: seq<int> := [Susceptible, Infected, Removed]
  const StatusSet: set<int> := {Susceptible, Infected, Removed}

  datatype Option<T> = None | Some(value: T)

  /** What a sweep reads and never writes: the graph, the permeability, the
      community of each node, the per-edge thresholds (an absent table is the
      empty map) and the seeded random stream (draw `k` is `sample(k)`). */
  datatype Setup = Setup(
    graph: Graph,
    permeability: real,
    com: map<Node, int>,
    edgeThreshold: map<(Node, Node), real>,
    sample: nat -> real)
  {
    ghost predicate Valid() {
      && graph.Valid()
      && 0.0 <= permeability <= 1.0
      && forall k: nat :: 0.0 <= sample(k) < 1.0
    }
  }

  /** Every neighbour of a node that is Infected before the sweep has a
      community, and so has the node itself (otherwise the lookups of the
      same-community filter fail). */
  ghost predicate CommunitiesKnown(c: Setup, pre: map<Node, int>) {
    forall u, v :: u in pre && pre[u] == Infected && u in c.graph.adj && v in c.graph.adj[u] ==> u in c.com && v in c.com
  }

  /** The pre-sweep ledger holds exactly the graph's nodes, and the
      communities the sweep reads are known. */
  ghost predicate Ready(c: Setup, pre: map<Node, int>) {
    && c.Valid()
    && pre.Keys == c.graph.NodeSet()
    && CommunitiesKnown(c, pre)
  }

  /** The neighbours in `ns` that share `u`'s community, in order. */
  function SameCommunity(com: map<Node, int>, u: Node, ns: seq<Node>): (r: seq<Node>)
    requires ns != [] ==> u in com
    requires forall n :: n in ns ==> n in com
    ensures |r| <= |ns|
    ensures forall n :: n in r <==> n in ns && com[n] == com[u]
  {
    if ns == [] then []
    else
      var k := |ns| - 1;
      var init, n := ns[..k], ns[k];
      assert n in ns;
      assert forall m :: m in init ==> m in ns;
      var rest := SameCommunity(com, u, init);
      if com[n] == com[u] then rest + [n] else rest
  }

  /** The filter keeps exactly as many neighbours as there are positions of
      `ns` holding a same-community neighbour (repeats included). */
  lemma {:induction false} SameCommunityCount(com: map<Node, int>, u: Node, ns: seq<Node>)
    requires u in com && forall n :: n in ns ==> n in com
    ensures |SameCommunity(com, u, ns)| == |set i | 0 <= i < |ns| && ns[i] in com && com[ns[i]] == com[u]|
  {
    if ns != [] {
      var k := |ns| - 1;
      assert forall m :: m in ns[..k] ==> m in ns;
      SameCommunityCount(com, u, ns[..k]);
      SameCommunityIndices(com, u, ns);
    }
  }

  /** The same-community positions of `ns` are those of its prefix plus,
      when the last neighbour shares the community, the last position. */
  lemma SameCommunityIndices(com: map<Node, int>, u: Node, ns: seq<Node>)
    requires ns != [] && u in com && forall n :: n in ns ==> n in com
    ensures var k := |ns| - 1;
      && ns[k] in com
      && |set i | 0 <= i < |ns| && ns[i] in com && com[ns[i]] == com[u]| ==
         |set i | 0 <= i < k && ns[..k][i] in com && com[ns[..k][i]] == com[u]| + (if com[ns[k]] == com[u] then 1 else 0)
  {
    var k := |ns| - 1;
    var init, last := ns[..k], ns[k];
    assert last in ns;
    assert last in com;
    var all := set i | 0 <= i < |ns| && ns[i] in com && com[ns[i]] == com[u];
    var pre := set i | 0 <= i < k && init[i] in com && com[init[i]] == com[u];
    if com[last] == com[u] {
      assert all == pre + {k};
    } else {
      assert all == pre;
    }
  }

  /** The share of same-community neighbours counts any same-community
      neighbour `v` itself, so it is at least the starting `1/|N(u)|` and at
      most 1. */
  lemma EmbeddednessIsFraction(com: map<Node, int>, u: Node, ns: seq<Node>, v: Node)
    requires u in com && forall n :: n in ns ==> n in com
    ensures v in ns && v in com && com[v] == com[u] ==>
      1.0 / (|ns| as real) <= (|SameCommunity(com, u, ns)| as real) / (|ns| as real) <= 1.0
  {
    if v in ns && com[v] == com[u] {
      var same := SameCommunity(com, u, ns);
      assert v in same;
      ShareBounds(|same| as real, |ns| as real);
    }
  }

  lemma ShareBounds(k: real, d: real)
    requires 1.0 <= k <= d
    ensures 1.0 / d <= k / d <= 1.0
  {
  }

  /** The edge threshold that applies to `u` trying `v`: the entry for
      `(u, v)` first, then, in an undirected graph only, the entry for
      `(v, u)`. */
  function EdgeWeight(c: Setup, u: Node, v: Node): (w: Option<real>)
    ensures w.Some? <==> (u, v) in c.edgeThreshold || (!c.graph.directed && (v, u) in c.edgeThreshold)
  {
    if (u, v) in c.edgeThreshold then Some(c.edgeThreshold[(u, v)])
    else if (v, u) in c.edgeThreshold && !c.graph.directed then Some(c.edgeThreshold[(v, u)])
    else None
  }

  /** The entry for `(u, v)` takes precedence over the one for `(v, u)`, and
      in a directed graph `(v, u)` is never consulted. */
  lemma EdgeWeightPrecedence(c: Setup, u: Node, v: Node)
    ensures (u, v) in c.edgeThreshold ==> EdgeWeight(c, u, v) == Some(c.edgeThreshold[(u, v)])
    ensures c.graph.directed ==> EdgeWeight(c, u, v) == if (u, v) in c.edgeThreshold then Some(c.edgeThreshold[(u, v)]) else None
  {
  }

  /** In an undirected graph an edge listed under one orientation only has
      the same threshold both ways. */
  lemma EdgeWeightSymmetric(c: Setup, u: Node, v: Node)
    requires !c.graph.directed && !((u, v) in c.edgeThreshold && (v, u) in c.edgeThreshold)
    ensures EdgeWeight(c, u, v) == EdgeWeight(c, v, u)
  {
  }

  /** The threshold a susceptible neighbour `v` of `u` is compared with,
      when the threshold so far is `prev`: the share of same-community
      neighbours within the community, the edge threshold times the
      permeability across communities, and `prev` when no edge entry
      applies. */
  function Threshold(c: Setup, u: Node, ns: seq<Node>, v: Node, prev: real): (t: real)
    requires ns != [] && u in c.com && v in c.com && forall n :: n in ns ==> n in c.com
    ensures v in ns && c.com[v] == c.com[u] ==> 1.0 / (|ns| as real) <= t <= 1.0
    ensures c.com[v] != c.com[u] && EdgeWeight(c, u, v).None? ==> t == prev
  {
    EmbeddednessIsFraction(c.com, u, ns, v);
    if c.com[u] == c.com[v] then (|SameCommunity(c.com, u, ns)| as real) / (|ns| as real)
    else match EdgeWeight(c, u, v)
      case Some(w) => w * c.permeability
      case None => prev
  }

  /** A same-community neighbour is compared with the share of
      same-community neighbours, whatever the threshold was before. */
  lemma ThresholdWithinCommunity(c: Setup, u: Node, ns: seq<Node>, v: Node, prev: real)
    requires u in c.com && forall n :: n in ns ==> n in c.com
    requires v in ns && c.com[v] == c.com[u]
    ensures Threshold(c, u, ns, v, prev) == (|SameCommunity(c.com, u, ns)| as real) / (|ns| as real)
  {
  }

  /** A neighbour in another community is compared with its edge threshold
      times the permeability, looked up as `(u, v)` first and, in an
      undirected graph, as `(v, u)`, whatever the threshold was before. */
  lemma ThresholdAcrossCommunity(c: Setup, u: Node, ns: seq<Node>, v: Node, prev: real)
    requires ns != [] && u in c.com && v in c.com && forall n :: n in ns ==> n in c.com
    requires c.com[v] != c.com[u]
    ensures (u, v) in c.edgeThreshold ==>
      Threshold(c, u, ns, v, prev) == c.edgeThreshold[(u, v)] * c.permeability
    ensures (u, v) !in c.edgeThreshold && (v, u) in c.edgeThreshold && !c.graph.directed ==>
      Threshold(c, u, ns, v, prev) == c.edgeThreshold[(v, u)] * c.permeability
    ensures EdgeWeight(c, u, v).Some? ==>
      forall other :: Threshold(c, u, ns, v, prev) == Threshold(c, u, ns, v, other)
  {
  }

  /** The state of the scan of one node's neighbours: the working copy, the
      next draw and the current threshold. */
  datatype Scan = Scan(actual: map<Node, int>, cursor: nat, threshold: real)

  /** The scan of `u`'s neighbours `ns` is well defined from `s`. */
  ghost predicate ScanReady(c: Setup, u: Node, ns: seq<Node>, s: Scan) {
    ns != [] && u in c.com && forall n :: n in ns ==> n in c.com && n in s.actual
  }

  /** One neighbour: a susceptible one gets a threshold and one draw, and
      is infected when the draw does not exceed the threshold; any other
      neighbour is skipped without a draw. */
  function ScanStep(c: Setup, u: Node, ns: seq<Node>, s: Scan, v: Node): (r: Scan)
    requires ScanReady(c, u, ns, s) && v in ns
    ensures r.actual.Keys == s.actual.Keys
    ensures s.actual[v] != Susceptible ==> r == s
  {
    if s.actual[v] != Susceptible then s
    else
      var t := Threshold(c, u, ns, v, s.threshold);
      Scan(if c.sample(s.cursor) <= t then s.actual[v := Infected] else s.actual, s.cursor + 1, t)
  }

  /** A step changes no node but `v`, and `v` only from Susceptible to
      Infected; it takes a draw exactly when `v` is susceptible. */
  lemma ScanStepOnlyInfects(c: Setup, u: Node, ns: seq<Node>, s: Scan, v: Node)
    requires ScanReady(c, u, ns, s) && v in ns
    ensures var r := ScanStep(c, u, ns, s, v);
      && (forall w :: w in s.actual && w != v ==> r.actual[w] == s.actual[w])
      && (r.actual[v] == s.actual[v] || (s.actual[v] == Susceptible && r.actual[v] == Infected))
      && (s.actual[v] == Susceptible <==> r.cursor == s.cursor + 1)
  {
  }

  /** The scan after the first `n` neighbours. */
  function ScanUpTo(c: Setup, u: Node, ns: seq<Node>, n: nat, s: Scan): (r: Scan)
    requires ScanReady(c, u, ns, s) && n <= |ns|
    ensures forall v :: v in s.actual ==> v in r.actual
  {
    if n == 0 then s
    else
      var prev := ScanUpTo(c, u, ns, n - 1, s);
      ScanStep(c, u, ns, prev, ns[n - 1])
  }

  /** The state of the sweep: the working copy and the next draw. */
  datatype Work = Work(actual: map<Node, int>, cursor: nat)

  /** The turn of `u` is well defined on the working copy `actual`: the
      neighbours are in it and their communities, and `u`'s, are known. */
  ghost predicate CanSpread(c: Setup, u: Node, actual: map<Node, int>) {
    && c.Valid() && u in c.graph.nodes && u in c.graph.adj && u in actual
    && (forall v :: v in c.graph.adj[u] ==> v in actual && v in c.com)
    && (c.graph.adj[u] != [] ==> u in c.com)
  }

  /** A node Infected in a ready pre-sweep ledger can take its turn on any
      working copy that still holds the ledger's nodes. */
  lemma ReadyCanSpread(c: Setup, pre: map<Node, int>, actual: map<Node, int>, u: Node)
    requires Ready(c, pre) && u in pre && pre[u] == Infected
    requires forall v :: v in pre ==> v in actual
    ensures CanSpread(c, u, actual)
  {
    assert u in c.graph.NodeSet();
    forall v | v in c.graph.adj[u] ensures v in actual && v in c.com {
      assert v in c.graph.NodeSet();
    }
    if c.graph.adj[u] != [] {
      var v := c.graph.adj[u][0];
      assert v in c.graph.adj[u];
    }
  }

  /** The whole turn of an infected node `u`: with neighbours, the scan
      starts from the threshold `1/|N(u)|`; then `u` is Removed. */
  function Spread(c: Setup, u: Node, w: Work): (r: Work)
    requires CanSpread(c, u, w.actual)
    ensures forall v :: v in w.actual ==> v in r.actual
  {
    var ns := c.graph.Neighbors(u);
    if |ns| > 0 then
      var s := ScanUpTo(c, u, ns, |ns|, Scan(w.actual, w.cursor, 1.0 / (|ns| as real)));
      Work(s.actual[u := Removed], s.cursor)
    else Work(w.actual[u := Removed], w.cursor)
  }

  /** The sweep after the first `n` nodes, from the pre-sweep ledger `pre`
      and the draw position `cursor`: only nodes Infected in `pre` act. */
  function SweepUpTo(c: Setup, pre: map<Node, int>, cursor: nat, n: nat): (w: Work)
    requires Ready(c, pre) && n <= |c.graph.nodes|
    ensures forall v :: v in pre ==> v in w.actual
  {
    if n == 0 then Work(pre, cursor)
    else
      var w := SweepUpTo(c, pre, cursor, n - 1);
      var u := c.graph.nodes[n - 1];
      assert u in c.graph.NodeSet();
      if pre[u] != Infected then w
      else
        ReadyCanSpread(c, pre, w.actual, u);
        Spread(c, u, w)
  }

  /** One full sweep. */
  function Sweep(c: Setup, pre: map<Node, int>, cursor: nat): (w: Work)
    requires Ready(c, pre)
    ensures forall v :: v in pre ==> v in w.actual
  {
    SweepUpTo(c, pre, cursor, |c.graph.nodes|)
  }


  /** The report of a later call: the changes from `pre`, the populations
      after the sweep and their changes. */
  function SweepResult(c: Setup, pre: map<Node, int>, iteration: nat, cursor: nat, nodeStatus: bool): (res: IterationResult)
    requires Ready(c, pre)
    ensures res.iteration == iteration
    ensures !nodeStatus ==> res.status == map[]
    ensures nodeStatus ==> forall u :: u in res.status <==> u in pre && pre[u] != Sweep(c, pre, cursor).actual[u]
    ensures res.nodeCount.Keys == StatusSet && res.statusDelta.Keys == StatusSet
    ensures forall s :: s in StatusSet ==> res.nodeCount[s] == Count(Sweep(c, pre, cursor).actual, s)
  {
    var d := StatusDelta(pre, Sweep(c, pre, cursor).actual, StatusSet);
    IterationResult(iteration, if nodeStatus then d.delta else map[], d.nodeCount, d.statusDelta)
  }

  class IcepModel {
    const graph: Graph
    const permeability: real
    const com: map<Node, int>
    const edgeThreshold: map<(Node, Node), real>
    const sample: nat -> real
    var status: map<Node, int>
    var actualIteration: nat
    var cursor: nat

    function Env(): Setup {
      Setup(graph, permeability, com, edgeThreshold, sample)
    }

    ghost predicate Valid()
      reads this
    {
      Env().Valid() && status.Keys == graph.NodeSet()
    }

    /** A model over `graph` with a validated permeability, the node and
        edge parameters, and the seeded statuses `initial`. */
    constructor (graph: Graph, permeability: real, com: map<Node, int>, edgeThreshold: map<(Node, Node), real>,
                 sample: nat -> real, initial: map<Node, int>)
      requires graph.Valid() && 0.0 <= permeability <= 1.0
      requires forall k: nat :: 0.0 <= sample(k) < 1.0
      requires initial.Keys == graph.NodeSet()
      ensures Valid()
      ensures this.graph == graph && this.permeability == permeability && this.com == com
      ensures this.edgeThreshold == edgeThreshold && this.sample == sample
      ensures status == initial && actualIteration == 0 && cursor == 0
    {
      this.graph := graph;
      this.permeability := permeability;
      this.com := com;
      this.edgeThreshold := edgeThreshold;
      this.sample := sample;
      status := initial;
      actualIteration := 0;
      cursor := 0;
    }

    /** One call of `iteration(node_status)`. The first call only reports
        the seeded ledger; every later call performs one sweep and replaces
        the ledger with its working copy. */
    method Iteration(nodeStatus: bool) returns (res: IterationResult)
      requires Valid()
      requires actualIteration != 0 ==> CommunitiesKnown(Env(), CleanInitialStatus(status, StatusSet))
      modifies this
      ensures Valid()
      ensures old(actualIteration) == 0 ==>
        && status == CleanInitialStatus(old(status), StatusSet) && actualIteration == 1 && cursor == old(cursor)
        && res == FirstResult(status, nodeStatus, StatusSet)
      ensures old(actualIteration) != 0 ==>
        var pre := CleanInitialStatus(old(status), StatusSet);
        && Work(status, cursor) == Sweep(Env(), pre, old(cursor))
        && actualIteration == old(actualIteration) + 1
        && res == SweepResult(Env(), pre, old(actualIteration), old(cursor), nodeStatus)
    {
      status := CleanInitialStatus(status, StatusSet);
      var actual := status;
      if actualIteration == 0 {
        actualIteration := actualIteration + 1;
        var report := StatusDelta(status, actual, StatusSet);
        if nodeStatus {
          res := IterationResult(0, actual, report.nodeCount, report.statusDelta);
        } else {
          res := IterationResult(0, map[], report.nodeCount, report.statusDelta);
        }
        return;
      }
      actual := SweepNodes(actual);
      var report := StatusDelta(status, actual, StatusSet);
      status := actual;
      actualIteration := actualIteration + 1;
      if nodeStatus {
        res := IterationResult(actualIteration - 1, report.delta, report.nodeCount, report.statusDelta);
      } else {
        res := IterationResult(actualIteration - 1, map[], report.nodeCount, report.statusDelta);
      }
    }

    /** The loop of a later call: every node that is Infected in the live
        ledger takes its turn; the live ledger itself is not changed. */
    method SweepNodes(actual0: map<Node, int>) returns (actual: map<Node, int>)
      requires Ready(Env(), status) && actual0 == status
      modifies this
      ensures status == old(status) && actualIteration == old(actualIteration)
      ensures Work(actual, cursor) == Sweep(Env(), status, old(cursor))
      ensures actual.Keys == status.Keys
    {
      ghost var c := Env();
      ghost var cursor0 := cursor;
      actual := actual0;
      var nodes := graph.nodes;
      var i := 0;
      while i < |nodes|
        invariant 0 <= i <= |nodes| && nodes == c.graph.nodes && c == Env()
        invariant status == old(status) && actualIteration == old(actualIteration)
        invariant Work(actual, cursor) == SweepUpTo(c, status, cursor0, i)
      {
        var u := nodes[i];
        assert u in graph.NodeSet();
        if status[u] == Infected {
          ReadyCanSpread(c, status, actual, u);
          actual := SpreadFrom(u, actual);
        }
        i := i + 1;
      }
      SweepKeys(c, status, cursor0, |nodes|);
    }

    /** The turn of one infected node `u`: try every still-susceptible
        neighbour in order, carrying the threshold from one neighbour to the
        next, then mark `u` Removed. */
    method SpreadFrom(u: Node, actual: map<Node, int>) returns (actual': map<Node, int>)
      requires CanSpread(Env(), u, actual)
      modifies this
      ensures Work(actual', cursor) == Spread(Env(), u, Work(actual, old(cursor)))
      ensures status == old(status) && actualIteration == old(actualIteration)
    {
      ghost var c := Env();
      var neighbors := graph.Neighbors(u);
      var same := SameCommunity(com, u, neighbors);
      actual' := actual;
      if |neighbors| > 0 {
        ghost var start := Scan(actual, cursor, 1.0 / (|neighbors| as real));
        var threshold := 1.0 / (|neighbors| as real);
        var j := 0;
        while j < |neighbors|
          invariant 0 <= j <= |neighbors| && c == Env()
          invariant status == old(status) && actualIteration == old(actualIteration)
          invariant ScanReady(c, u, neighbors, start)
          invariant Scan(actual', cursor, threshold) == ScanUpTo(c, u, neighbors, j, start)
        {
          actual', threshold := TryNeighbour(u, neighbors, |same|, neighbors[j], actual', threshold);
          j := j + 1;
        }
      }
      actual' := actual'[u := Removed];
    }

    /** `u` tries its neighbour `v`: a susceptible `v` gets the threshold of
        its community relation (or keeps the previous one) and one draw, and
        is infected when the draw does not exceed the threshold. */
    method TryNeighbour(u: Node, neighbors: seq<Node>, same: nat, v: Node, actual: map<Node, int>, threshold: real)
      returns (actual': map<Node, int>, threshold': real)
      requires ScanReady(Env(), u, neighbors, Scan(actual, cursor, threshold)) && v in neighbors
      requires same == |SameCommunity(com, u, neighbors)|
      modifies this
      ensures Scan(actual', cursor, threshold') == ScanStep(Env(), u, neighbors, Scan(actual, old(cursor), threshold), v)
      ensures status == old(status) && actualIteration == old(actualIteration)
    {
      actual', threshold' := actual, threshold;
      if actual[v] == Susceptible {
        threshold' := ChooseThreshold(u, neighbors, same, v, threshold);
        var flip := sample(cursor);
        cursor := cursor + 1;
        if flip <= threshold' {
          actual' := actual[v := Infected];
        }
      }
    }

    /** The threshold `u` applies to its susceptible neighbour `v`: the
        embeddedness within the community; across communities the edge
        threshold times the permeability, looked up as `(u, v)` and then,
        undirected only, as `(v, u)`; otherwise the previous value. */
    method ChooseThreshold(u: Node, neighbors: seq<Node>, same: nat, v: Node, threshold: real) returns (threshold': real)
      requires neighbors != [] && u in com && v in com && forall n :: n in neighbors ==> n in com
      requires same == |SameCommunity(com, u, neighbors)|
      ensures threshold' == Threshold(Env(), u, neighbors, v, threshold)
    {
      threshold' := threshold;
      if com[u] == com[v] {
        threshold' := (same as real) / (|neighbors| as real);
      } else {
        var p := permeability;
        if (u, v) in edgeThreshold {
          threshold' := edgeThreshold[(u, v)] * p;
        } else if (v, u) in edgeThreshold && !graph.directed {
          threshold' := edgeThreshold[(v, u)] * p;
        }
      }
    }
  }

  /** The sweep keeps exactly the ledger's nodes. */
  lemma {:induction false} SweepKeys(c: Setup, pre: map<Node, int>, cursor: nat, n: nat)
    requires Ready(c, pre) && n <= |c.graph.nodes|
    ensures SweepUpTo(c, pre, cursor, n).actual.Keys == pre.Keys
  {
    if n > 0 {
      SweepKeys(c, pre, cursor, n - 1);
      var u := c.graph.nodes[n - 1];
      assert u in c.graph.NodeSet();
      if pre[u] == Infected {
        ReadyCanSpread(c, pre, SweepUpTo(c, pre, cursor, n - 1).actual, u);
        SpreadChanges(c, u, SweepUpTo(c, pre, cursor, n - 1));
      }
    }
  }

  /** A scan only turns susceptible neighbours into infected ones, keeps
      the working copy's nodes, and takes at most one draw per neighbour. */
  lemma {:induction false} ScanOnlyInfects(c: Setup, u: Node, ns: seq<Node>, n: nat, s: Scan)
    requires ScanReady(c, u, ns, s) && n <= |ns|
    ensures var r := ScanUpTo(c, u, ns, n, s);
      && r.actual.Keys == s.actual.Keys
      && (forall v :: v in s.actual ==> r.actual[v] == s.actual[v] || (s.actual[v] == Susceptible && r.actual[v] == Infected))
      && s.cursor <= r.cursor <= s.cursor + n
  {
    if n > 0 {
      ScanOnlyInfects(c, u, ns, n - 1, s);
    }
  }

  /** An infected node without neighbours goes to Removed, takes no draw
      and changes nothing else. */
  lemma IsolatedNodeTakesNoDraw(c: Setup, u: Node, w: Work)
    requires CanSpread(c, u, w.actual) && c.graph.adj[u] == []
    ensures Spread(c, u, w) == Work(w.actual[u := Removed], w.cursor)
  {
  }

  /** The turn of an infected node leaves it Removed, changes every other
      node at most from Susceptible to Infected, keeps the nodes, and takes
      at most one draw per neighbour. */
  lemma SpreadChanges(c: Setup, u: Node, w: Work)
    requires CanSpread(c, u, w.actual)
    ensures var r := Spread(c, u, w);
      && r.actual.Keys == w.actual.Keys
      && r.actual[u] == Removed
      && (forall v :: v in w.actual && v != u ==>
            r.actual[v] == w.actual[v] || (w.actual[v] == Susceptible && r.actual[v] == Infected))
      && w.cursor <= r.cursor <= w.cursor + |c.graph.adj[u]|
  {
    var ns := c.graph.Neighbors(u);
    if |ns| > 0 {
      ScanOnlyInfects(c, u, ns, |ns|, Scan(w.actual, w.cursor, 1.0 / (|ns| as real)));
    }
  }

  /** How the sweep leaves each node, compared with the pre-sweep ledger. */
  ghost predicate SweptFrom(pre: map<Node, int>, now: map<Node, int>, v: Node)
    requires v in pre && v in now
  {
    if pre[v] == Infected then now[v] == Infected || now[v] == Removed
    else if pre[v] == Susceptible then now[v] == Susceptible || now[v] == Infected
    else now[v] == pre[v]
  }

  /** After the first `n` nodes: every node moved at most as `SweptFrom`
      allows, and each of those `n` nodes that was Infected is Removed. */
  lemma {:induction false} SweepProgress(c: Setup, pre: map<Node, int>, cursor: nat, n: nat)
    requires Ready(c, pre) && n <= |c.graph.nodes|
    ensures var w := SweepUpTo(c, pre, cursor, n);
      && (forall v :: v in pre ==> SweptFrom(pre, w.actual, v))
      && (forall j :: 0 <= j < n && pre[c.graph.nodes[j]] == Infected ==> w.actual[c.graph.nodes[j]] == Removed)
  {
    if n > 0 {
      SweepProgress(c, pre, cursor, n - 1);
      SweepKeys(c, pre, cursor, n - 1);
      var w := SweepUpTo(c, pre, cursor, n - 1);
      var u := c.graph.nodes[n - 1];
      assert u in c.graph.NodeSet();
      if pre[u] == Infected {
        ReadyCanSpread(c, pre, w.actual, u);
        SpreadChanges(c, u, w);
        var r := Spread(c, u, w);
        forall v | v in pre ensures SweptFrom(pre, r.actual, v) {
          assert SweptFrom(pre, w.actual, v);
        }
        forall j | 0 <= j < n && pre[c.graph.nodes[j]] == Infected
          ensures r.actual[c.graph.nodes[j]] == Removed
        {
          if j < n - 1 {
            var x := c.graph.nodes[j];
            assert w.actual[x] == Removed;
          }
        }
      }
    }
  }

  /** The outcome of a sweep: every node Infected before it is Removed,
      a node Susceptible before it is Susceptible or newly Infected (and so
      not processed until the next sweep), Removed is final, and nothing
      else changes. */
  lemma SweepOutcome(c: Setup, pre: map<Node, int>, cursor: nat, v: Node)
    requires Ready(c, pre) && v in pre
    ensures var now := Sweep(c, pre, cursor).actual;
      && (pre[v] == Infected ==> now[v] == Removed)
      && (pre[v] == Susceptible ==> now[v] == Susceptible || now[v] == Infected)
      && (pre[v] == Removed ==> now[v] == Removed)
      && (now[v] == Infected ==> pre[v] == Susceptible)
  {
    SweepProgress(c, pre, cursor, |c.graph.nodes|);
    assert v in c.graph.NodeSet();
    var j :| 0 <= j < |c.graph.nodes| && c.graph.nodes[j] == v;
  }

  /** A threshold of at least 1 always infects a still-susceptible
      neighbour, since every draw is below 1. */
  lemma FullThresholdInfects(c: Setup, u: Node, ns: seq<Node>, s: Scan, v: Node)
    requires c.Valid() && ScanReady(c, u, ns, s) && v in ns && s.actual[v] == Susceptible
    requires Threshold(c, u, ns, v, s.threshold) >= 1.0
    ensures ScanStep(c, u, ns, s, v).actual[v] == Infected
  {
  }

  /** A node with a single neighbour that is susceptible infects it, unless
      an edge threshold across communities says otherwise: the starting
      threshold `1/1` and the same-community share `1/1` are both 1. */
  lemma SingleNeighbourInfects(c: Setup, u: Node, w: Work)
    requires c.Valid() && u in c.graph.nodes && u in w.actual && u in c.com
    requires |c.graph.adj[u]| == 1
    requires forall v :: v in c.graph.adj[u] ==> v in w.actual && v in c.com
    requires var v := c.graph.adj[u][0];
      v != u && w.actual[v] == Susceptible && (c.com[u] == c.com[v] || EdgeWeight(c, u, v).None?)
    ensures Spread(c, u, w).actual[c.graph.adj[u][0]] == Infected
  {
    var ns := c.graph.Neighbors(u);
    var v := ns[0];
    assert v in ns;
    var s := Scan(w.actual, w.cursor, 1.0 / (|ns| as real));
    assert ScanUpTo(c, u, ns, 1, s) == ScanStep(c, u, ns, s, v);
    if c.com[u] == c.com[v] {
      assert SameCommunity(c.com, u, ns[..0]) == [];
      assert SameCommunity(c.com, u, ns) == [v];
    }
    FullThresholdInfects(c, u, ns, s, v);
  }

  /** The threshold is carried from one neighbour to the next: node 0 has
      neighbours 1, 2 (its community) and 3 (another one) and no edge
      thresholds, so neighbour 3 is compared with the share 2/3 left by
      neighbour 2, not against the starting 1/3. */
  lemma ThresholdCarriesOver()
    ensures var g := Graph([0, 1, 2, 3], map[0 := [1, 2, 3], 1 := [0], 2 := [0], 3 := [0]],
                           map[0 := [], 1 := [], 2 := [], 3 := []], false);
      var c := Setup(g, 0.5, map[0 := 7, 1 := 7, 2 := 7, 3 := 8], map[], (k: nat) => 0.9);
      var ns := [1, 2, 3];
      var s := Scan(map[0 := Infected, 1 := Susceptible, 2 := Susceptible, 3 := Susceptible], 0, 1.0 / 3.0);
      && ScanReady(c, 0, ns, s)
      && ScanUpTo(c, 0, ns, 2, s).threshold == 2.0 / 3.0
      && ScanUpTo(c, 0, ns, 3, s).threshold == 2.0 / 3.0
      && ScanUpTo(c, 0, ns, 3, s).cursor == 3
  {
    var g := Graph([0, 1, 2, 3], map[0 := [1, 2, 3], 1 := [0], 2 := [0], 3 := [0]],
                   map[0 := [], 1 := [], 2 := [], 3 := []], false);
    var c := Setup(g, 0.5, map[0 := 7, 1 := 7, 2 := 7, 3 := 8], map[], (k: nat) => 0.9);
    var ns := [1, 2, 3];
    var s := Scan(map[0 := Infected, 1 := Susceptible, 2 := Susceptible, 3 := Susceptible], 0, 1.0 / 3.0);
    assert ns[..1] == [1] && ns[..2] == [1, 2] && [1, 2][..1] == [1] && [1][..0] == [];
    assert SameCommunity(c.com, 0, [1]) == [1];
    assert SameCommunity(c.com, 0, [1, 2]) == [1, 2];
    assert SameCommunity(c.com, 0, ns) == [1, 2];
    assert ScanReady(c, 0, ns, s);
    assert ScanUpTo(c, 0, ns, 0, s) == s;
    assert Threshold(c, 0, ns, 1, 1.0 / 3.0) == 2.0 / 3.0;
    assert c.sample(0) == 0.9;
    var s1 := ScanUpTo(c, 0, ns, 1, s);
    assert s1 == ScanStep(c, 0, ns, s, 1);
    assert s1 == Scan(s.actual, 1, 2.0 / 3.0);
    var s2 := ScanUpTo(c, 0, ns, 2, s);
    assert s2 == Scan(s.actual, 2, 2.0 / 3.0);
    assert EdgeWeight(c, 0, 3) == None;
  }

  /** The populations reported by a later call add up to the number of
      nodes and their changes cancel out: the sweep only moves nodes between
      statuses. */
  lemma SweepCountsAddUp(c: Setup, pre: map<Node, int>, iteration: nat, cursor: nat, nodeStatus: bool)
    requires Ready(c, pre) && forall u :: u in pre ==> pre[u] in StatusSet
    ensures Total(SweepResult(c, pre, iteration, cursor, nodeStatus).nodeCount, Statuses) == |c.graph.nodes|
    ensures Total(SweepResult(c, pre, iteration, cursor, nodeStatus).statusDelta, Statuses) == 0
  {
    var now := Sweep(c, pre, cursor).actual;
    var d := StatusDelta(pre, now, StatusSet);
    SweepKeepsCodes(c, pre, cursor);
    assert forall k :: 0 <= k < |Statuses| ==> Statuses[k] in StatusSet;
    PopulationConserved(d.nodeCount, now, Statuses);
    DeltasAddUp(d.statusDelta, pre, now, Statuses);
    DistinctCard(c.graph.nodes);
  }

  /** A sweep keeps the ledger's nodes and its status codes. */
  lemma SweepKeepsCodes(c: Setup, pre: map<Node, int>, cursor: nat)
    requires Ready(c, pre) && forall u :: u in pre ==> pre[u] in StatusSet
    ensures Sweep(c, pre, cursor).actual.Keys == pre.Keys
    ensures forall v :: v in Sweep(c, pre, cursor).actual ==> Sweep(c, pre, cursor).actual[v] in Statuses
  {
    var now := Sweep(c, pre, cursor).actual;
    SweepKeys(c, pre, cursor, |c.graph.nodes|);
    forall v | v in now ensures now[v] in Statuses {
      SweepOutcome(c, pre, cursor, v);
    }
  }
}
