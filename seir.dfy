/** The SEIR model: every node moves at most one step along
    Susceptible -> Exposed -> Infected -> Removed per sweep. Decisions read the
    ledger as it was before the sweep and are written into a working copy;
    the exposure and infection times are kept in a progress ledger. */
module Seir {
  import opened Diffusion

  // available_statuses
  const Susceptible := 0
  const Infected := 1
  const Exposed := 2
  const Removed := 3
  const Statuses: seq<int> := [Susceptible, Exposed, Infected, Removed]
  const StatusSet: set<int> := {Susceptible, Exposed, Infected, Removed}

  /** The model parameters: latent rate `alpha`, infection rate `beta`,
      recovery rate `gamma` and the `tp_rate` switch. */
  datatype Params = Params(alpha: real, beta: real, gamma: real, tpRate: real)
  {
    /** Each parameter lies in its declared range [0, 1]. */
    predicate InRange() {
      && 0.0 <= alpha <= 1.0
      && 0.0 <= beta <= 1.0
      && 0.0 <= gamma <= 1.0
      && 0.0 <= tpRate <= 1.0
    }
  }

  /** What a sweep reads and never writes: the graph, the parameters, the
      exponential function and the seeded random stream (draw `k` is
      `sample(k)`). */
  datatype Setup = Setup(graph: Graph, params: Params, exp: real -> real, sample: nat -> real)
  {
    ghost predicate Valid() {
      && graph.Valid()
      && forall k: nat :: 0.0 <= sample(k) < 1.0
    }
  }

  /** The mutable state: status ledger, progress ledger, iteration counter
      and the position of the next random draw. */
  datatype Ledger = Ledger(status: map<Node, int>, progress: map<Node, int>, iteration: nat, cursor: nat)

  function Pow(x: real, k: nat): real {
    if k == 0 then 1.0 else x * Pow(x, k - 1)
  }

  /** A power of a probability is a probability. */
  lemma {:induction false} PowBounds(x: real, k: nat)
    requires 0.0 <= x <= 1.0
    ensures 0.0 <= Pow(x, k) <= 1.0
  {
    if k > 0 {
      PowBounds(x, k - 1);
      ScaleDown(x, Pow(x, k - 1));
    }
  }

  lemma ScaleDown(x: real, p: real)
    requires 0.0 <= x <= 1.0 && 0.0 <= p
    ensures 0.0 <= x * p <= p
  {
  }

  /** Raising a probability to a higher power never makes it larger. */
  lemma {:induction false} PowAntitone(x: real, j: nat, k: nat)
    requires 0.0 <= x <= 1.0 && j <= k
    ensures Pow(x, k) <= Pow(x, j)
  {
    if j < k {
      PowAntitone(x, j, k - 1);
      PowBounds(x, k - 1);
      ScaleDown(x, Pow(x, k - 1));
    }
  }

  /** The nodes whose statuses decide a susceptible node's exposure: its
      predecessors in a directed graph, its neighbours otherwise. */
  function Contacts(g: Graph, u: Node): (cs: seq<Node>)
    requires g.Valid() && u in g.nodes
    ensures forall v :: v in cs ==> v in g.nodes
  {
    if g.directed then g.Predecessors(u) else g.Neighbors(u)
  }

  /** Number of entries of `contacts` whose status is Infected: the length
      of the source's `infected_neighbors` list. */
  function InfectedCount(contacts: seq<Node>, status: map<Node, int>): (k: nat)
    requires forall v :: v in contacts ==> v in status
    ensures k == |set i | 0 <= i < |contacts| && contacts[i] in status && status[contacts[i]] == Infected|
    ensures k <= |contacts|
    ensures k == 0 <==> forall v :: v in contacts ==> status[v] != Infected
  {
    if contacts == [] then 0
    else
      var n := |contacts| - 1;
      var init, v := contacts[..n], contacts[n];
      assert v in contacts;
      assert forall w :: w in init ==> w in contacts;
      var k0 := InfectedCount(init, status);
      var hit := if status[v] == Infected then 1 else 0;
      InfectedIndices(contacts, status);
      k0 + hit
  }

  /** The infected positions of `contacts` are those of its prefix plus,
      when the last contact is infected, the last position. */
  lemma InfectedIndices(contacts: seq<Node>, status: map<Node, int>)
    requires contacts != [] && forall v :: v in contacts ==> v in status
    ensures var n := |contacts| - 1;
      && contacts[n] in status
      && (forall w :: w in contacts[..n] ==> w in status)
      && |set i | 0 <= i < |contacts| && contacts[i] in status && status[contacts[i]] == Infected| ==
         |set i | 0 <= i < n && contacts[..n][i] in status && status[contacts[..n][i]] == Infected| + (if status[contacts[n]] == Infected then 1 else 0)
  {
    var n := |contacts| - 1;
    var init := contacts[..n];
    var last := contacts[n];
    assert forall w :: w in init ==> w in contacts;
    assert last in contacts;
    assert last in status;
    var all := set i | 0 <= i < |contacts| && contacts[i] in status && status[contacts[i]] == Infected;
    var pre := set i | 0 <= i < n && init[i] in status && status[init[i]] == Infected;
    if status[last] == Infected {
      assert all == pre + {n};
    } else {
      assert all == pre;
    }
  }

  /** The count only depends on the statuses of the contacts themselves. */
  lemma {:induction false} InfectedCountLocal(contacts: seq<Node>, s1: map<Node, int>, s2: map<Node, int>)
    requires forall v :: v in contacts ==> v in s1 && v in s2 && s1[v] == s2[v]
    ensures InfectedCount(contacts, s1) == InfectedCount(contacts, s2)
  {
    if contacts != [] {
      var n := |contacts| - 1;
      assert contacts[n] in contacts;
      assert forall w :: w in contacts[..n] ==> w in contacts;
      InfectedCountLocal(contacts[..n], s1, s2);
    }
  }

  /** Probability that a susceptible node with `k` infected contacts becomes
      exposed: `1-(1-beta)^k` when `tp_rate` is 1, otherwise `beta` once any
      contact is infected. */
  function ExposureThreshold(p: Params, k: nat): (t: real)
    ensures k == 0 ==> t == 0.0
    ensures p.InRange() ==> 0.0 <= t <= 1.0
  {
    ExposureBounds(p, k);
    if p.tpRate == 1.0 then 1.0 - Pow(1.0 - p.beta, k)
    else if k > 0 then p.beta else 0.0
  }

  /** With `beta` in [0, 1], `1 - (1-beta)^k` is a probability. */
  lemma ExposureBounds(p: Params, k: nat)
    ensures p.InRange() ==> 0.0 <= 1.0 - Pow(1.0 - p.beta, k) <= 1.0
  {
    if p.InRange() {
      PowBounds(1.0 - p.beta, k);
    }
  }

  /** With parameters in range the exposure probability is a probability and
      never decreases as more contacts are infected. */
  lemma ExposureThresholdMonotone(p: Params, j: nat, k: nat)
    requires p.InRange() && j <= k
    ensures 0.0 <= ExposureThreshold(p, j) <= ExposureThreshold(p, k) <= 1.0
  {
    PowBounds(1.0 - p.beta, j);
    PowBounds(1.0 - p.beta, k);
    PowAntitone(1.0 - p.beta, j, k);
    if p.tpRate != 1.0 && j == 0 {
      assert ExposureThreshold(p, j) == 0.0;
    }
  }

  /** `-(elapsed * rate)`, built by repeated subtraction. */
  function NegScaled(elapsed: int, rate: real): (r: real)
    decreases if elapsed < 0 then -elapsed else elapsed
  {
    if elapsed == 0 then 0.0
    else if elapsed > 0 then NegScaled(elapsed - 1, rate) - rate
    else NegScaled(elapsed + 1, rate) + rate
  }

  lemma {:induction false} NegScaledIsProduct(elapsed: int, rate: real)
    ensures NegScaled(elapsed, rate) == -(elapsed as real) * rate
    decreases if elapsed < 0 then -elapsed else elapsed
  {
    if elapsed > 0 {
      NegScaledIsProduct(elapsed - 1, rate);
    } else if elapsed < 0 {
      NegScaledIsProduct(elapsed + 1, rate);
    }
  }

  /** `1 - exp(-(elapsed) * rate)`: probability of leaving a timed state. */
  function Hazard(exp: real -> real, elapsed: int, rate: real): (h: real)
    ensures elapsed == 0 ==> h == 1.0 - exp(0.0)
  {
    1.0 - exp(NegScaled(elapsed, rate))
  }

  /** The hazard is `1 - exp(-(elapsed * rate))` for every elapsed time. */
  lemma HazardFormula(exp: real -> real, elapsed: int, rate: real)
    ensures Hazard(exp, elapsed, rate) == 1.0 - exp(-(elapsed as real) * rate)
  {
    NegScaledIsProduct(elapsed, rate);
  }

  /** Every Exposed or Infected node has a recorded entry time. */
  ghost predicate ProgressCovers(st: Ledger) {
    forall u :: u in st.status && (st.status[u] == Exposed || st.status[u] == Infected) ==> u in st.progress
  }

  /** The ledger holds exactly the graph's nodes and the timed nodes have a
      progress entry. */
  ghost predicate Ready(c: Setup, st: Ledger) {
    && c.Valid()
    && st.status.Keys == c.graph.NodeSet()
    && ProgressCovers(st)
  }

  /** The status the `i`-th node of the sweep moves to, decided on the
      pre-sweep ledger with draw `cursor + i`. */
  function Next(c: Setup, st: Ledger, i: nat): (d: int)
    requires Ready(c, st) && i < |c.graph.nodes|
    ensures OneStep(st.status[c.graph.nodes[i]], d)
  {
    var u := c.graph.nodes[i];
    var s := st.status[u];
    var r := c.sample(st.cursor + i);
    if s == Susceptible then
      if r < ExposureThreshold(c.params, InfectedCount(Contacts(c.graph, u), st.status)) then Exposed else Susceptible
    else if s == Exposed then
      if r < Hazard(c.exp, st.iteration - st.progress[u], c.params.alpha) then Infected else Exposed
    else if s == Infected then
      if r < Hazard(c.exp, st.iteration - st.progress[u], c.params.gamma) then Removed else Infected
    else s
  }

  /** The decisions taken for the first `n` nodes, in sweep order. */
  function Decisions(c: Setup, st: Ledger, n: nat): (d: seq<int>)
    requires Ready(c, st) && n <= |c.graph.nodes|
    ensures |d| == n
  {
    if n == 0 then [] else Decisions(c, st, n - 1) + [Next(c, st, n - 1)]
  }

  /** The decisions of the whole sweep. */
  function Plan(c: Setup, st: Ledger): (d: seq<int>)
    requires Ready(c, st)
    ensures |d| == |c.graph.nodes|
  {
    Decisions(c, st, |c.graph.nodes|)
  }

  lemma {:induction false} DecisionAt(c: Setup, st: Ledger, n: nat, j: nat)
    requires Ready(c, st) && j < n <= |c.graph.nodes|
    ensures Decisions(c, st, n)[j] == Next(c, st, j)
  {
    if j < n - 1 {
      DecisionAt(c, st, n - 1, j);
    }
  }

  /** The three timed cases of `Next`, spelt out on the pieces the sweep
      reads. */
  lemma NextCases(c: Setup, st: Ledger, i: nat)
    requires Ready(c, st) && i < |c.graph.nodes|
    ensures var u := c.graph.nodes[i]; var r := c.sample(st.cursor + i);
      st.status[u] == Susceptible ==>
        Next(c, st, i) == if r < ExposureThreshold(c.params, InfectedCount(Contacts(c.graph, u), st.status)) then Exposed else Susceptible
    ensures var u := c.graph.nodes[i]; var r := c.sample(st.cursor + i);
      st.status[u] == Exposed ==>
        Next(c, st, i) == if r < Hazard(c.exp, st.iteration - st.progress[u], c.params.alpha) then Infected else Exposed
    ensures var u := c.graph.nodes[i]; var r := c.sample(st.cursor + i);
      st.status[u] == Infected ==>
        Next(c, st, i) == if r < Hazard(c.exp, st.iteration - st.progress[u], c.params.gamma) then Removed else Infected
    ensures var u := c.graph.nodes[i];
      st.status[u] !in {Susceptible, Exposed, Infected} ==> Next(c, st, i) == st.status[u]
  {
  }

  /** Every listed node has an entry in the status ledger. */
  ghost predicate Listed(nodes: seq<Node>, st: Ledger) {
    forall j :: 0 <= j < |nodes| ==> nodes[j] in st.status
  }

  lemma ReadyListed(c: Setup, st: Ledger)
    requires Ready(c, st)
    ensures Listed(c.graph.nodes, st)
  {
    forall j | 0 <= j < |c.graph.nodes| ensures c.graph.nodes[j] in st.status {
      assert c.graph.nodes[j] in c.graph.NodeSet();
    }
  }

  /** A move from `s` to `d` enters Exposed or Infected, and stamps the
      node's progress entry. */
  predicate Enters(s: int, d: int) {
    (s == Susceptible && d == Exposed) || (s == Exposed && d == Infected)
  }

  /** A move from `s` to `d` is a recovery, which deletes the node from the
      live ledger. */
  predicate Recovers(s: int, d: int) {
    s == Infected && d == Removed
  }

  /** The working copy once the first `n` nodes are done. */
  function StatusBefore(nodes: seq<Node>, st: Ledger, plan: seq<int>, n: nat): (r: map<Node, int>)
    requires Listed(nodes, st) && n <= |nodes| == |plan|
  {
    if n == 0 then st.status
    else StatusBefore(nodes, st, plan, n - 1)[nodes[n - 1] := plan[n - 1]]
  }

  /** The progress ledger once the first `n` nodes are done. */
  function ProgressBefore(nodes: seq<Node>, st: Ledger, plan: seq<int>, n: nat): map<Node, int>
    requires Listed(nodes, st) && n <= |nodes| == |plan|
  {
    if n == 0 then st.progress
    else
      var p := ProgressBefore(nodes, st, plan, n - 1);
      if Enters(st.status[nodes[n - 1]], plan[n - 1]) then p[nodes[n - 1] := st.iteration] else p
  }

  /** The nodes deleted from the live ledger by the first `n` steps. */
  function DeletedBefore(nodes: seq<Node>, st: Ledger, plan: seq<int>, n: nat): set<Node>
    requires Listed(nodes, st) && n <= |nodes| == |plan|
  {
    if n == 0 then {}
    else
      var d := DeletedBefore(nodes, st, plan, n - 1);
      if Recovers(st.status[nodes[n - 1]], plan[n - 1]) then d + {nodes[n - 1]} else d
  }

  /** No susceptible node reads the status of a contact that was deleted
      from the live ledger earlier in the same sweep (such a read fails). */
  ghost predicate NoReadAfterDelete(c: Setup, st: Ledger)
    requires Ready(c, st)
  {
    ReadyListed(c, st);
    var nodes, plan := c.graph.nodes, Plan(c, st);
    forall i, j :: 0 <= i < j < |nodes| && Recovers(st.status[nodes[i]], plan[i]) && st.status[nodes[j]] == Susceptible ==>
      nodes[i] !in Contacts(c.graph, nodes[j])
  }

  /** One full sweep: every node's decided status, the stamped progress
      ledger, the advanced counter and one draw consumed per node. */
  function Sweep(c: Setup, st: Ledger): (r: Ledger)
    requires Ready(c, st)
    ensures r.status.Keys == st.status.Keys
    ensures r.iteration == st.iteration + 1 && r.cursor == st.cursor + |c.graph.nodes|
  {
    ReadyListed(c, st);
    var nodes, plan := c.graph.nodes, Plan(c, st);
    StatusBeforeKeys(nodes, st, plan, |nodes|);
    Ledger(StatusBefore(nodes, st, plan, |nodes|), ProgressBefore(nodes, st, plan, |nodes|), st.iteration + 1, st.cursor + |nodes|)
  }

  /** The nodes that recover in the sweep. */
  function Recovered(c: Setup, st: Ledger): set<Node>
    requires Ready(c, st)
  {
    ReadyListed(c, st);
    DeletedBefore(c.graph.nodes, st, Plan(c, st), |c.graph.nodes|)
  }


  /** The live ledger `status_delta` reads once the sweep is over: the
      pre-sweep ledger without the nodes that recovered in the sweep. */
  function Live(c: Setup, st: Ledger): (live: map<Node, int>)
    requires Ready(c, st)
    ensures live.Keys == st.status.Keys - Recovered(c, st)
    ensures forall u :: u in live ==> live[u] == st.status[u]
  {
    // 0 outside the range, as for the comprehensions of `Diffusion`
    map u | u in st.status && u !in Recovered(c, st) :: if u in st.status && u !in Recovered(c, st) then st.status[u] else 0
  }

  /** The report of a later call. `status_delta` runs while the live ledger
      still lacks the nodes that recovered in this sweep. */
  function SweepResult(c: Setup, st: Ledger, nodeStatus: bool): (res: IterationResult)
    requires Ready(c, st)
    ensures res.iteration == st.iteration
    ensures !nodeStatus ==> res.status == map[]
    ensures res.nodeCount.Keys == StatusSet && res.statusDelta.Keys == StatusSet
    ensures forall s :: s in StatusSet ==> res.nodeCount[s] == Count(Sweep(c, st).status, s)
  {
    var d := StatusDelta(Live(c, st), Sweep(c, st).status, StatusSet);
    IterationResult(st.iteration, if nodeStatus then d.delta else map[], d.nodeCount, d.statusDelta)
  }

  class SeirModel {
    const graph: Graph
    const params: Params
    const exp: real -> real
    const sample: nat -> real
    var status: map<Node, int>
    var progress: map<Node, int>
    var actualIteration: nat
    var cursor: nat

    function Env(): Setup {
      Setup(graph, params, exp, sample)
    }

    ghost predicate Valid()
      reads this
    {
      Env().Valid() && status.Keys == graph.NodeSet()
    }

    /** The ledger as `iteration()` sees it once `clean_initial_status` ran. */
    function Cleaned(): Ledger
      reads this
    {
      Ledger(CleanInitialStatus(status, StatusSet), progress, actualIteration, cursor)
    }

    function Current(): Ledger
      reads this
    {
      Ledger(status, progress, actualIteration, cursor)
    }

    /** A model over `graph` with validated parameters and the seeded
        statuses `initial`; nothing is in progress and no draw is used. */
    constructor (graph: Graph, params: Params, exp: real -> real, sample: nat -> real, initial: map<Node, int>)
      requires graph.Valid() && params.InRange()
      requires forall k: nat :: 0.0 <= sample(k) < 1.0
      requires initial.Keys == graph.NodeSet()
      ensures Valid()
      ensures this.graph == graph && this.params == params && this.exp == exp && this.sample == sample
      ensures status == initial && progress == map[] && actualIteration == 0 && cursor == 0
    {
      this.graph := graph;
      this.params := params;
      this.exp := exp;
      this.sample := sample;
      status := initial;
      progress := map[];
      actualIteration := 0;
      cursor := 0;
    }

    /** One call of `iteration(node_status)`. The first call only reports
        the seeded ledger; every later call performs one sweep. A later call
        needs every timed node to have a progress entry and no susceptible
        node to read a contact deleted earlier in the sweep: otherwise the
        source fails on a missing key. */
    method Iteration(nodeStatus: bool) returns (res: IterationResult)
      requires Valid()
      requires actualIteration != 0 ==> ProgressCovers(Cleaned())
      requires actualIteration != 0 ==> NoReadAfterDelete(Env(), Cleaned())
      modifies this
      ensures Valid()
      ensures old(actualIteration) == 0 ==>
        && Current() == Ledger(old(Cleaned()).status, old(progress), 1, old(cursor))
        && res == FirstResult(status, nodeStatus, StatusSet)
      ensures old(actualIteration) != 0 ==>
        && Current() == Sweep(Env(), old(Cleaned()))
        && res == SweepResult(Env(), old(Cleaned()), nodeStatus)
    {
      status := CleanInitialStatus(status, StatusSet);
      var actual := status;
      if actualIteration == 0 {
        actualIteration := actualIteration + 1;
        var report := StatusDelta(status, actual, StatusSet);
        if nodeStatus {
          res := IterationResult(0, actual, report.nodeCount, report.statusDelta);
        } else {
          res := IterationResult(0, map[], report.nodeCount, report.statusDelta);
        }
        return;
      }
      ghost var st := Current();
      assert st == old(Cleaned());
      actual := SweepNodes(st, actual);
      var report := StatusDelta(status, actual, StatusSet);
      status := actual;
      actualIteration := actualIteration + 1;
      if nodeStatus {
        res := IterationResult(actualIteration - 1, report.delta, report.nodeCount, report.statusDelta);
      } else {
        res := IterationResult(actualIteration - 1, map[], report.nodeCount, report.statusDelta);
      }
    }

    /** The loop of a later call: visit the nodes in order, deciding each on
        the ledger `st` as it stood before the sweep. On return the working
        copy is the sweep's status ledger, the live ledger has lost the
        nodes that recovered, the progress ledger is stamped and one draw
        per node is used. */
    method SweepNodes(ghost st: Ledger, actual0: map<Node, int>) returns (actual: map<Node, int>)
      requires Ready(Env(), st) && NoReadAfterDelete(Env(), st)
      requires Current() == st && actual0 == st.status
      modifies this
      ensures actual == Sweep(Env(), st).status && actual.Keys == st.status.Keys
      ensures status == Live(Env(), st)
      ensures progress == Sweep(Env(), st).progress
      ensures actualIteration == st.iteration && cursor == Sweep(Env(), st).cursor
    {
      ghost var c := Env();
      ReadyListed(c, st);
      ghost var plan := Plan(c, st);
      actual := actual0;
      var nodes := graph.nodes;
      var i := 0;
      while i < |nodes|
        invariant 0 <= i <= |nodes| && nodes == c.graph.nodes && c == Env()
        invariant Ready(c, st) && Listed(nodes, st) && NoReadAfterDelete(c, st) && plan == Plan(c, st)
        invariant actualIteration == st.iteration && cursor == st.cursor + i
        invariant actual == StatusBefore(nodes, st, plan, i)
        invariant status == st.status - DeletedBefore(nodes, st, plan, i)
        invariant progress == ProgressBefore(nodes, st, plan, i)
      {
        BeforeVisit(c, st, i);
        actual := Visit(st, plan[i], i, actual);
        StepLedgers(nodes, st, plan, i);
        i := i + 1;
      }
      StatusBeforeKeys(nodes, st, plan, |nodes|);
      assert status == Live(c, st);
    }

    /** The body of the sweep for the `i`-th node: read its status from the
        live ledger, take one draw, and apply at most one transition to the
        working copy, stamping entry times and deleting a recovering node
        from the live ledger. The decision it takes is `Next`'s. */
    method Visit(ghost st: Ledger, ghost d: int, i: nat, actual: map<Node, int>) returns (actual': map<Node, int>)
      requires Ready(Env(), st) && i < |graph.nodes| && d == Next(Env(), st, i)
      requires actualIteration == st.iteration && cursor == st.cursor + i
      requires var u := graph.nodes[i];
        && u in status && status[u] == st.status[u]
        && u in actual && actual[u] == st.status[u]
        && (u in st.progress ==> u in progress && progress[u] == st.progress[u])
      requires var u := graph.nodes[i];
        st.status[u] == Susceptible ==> forall v :: v in Contacts(graph, u) ==> v in status && status[v] == st.status[v]
      modifies this
      ensures var u := graph.nodes[i]; actual' == actual[u := d]
      ensures actualIteration == old(actualIteration) && cursor == old(cursor) + 1
      ensures var u := graph.nodes[i];
        progress == if Enters(st.status[u], d) then old(progress)[u := actualIteration] else old(progress)
      ensures var u := graph.nodes[i];
        status == if Recovers(st.status[u], d) then old(status) - {u} else old(status)
    {
      var u := graph.nodes[i];
      NextCases(Env(), st, i);
      actual' := actual;
      var uStatus := status[u];
      var eventp := sample(cursor);
      cursor := cursor + 1;
      var neighbors := graph.Neighbors(u);
      if graph.directed {
        neighbors := graph.Predecessors(u);
      }
      if uStatus == Susceptible {
        InfectedCountLocal(neighbors, status, st.status);
        var k := InfectedCount(neighbors, status);
        if eventp < ExposureThreshold(params, k) {
          actual' := actual'[u := Exposed];
          progress := progress[u := actualIteration];
        }
      } else if uStatus == Exposed {
        if eventp < Hazard(exp, actualIteration - progress[u], params.alpha) {
          actual' := actual'[u := Infected];
          progress := progress[u := actualIteration];
        }
      } else if uStatus == Infected {
        if eventp < Hazard(exp, actualIteration - progress[u], params.gamma) {
          actual' := actual'[u := Removed];
          status := status - {u};
        }
      }
    }
  }

  /** Every node of the working copy keeps its ledger entry. */
  lemma {:induction false} StatusBeforeKeys(nodes: seq<Node>, st: Ledger, plan: seq<int>, n: nat)
    requires Listed(nodes, st) && n <= |nodes| == |plan|
    ensures StatusBefore(nodes, st, plan, n).Keys == st.status.Keys
  {
    if n > 0 {
      StatusBeforeKeys(nodes, st, plan, n - 1);
    }
  }

  /** One step of the sweep on the ledgers it changes. */
  lemma StepLedgers(nodes: seq<Node>, st: Ledger, plan: seq<int>, i: nat)
    requires Listed(nodes, st) && i < |nodes| == |plan|
    ensures StatusBefore(nodes, st, plan, i + 1) == StatusBefore(nodes, st, plan, i)[nodes[i] := plan[i]]
    ensures ProgressBefore(nodes, st, plan, i + 1) ==
      if Enters(st.status[nodes[i]], plan[i]) then ProgressBefore(nodes, st, plan, i)[nodes[i] := st.iteration] else ProgressBefore(nodes, st, plan, i)
    ensures st.status - DeletedBefore(nodes, st, plan, i + 1) ==
      if Recovers(st.status[nodes[i]], plan[i]) then (st.status - DeletedBefore(nodes, st, plan, i)) - {nodes[i]} else st.status - DeletedBefore(nodes, st, plan, i)
  {
  }

  /** The steps of the first `n` nodes leave a node none of them is
      untouched: still live, same status, same progress entry. */
  lemma {:induction false} Untouched(nodes: seq<Node>, st: Ledger, plan: seq<int>, n: nat, w: Node)
    requires Listed(nodes, st) && n <= |nodes| == |plan|
    requires forall j :: 0 <= j < n ==> nodes[j] != w
    ensures w !in DeletedBefore(nodes, st, plan, n)
    ensures w in st.status ==> w in StatusBefore(nodes, st, plan, n) && StatusBefore(nodes, st, plan, n)[w] == st.status[w]
    ensures w in ProgressBefore(nodes, st, plan, n) <==> w in st.progress
    ensures w in st.progress ==> ProgressBefore(nodes, st, plan, n)[w] == st.progress[w]
  {
    if n > 0 {
      Untouched(nodes, st, plan, n - 1, w);
      var k := nodes[n - 1];
      assert k != w;
      if w in st.status {
        var prev := StatusBefore(nodes, st, plan, n - 1);
        StatusBeforeKeys(nodes, st, plan, n - 1);
        assert w in prev;
        assert StatusBefore(nodes, st, plan, n) == prev[k := plan[n - 1]];
      }
    }
  }

  /** Once the `j`-th node has been visited (among the first `n`), the
      working copy holds its decision, it is deleted exactly when it
      recovered, and its progress entry is stamped exactly when it entered
      a timed state. */
  lemma {:induction false} Visited(nodes: seq<Node>, st: Ledger, plan: seq<int>, n: nat, j: nat)
    requires Listed(nodes, st) && Distinct(nodes) && j < n <= |nodes| == |plan|
    ensures nodes[j] in StatusBefore(nodes, st, plan, n) && StatusBefore(nodes, st, plan, n)[nodes[j]] == plan[j]
    ensures nodes[j] in DeletedBefore(nodes, st, plan, n) <==> Recovers(st.status[nodes[j]], plan[j])
    ensures var u, p := nodes[j], ProgressBefore(nodes, st, plan, n);
      Enters(st.status[nodes[j]], plan[j]) ==> u in p && p[u] == st.iteration
    ensures var u, p := nodes[j], ProgressBefore(nodes, st, plan, n);
      !Enters(st.status[nodes[j]], plan[j]) ==> (u in p <==> u in st.progress) && (u in st.progress ==> p[u] == st.progress[u])
  {
    if j < n - 1 {
      Visited(nodes, st, plan, n - 1, j);
      var k := nodes[n - 1];
      assert k != nodes[j];
      var prev := StatusBefore(nodes, st, plan, n - 1);
      StatusBeforeKeys(nodes, st, plan, n - 1);
      assert StatusBefore(nodes, st, plan, n) == prev[k := plan[n - 1]];
    } else {
      Untouched(nodes, st, plan, j, nodes[j]);
    }
  }

  /** A deleted node was deleted by its own step, which recovered it. */
  lemma {:induction false} DeletedWitness(nodes: seq<Node>, st: Ledger, plan: seq<int>, n: nat, v: Node) returns (j: nat)
    requires Listed(nodes, st) && n <= |nodes| == |plan| && v in DeletedBefore(nodes, st, plan, n)
    ensures j < n && nodes[j] == v && Recovers(st.status[nodes[j]], plan[j])
  {
    if v in DeletedBefore(nodes, st, plan, n - 1) {
      j := DeletedWitness(nodes, st, plan, n - 1, v);
    } else {
      j := n - 1;
    }
  }

  /** What the `i`-th step of the sweep finds: its decision is `Next`'s,
      and the node's own entries and (when it is susceptible) its contacts'
      statuses are still those of the pre-sweep ledger. */
  lemma BeforeVisit(c: Setup, st: Ledger, i: nat)
    requires Ready(c, st) && NoReadAfterDelete(c, st) && i < |c.graph.nodes|
    ensures Listed(c.graph.nodes, st)
    ensures var nodes, plan := c.graph.nodes, Plan(c, st);
      var u, live := nodes[i], st.status - DeletedBefore(nodes, st, plan, i);
      && plan[i] == Next(c, st, i)
      && u in live && live[u] == st.status[u]
      && u in StatusBefore(nodes, st, plan, i) && StatusBefore(nodes, st, plan, i)[u] == st.status[u]
      && (u in st.progress ==> u in ProgressBefore(nodes, st, plan, i) && ProgressBefore(nodes, st, plan, i)[u] == st.progress[u])
      && (st.status[u] == Susceptible ==> forall v :: v in Contacts(c.graph, u) ==> v in live && live[v] == st.status[v])
  {
    ReadyListed(c, st);
    var nodes, plan := c.graph.nodes, Plan(c, st);
    Untouched(nodes, st, plan, i, nodes[i]);
    LiveContacts(c, st, i);
    DecisionAt(c, st, |nodes|, i);
  }

  /** When the `i`-th node is susceptible, all its contacts are still live. */
  lemma LiveContacts(c: Setup, st: Ledger, i: nat)
    requires Ready(c, st) && NoReadAfterDelete(c, st) && i < |c.graph.nodes|
    ensures Listed(c.graph.nodes, st)
    ensures st.status[c.graph.nodes[i]] == Susceptible ==>
      forall v :: v in Contacts(c.graph, c.graph.nodes[i]) ==> v in st.status - DeletedBefore(c.graph.nodes, st, Plan(c, st), i)
  {
    ReadyListed(c, st);
    var nodes, plan := c.graph.nodes, Plan(c, st);
    if st.status[nodes[i]] == Susceptible {
      forall v | v in Contacts(c.graph, nodes[i]) ensures v in st.status - DeletedBefore(nodes, st, plan, i) {
        if v in DeletedBefore(nodes, st, plan, i) {
          var j := DeletedWitness(nodes, st, plan, i, v);
        }
      }
    }
  }

  /** A node of the ledger sits at some position of the sweep. */
  lemma NodeIndex(c: Setup, st: Ledger, u: Node) returns (j: nat)
    requires Ready(c, st) && u in st.status
    ensures j < |c.graph.nodes| && c.graph.nodes[j] == u
  {
    assert u in c.graph.NodeSet();
    j :| 0 <= j < |c.graph.nodes| && c.graph.nodes[j] == u;
  }

  /** Where the sweep leaves the `j`-th node: its status is `Next`'s
      decision, it is among the recovered exactly when it moved from
      Infected to Removed, and its progress entry is stamped exactly when it
      entered Exposed or Infected. */
  lemma SweepDecides(c: Setup, st: Ledger, j: nat)
    requires Ready(c, st) && j < |c.graph.nodes|
    ensures var u, next := c.graph.nodes[j], Sweep(c, st);
      && u in st.status && u in next.status && next.status[u] == Next(c, st, j)
      && (u in Recovered(c, st) <==> Recovers(st.status[u], next.status[u]))
      && (Enters(st.status[u], next.status[u]) ==> u in next.progress && next.progress[u] == st.iteration)
      && (!Enters(st.status[u], next.status[u]) ==>
            (u in next.progress <==> u in st.progress) && (u in st.progress ==> next.progress[u] == st.progress[u]))
  {
    ReadyListed(c, st);
    Visited(c.graph.nodes, st, Plan(c, st), |c.graph.nodes|, j);
    DecisionAt(c, st, |c.graph.nodes|, j);
  }

  /** `s'` is `s` itself or the next state along
      Susceptible -> Exposed -> Infected -> Removed. */
  predicate OneStep(s: int, s': int) {
    s' == s || Enters(s, s') || Recovers(s, s')
  }

  /** A sweep moves every node at most one step along the chain, and
      Removed is final. */
  lemma SweepMovesOneStep(c: Setup, st: Ledger, u: Node)
    requires Ready(c, st) && u in st.status
    ensures u in Sweep(c, st).status && OneStep(st.status[u], Sweep(c, st).status[u])
    ensures st.status[u] == Removed ==> Sweep(c, st).status[u] == Removed
  {
    var j := NodeIndex(c, st, u);
    SweepDecides(c, st, j);
    NextCases(c, st, j);
  }

  /** A susceptible node none of whose contacts is infected is still
      susceptible after the sweep, whichever `tp_rate` mode is set. */
  lemma UnexposedStaysSusceptible(c: Setup, st: Ledger, u: Node)
    requires Ready(c, st) && u in st.status && st.status[u] == Susceptible
    requires u in c.graph.nodes && forall v :: v in Contacts(c.graph, u) ==> v in st.status && st.status[v] != Infected
    ensures Sweep(c, st).status[u] == Susceptible
  {
    var j := NodeIndex(c, st, u);
    SweepDecides(c, st, j);
    NextCases(c, st, j);
    assert InfectedCount(Contacts(c.graph, u), st.status) == 0;
  }

  /** The progress ledger after a sweep: a node that entered Exposed or
      Infected carries the sweep's iteration; every other entry, and every
      absence, is as before. */
  lemma SweepStampsProgress(c: Setup, st: Ledger, w: Node)
    requires Ready(c, st)
    ensures var next := Sweep(c, st);
      w in st.status && Enters(st.status[w], next.status[w]) ==> w in next.progress && next.progress[w] == st.iteration
    ensures var next := Sweep(c, st);
      !(w in st.status && Enters(st.status[w], next.status[w])) ==>
        (w in next.progress <==> w in st.progress) && (w in st.progress ==> next.progress[w] == st.progress[w])
  {
    ReadyListed(c, st);
    if w in st.status {
      var j := NodeIndex(c, st, w);
      SweepDecides(c, st, j);
    } else {
      Untouched(c.graph.nodes, st, Plan(c, st), |c.graph.nodes|, w);
    }
  }

  /** The nodes that recover are exactly those the sweep moves from
      Infected to Removed. */
  lemma RecoveredAreRemoved(c: Setup, st: Ledger, u: Node)
    requires Ready(c, st)
    ensures u in Recovered(c, st) <==> u in st.status && Recovers(st.status[u], Sweep(c, st).status[u])
  {
    ReadyListed(c, st);
    if u in Recovered(c, st) {
      var j := DeletedWitness(c.graph.nodes, st, Plan(c, st), |c.graph.nodes|, u);
      SweepDecides(c, st, j);
    } else if u in st.status {
      var j := NodeIndex(c, st, u);
      SweepDecides(c, st, j);
    }
  }

  /** A sweep leaves a ledger ready for the next one: the same nodes, and
      every Exposed or Infected node with an entry time. */
  lemma SweepKeepsReady(c: Setup, st: Ledger)
    requires Ready(c, st)
    ensures Ready(c, Sweep(c, st))
  {
    var next := Sweep(c, st);
    forall u | u in next.status && (next.status[u] == Exposed || next.status[u] == Infected)
      ensures u in next.progress
    {
      SweepMovesOneStep(c, st, u);
      SweepStampsProgress(c, st, u);
    }
  }

  /** A sweep keeps every status one of the model's four codes. */
  lemma SweepKeepsCodes(c: Setup, st: Ledger)
    requires Ready(c, st) && forall u :: u in st.status ==> st.status[u] in StatusSet
    ensures forall u :: u in Sweep(c, st).status ==> Sweep(c, st).status[u] in StatusSet
  {
    forall u | u in Sweep(c, st).status ensures Sweep(c, st).status[u] in StatusSet {
      SweepMovesOneStep(c, st, u);
    }
  }

  /** The reported delta of a later call lists the live nodes whose status
      changed, with their new status; a node that recovered in this sweep is
      not listed, though its status changed. */
  lemma ReportedDelta(c: Setup, st: Ledger, u: Node)
    requires Ready(c, st)
    ensures var r, next := SweepResult(c, st, true), Sweep(c, st);
      u in r.status <==> u in st.status && u !in Recovered(c, st) && next.status[u] != st.status[u]
    ensures var r, next := SweepResult(c, st, true), Sweep(c, st);
      u in r.status ==> r.status[u] == next.status[u]
    ensures u in st.status && Recovers(st.status[u], Sweep(c, st).status[u]) ==> u !in SweepResult(c, st, true).status
  {
    RecoveredAreRemoved(c, st, u);
  }

  /** The populations reported by a later call add up to the number of
      nodes, while the reported changes add up to the number of nodes that
      recovered in the sweep rather than to zero: those nodes were counted
      as Removed after the sweep but not as Infected before it. */
  lemma SweepCountsAddUp(c: Setup, st: Ledger, nodeStatus: bool)
    requires Ready(c, st) && forall u :: u in st.status ==> st.status[u] in StatusSet
    ensures Total(SweepResult(c, st, nodeStatus).nodeCount, Statuses) == |c.graph.nodes|
    ensures Total(SweepResult(c, st, nodeStatus).statusDelta, Statuses) == |Recovered(c, st)|
  {
    var next := Sweep(c, st).status;
    var live := Live(c, st);
    SweepKeepsCodes(c, st);
    ReportAddsUp(live, next);
    SweepSizes(c, st);
  }

  /** Over the four SEIR codes, the populations of a report add up to the
      size of the new ledger and its changes to the difference in size. */
  lemma ReportAddsUp(previous: map<Node, int>, actual: map<Node, int>)
    requires previous.Keys <= actual.Keys
    requires forall u :: u in previous ==> previous[u] in StatusSet
    requires forall u :: u in actual ==> actual[u] in StatusSet
    ensures Total(StatusDelta(previous, actual, StatusSet).nodeCount, Statuses) == |actual|
    ensures Total(StatusDelta(previous, actual, StatusSet).statusDelta, Statuses) == |actual| - |previous|
  {
    var d := StatusDelta(previous, actual, StatusSet);
    assert forall k :: 0 <= k < |Statuses| ==> Statuses[k] in StatusSet;
    assert forall u :: u in actual ==> actual[u] in Statuses;
    assert forall u :: u in previous ==> previous[u] in Statuses;
    PopulationConserved(d.nodeCount, actual, Statuses);
    DeltasAddUp(d.statusDelta, previous, actual, Statuses);
  }

  /** The ledger after the sweep has one entry per node, and the live ledger
      during the sweep lacks exactly the recovered nodes. */
  lemma SweepSizes(c: Setup, st: Ledger)
    requires Ready(c, st)
    ensures |Sweep(c, st).status| == |c.graph.nodes|
    ensures |Live(c, st)| == |c.graph.nodes| - |Recovered(c, st)|
  {
    var next := Sweep(c, st).status;
    var live := Live(c, st);
    DistinctCard(c.graph.nodes);
    assert |next| == |c.graph.nodes| by {
      assert next.Keys == c.graph.NodeSet();
    }
    assert Recovered(c, st) <= st.status.Keys by {
      forall u | u in Recovered(c, st) ensures u in st.status {
        RecoveredAreRemoved(c, st, u);
      }
    }
    assert live.Keys == st.status.Keys - Recovered(c, st);
    assert |live| == |st.status| - |Recovered(c, st)|;
  }

  /** The first call leaves the progress ledger as the constructor made it,
      empty, while cleaning keeps every seeded Exposed or Infected code: so
      a ledger seeded with such a node does not meet `ProgressCovers` when
      the second call starts, and that call fails on the missing entry. */
  lemma SeededTimedNodeLacksProgress(initial: map<Node, int>, u: Node, cursor: nat)
    requires u in initial && (initial[u] == Exposed || initial[u] == Infected)
    ensures !ProgressCovers(Ledger(CleanInitialStatus(initial, StatusSet), map[], 1, cursor))
  {
    var cleaned := CleanInitialStatus(initial, StatusSet);
    assert u in cleaned && cleaned[u] == initial[u];
  }

  /** On the path 0 - 1 with node 0 infected and node 1 susceptible, node 0
      recovers for certain (exp is 0 and every draw is 0), so node 1 then
      reads a status the sweep has already deleted. */
  lemma RecoveryBreaksLaterRead()
    ensures var g := Graph([0, 1], map[0 := [1], 1 := [0]], map[0 := [], 1 := []], false);
      var c := Setup(g, Params(0.5, 0.5, 0.5, 1.0), x => 0.0, (k: nat) => 0.0);
      var st := Ledger(map[0 := Infected, 1 := Susceptible], map[0 := 0], 1, 0);
      Ready(c, st) && !NoReadAfterDelete(c, st)
  {
    var g := Graph([0, 1], map[0 := [1], 1 := [0]], map[0 := [], 1 := []], false);
    var c := Setup(g, Params(0.5, 0.5, 0.5, 1.0), x => 0.0, (k: nat) => 0.0);
    var st := Ledger(map[0 := Infected, 1 := Susceptible], map[0 := 0], 1, 0);
    assert g.NodeSet() == {0, 1};
    assert Ready(c, st);
    NextCases(c, st, 0);
    DecisionAt(c, st, 2, 0);
    assert Plan(c, st)[0] == Removed;
    assert 0 in Contacts(g, 1);
  }
}
